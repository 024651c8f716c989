// TranslationStatus: the per-chapter translation status codes stored with a
// chapter, and their descriptions.

module TranslationStatus {

  const NOT_TRANSLATED: int := 0
  const TRANSLATING: int := 1
  const COMPLETED: int := 2
  const ERROR: int := 3

  const UnknownStatus: string := "未知状态"

  predicate IsKnownStatus(status: int)
  {
    status == NOT_TRANSLATED || status == TRANSLATING || status == COMPLETED || status == ERROR
  }

  /** `getStatusDescription`. */
  function StatusDescription(status: int): (d: string)
    ensures d == UnknownStatus <==> !IsKnownStatus(status)
  {
    if status == NOT_TRANSLATED then "未翻译"
    else if status == TRANSLATING then "翻译中"
    else if status == COMPLETED then "已完成"
    else if status == ERROR then "翻译失败"
    else UnknownStatus
  }

  /**
   * Each known code (0 to 3) has its own description: the description
   * determines the code.
   */
  lemma DescriptionsDistinct(a: int, b: int)
    requires IsKnownStatus(a) && IsKnownStatus(b)
    ensures StatusDescription(a) == StatusDescription(b) <==> a == b
  {
  }
}
