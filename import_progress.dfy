// ImportProgress: the stages of a book import, the progress fraction
// reported to the caller, and the one-way cancellation flag.

module ImportProgress {
  /** The import stages, in the order they are declared and passed through. */
  datatype ImportStage = Preparing | Downloading | Parsing | Saving | Completed

  function Ordinal(stage: ImportStage): (r: nat)
    ensures r < 5
  {
    match stage
    case Preparing => 0
    case Downloading => 1
    case Parsing => 2
    case Saving => 3
    case Completed => 4
  }

  function DisplayName(stage: ImportStage): (r: string)
    ensures |r| > 0
  {
    match stage
    case Preparing => "准备中"
    case Downloading => "下载页面"
    case Parsing => "解析章节"
    case Saving => "保存数据"
    case Completed => "完成"
  }

  /** The stages in declaration order. */
  const Stages: seq<ImportStage> := [Preparing, Downloading, Parsing, Saving, Completed]

  /** Every stage appears once in the list, at its ordinal, so the order is preparing, downloading, parsing, saving, completed. */
  lemma StagesInOrder(stage: ImportStage)
    ensures Stages[Ordinal(stage)] == stage
    ensures forall i, j :: 0 <= i < j < |Stages| ==> Ordinal(Stages[i]) < Ordinal(Stages[j])
  {
  }

  /** No two stages share a display name. */
  lemma DisplayNamesDistinct(a: ImportStage, b: ImportStage)
    ensures DisplayName(a) == DisplayName(b) <==> a == b
  {
    if a != b {
      assert DisplayName(a)[0] != DisplayName(b)[0];
    }
  }

  datatype ImportProgress = ImportProgress(stage: ImportStage, currentStep: int, totalSteps: int, message: string)

  /** `progress`: the fraction of steps done, or 0 when there are no steps. */
  function Progress(p: ImportProgress): (r: real)
    ensures p.totalSteps <= 0 ==> r == 0.0
    ensures p.totalSteps > 0 ==> r * p.totalSteps as real == p.currentStep as real
  {
    if p.totalSteps > 0 then p.currentStep as real / p.totalSteps as real else 0.0
  }

  /** Within the steps, the progress lies between 0 and 1 and reaches 1 exactly on the last step. */
  lemma ProgressBounded(p: ImportProgress)
    requires 0 <= p.currentStep <= p.totalSteps
    ensures 0.0 <= Progress(p) <= 1.0
    ensures p.totalSteps > 0 ==> (Progress(p) == 1.0 <==> p.currentStep == p.totalSteps)
  {
  }

  /** The cancellation token: a flag that starts false and that only `cancel` changes, to true. */
  class SimpleCancellationToken {
    var cancelled: bool

    constructor()
      ensures !cancelled
    {
      cancelled := false;
    }

    predicate IsCancelled()
      reads this
    {
      cancelled
    }

    /** `cancel`: idempotent, and nothing sets the flag back. */
    method Cancel()
      modifies this
      ensures IsCancelled()
    {
      cancelled := true;
    }
  }
}
