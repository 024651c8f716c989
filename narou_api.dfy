// NarouApi: ncode validation, ncode extraction from novel URLs and the
// rule that picks the novel record out of an API reply. The HTTP call is a
// function parameter standing for the remote service.

module NarouApi {
  import opened Wrappers
  import opened Strings
  import opened NarouModels
  import NarouContent

  const NcodeHost: string := "ncode.syosetu.com/"
  const Novel18Host: string := "novel18.syosetu.com/"
  const NcodeLength: nat := 7

  /** `[A-Za-z]` as written: ASCII letters only. */
  predicate IsNcodeLetterStrict(c: char)
  {
    IsAsciiLetter(c)
  }

  /**
   * `[A-Za-z]` under case-insensitive Unicode matching: besides the ASCII
   * letters, the four characters whose case mapping lands in that range
   * (dotted capital I, dotless small i, long s and the Kelvin sign).
   */
  predicate IsNcodeLetter(c: char)
  {
    IsAsciiLetter(c) || c == '\U{130}' || c == '\U{131}' || c == '\U{17F}' || c == '\U{212A}'
  }

  /** The ncode shape `[Nn][0-9]{4}[A-Za-z]{2}` over the whole string, with `letter` deciding what counts as a letter. */
  predicate NcodeShape(s: string, strict: bool)
  {
    |s| == NcodeLength && (s[0] == 'n' || s[0] == 'N')
    && IsDigit(s[1]) && IsDigit(s[2]) && IsDigit(s[3]) && IsDigit(s[4])
    && (if strict then IsNcodeLetterStrict(s[5]) && IsNcodeLetterStrict(s[6])
        else IsNcodeLetter(s[5]) && IsNcodeLetter(s[6]))
  }

  /** `isValidNcode`: a whole-string, case-insensitive match. */
  predicate IsValidNcode(s: string)
  {
    NcodeShape(s, false)
  }

  /** A string matching the case-sensitive pattern also passes the case-insensitive check. */
  lemma StrictIsValid(s: string)
    requires NcodeShape(s, true)
    ensures IsValidNcode(s)
  {
  }

  /** The case-insensitive check accepts the Kelvin sign where the pattern as written reads a letter. */
  lemma KelvinSignIsValid(s: string)
    requires NcodeShape(s, true)
    ensures IsValidNcode(s[..6] + "\U{212A}") && !NcodeShape(s[..6] + "\U{212A}", true)
  {
  }

  // ---------------------------------------------------------------------
  // Lower-casing

  /** `lowercase()` of one character of the ncode alphabet, in the root locale. */
  function LowerChar(c: char): (r: string)
  {
    if 'A' <= c <= 'Z' then [(c as int + 32) as char]
    else if c == '\U{130}' then "i\U{307}"
    else if c == '\U{212A}' then "k"
    else [c]
  }

  /** `lowercase()` of a string over the ncode alphabet. */
  function Lowercase(s: string): (r: string)
    decreases |s|
  {
    if s == [] then [] else LowerChar(s[0]) + Lowercase(s[1..])
  }

  predicate NoUpperAscii(s: string)
  {
    forall i :: 0 <= i < |s| ==> !('A' <= s[i] <= 'Z')
  }

  /** The one-character lower case of any ncode character other than the dotted capital I. */
  function LowerOne(c: char): char
  {
    if 'A' <= c <= 'Z' then (c as int + 32) as char
    else if c == '\U{212A}' then 'k'
    else c
  }

  lemma {:induction false} LowercaseAppend(a: string, b: string)
    ensures Lowercase(a + b) == Lowercase(a) + Lowercase(b)
    decreases |a|
  {
    if a != [] {
      assert (a + b)[1..] == a[1..] + b;
      LowercaseAppend(a[1..], b);
    } else {
      assert a + b == b;
    }
  }

  /** Without a dotted capital I, lower-casing works character by character and keeps the length. */
  lemma {:induction false} LowercaseAt(s: string)
    requires forall i :: 0 <= i < |s| ==> s[i] != '\U{130}'
    ensures |Lowercase(s)| == |s|
    ensures forall i :: 0 <= i < |s| ==> Lowercase(s)[i] == LowerOne(s[i])
    decreases |s|
  {
    if s != [] {
      LowercaseAt(s[1..]);
      assert Lowercase(s) == [LowerOne(s[0])] + Lowercase(s[1..]);
    }
  }

  /** Lower-casing an ASCII ncode keeps its shape, starts it with 'n' and leaves no capital. */
  lemma LowercaseStrict(s: string)
    requires NcodeShape(s, true)
    ensures var l := Lowercase(s);
      NcodeShape(l, true) && l[0] == 'n' && NoUpperAscii(l)
  {
    LowercaseAt(s);
  }

  /** A valid ncode ending in a dotted capital I lower-cases to eight characters, which is no longer a valid ncode. */
  lemma LowercaseMayInvalidate(s: string)
    requires NcodeShape(s, true)
    ensures var t := s[..6] + "\U{130}";
      IsValidNcode(t) && |Lowercase(t)| == 8 && !IsValidNcode(Lowercase(t))
  {
    var t := s[..6] + "\U{130}";
    LowercaseAppend(s[..6], "\U{130}");
    LowercaseAt(s[..6]);
    assert Lowercase("\U{130}") == "i\U{307}";
  }

  // ---------------------------------------------------------------------
  // Extraction from a URL

  /** The ncode right after position `j`, when the seven characters there match the pattern as written. */
  function CodeFrom(url: string, j: nat): (r: Option<string>)
    ensures r.Some? ==> NcodeShape(r.value, true)
  {
    if j + NcodeLength <= |url| && NcodeShape(url[j..j + NcodeLength], true) then Some(url[j..j + NcodeLength])
    else None
  }

  /** A match of `(?:ncode|novel18)\.syosetu\.com/(ncode)` starting at `i`: its group. */
  function CodeAt(url: string, i: nat): (r: Option<string>)
    ensures r.Some? ==> NcodeShape(r.value, true)
  {
    if OccursAt(url, NcodeHost, i) then CodeFrom(url, i + |NcodeHost|)
    else if OccursAt(url, Novel18Host, i) then CodeFrom(url, i + |Novel18Host|)
    else None
  }

  /** The first match at or after `i` (the optional scheme before the host never moves the group). */
  function FindCode(url: string, i: nat): (r: Option<string>)
    ensures r.Some? ==> NcodeShape(r.value, true)
    decreases |url| - i
  {
    if i >= |url| then None
    else if CodeAt(url, i).Some? then CodeAt(url, i)
    else FindCode(url, i + 1)
  }

  /** `extractNcodeFromUrl`: the first ncode after a Narou host anywhere in the URL, lower-cased. */
  function ExtractNcode(url: string): (r: Option<string>)
  {
    match FindCode(url, 0)
    case None => None
    case Some(code) => Some(Lowercase(code))
  }

  /** Whatever is extracted is a valid ncode in lower case. */
  lemma ExtractedIsValid(url: string)
    requires ExtractNcode(url).Some?
    ensures var code := ExtractNcode(url).value;
      IsValidNcode(code) && code[0] == 'n' && NoUpperAscii(code)
  {
    var found := FindCode(url, 0).value;
    LowercaseStrict(found);
    StrictIsValid(Lowercase(found));
  }

  /** The code found is the one at the first position from `i` where the pattern matches. */
  lemma {:induction false} FindCodeFirst(url: string, i: nat) returns (k: nat)
    requires FindCode(url, i).Some?
    ensures i <= k < |url| && CodeAt(url, k) == FindCode(url, i)
    ensures forall j :: i <= j < k ==> CodeAt(url, j).None?
    decreases |url| - i
  {
    if CodeAt(url, i).Some? {
      k := i;
    } else {
      k := FindCodeFirst(url, i + 1);
    }
  }

  /** A match anywhere at or after `i` is found. */
  lemma {:induction false} FindCodeComplete(url: string, i: nat, k: nat)
    requires i <= k && CodeAt(url, k).Some?
    ensures FindCode(url, i).Some?
    decreases |url| - i
  {
    if i < |url| && CodeAt(url, i).None? {
      FindCodeComplete(url, i + 1, k);
    }
  }

  /** `isSupportedUrl`. */
  predicate IsSupportedUrl(url: string)
  {
    ExtractNcode(url).Some?
  }

  /** A URL is supported exactly when a Narou host followed by an ncode occurs somewhere in it. */
  lemma SupportedIffHostAndCode(url: string)
    ensures IsSupportedUrl(url) <==> exists k: nat :: CodeAt(url, k).Some?
  {
    if IsSupportedUrl(url) {
      assert FindCode(url, 0).Some?;
      var k := FindCodeFirst(url, 0);
    }
    if exists k: nat :: CodeAt(url, k).Some? {
      var k: nat :| CodeAt(url, k).Some?;
      FindCodeComplete(url, 0, k);
    }
  }

  /** The scheme's characters are not an 'n', so no host starts inside "https://". */
  lemma NoHostInScheme(url: string, i: nat)
    requires StartsWith(url, "https://") && i < 8
    ensures CodeAt(url, i).None?
  {
    assert url[i] != 'n' by {
      assert url[..8] == "https://";
      assert url[i] == url[..8][i];
    }
    if i + |NcodeHost| <= |url| {
      assert url[i..i + |NcodeHost|][0] == url[i];
    }
    if i + |Novel18Host| <= |url| {
      assert url[i..i + |Novel18Host|][0] == url[i];
    }
  }

  /** The site's own URL for an ncode gives that ncode back, lower-cased. */
  lemma NovelUrlRoundTrip(info: NarouNovelInfo)
    requires NcodeShape(info.ncode, true)
    ensures ExtractNcode(NovelUrl(info)) == Some(Lowercase(info.ncode))
  {
    var url := NovelUrl(info);
    assert OccursAt(url, NcodeHost, 8) by {
      assert url[8..8 + |NcodeHost|] == NovelSite[8..];
    }
    assert url[26..33] == info.ncode;
    assert CodeAt(url, 8) == Some(info.ncode);
    FindCodeComplete(url, 0, 8);
    var k := FindCodeFirst(url, 0);
    if k < 8 {
      NoHostInScheme(url, k);
    }
  }

  /** The id the chapter crawler reads from the same URL is the ncode as given, case kept. */
  lemma NovelUrlId(info: NarouNovelInfo)
    requires info.ncode != [] && '/' !in info.ncode
    ensures NarouContent.NovelId(NovelUrl(info)) == info.ncode
  {
    var url := NovelUrl(info);
    assert EndsWith(url, "/" + info.ncode + "/") by {
      assert url[|url| - |info.ncode| - 2..] == "/" + info.ncode + "/";
    }
    NarouContent.NovelIdIsLastSegment(url, info.ncode);
  }

  // ---------------------------------------------------------------------
  // Calling the API

  /** The reply of the remote service: a failed call, or the decoded list (statistics record first). */
  datatype ApiReply = CallFailed | Records(items: seq<NarouNovelInfo>)

  /** The novel is the second element of the list; a list of one or none holds no novel. */
  function SelectNovel(reply: ApiReply): (r: Option<NarouNovelInfo>)
    ensures r.Some? <==> reply.Records? && |reply.items| > 1
    ensures r.Some? ==> r.value == reply.items[1]
  {
    match reply
    case CallFailed => None
    case Records(items) => if |items| > 1 then Some(items[1]) else None
  }

  /** `getNovelInfoByUrl`: no call without an extracted ncode. */
  function NovelInfoByUrl(url: string, api: string -> ApiReply): (r: Option<NarouNovelInfo>)
    ensures !IsSupportedUrl(url) ==> r.None?
  {
    match ExtractNcode(url)
    case None => None
    case Some(ncode) => SelectNovel(api(ncode))
  }

  /** `getNovelInfoByNcode`: an invalid ncode is rejected before any call; a valid one is sent lower-cased. */
  function NovelInfoByNcode(ncode: string, api: string -> ApiReply): (r: Option<NarouNovelInfo>)
    ensures !IsValidNcode(ncode) ==> r.None?
  {
    if !IsValidNcode(ncode) then None else SelectNovel(api(Lowercase(ncode)))
  }

  /** Only the lower-cased ncode reaches the service: two valid spellings of one ncode give the same result. */
  lemma NcodeCaseIgnored(a: string, b: string, api: string -> ApiReply)
    requires IsValidNcode(a) && IsValidNcode(b) && Lowercase(a) == Lowercase(b)
    ensures NovelInfoByNcode(a, api) == NovelInfoByNcode(b, api)
  {
  }

  /** Asking by the site URL of an ASCII ncode and asking by the ncode send the same request. */
  lemma UrlAndNcodeAgree(info: NarouNovelInfo, api: string -> ApiReply)
    requires NcodeShape(info.ncode, true)
    ensures NovelInfoByUrl(NovelUrl(info), api) == NovelInfoByNcode(info.ncode, api)
  {
    NovelUrlRoundTrip(info);
    StrictIsValid(info.ncode);
  }
}
