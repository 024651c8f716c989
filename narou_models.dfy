// NarouModels: the novel record returned by the Narou metadata API and
// the display helpers computed from it.

module NarouModels {
  import opened Wrappers
  import opened Strings

  const NovelSite: string := "https://ncode.syosetu.com/"
  const ShortStory: string := "短篇"
  const Completed: string := "已完结"
  const Ongoing: string := "连载中"

  /** The fields of a novel record that the helpers read (the counters, points and timestamps are not modelled). */
  datatype NarouNovelInfo = NarouNovelInfo(
    title: string,
    ncode: string,
    author: string,
    description: string,
    keywords: string,
    novelType: int,
    isCompleted: int,
    totalLength: int)

  /** `getStatusText`: a short story (type 1) whatever its end flag; otherwise finished (end flag 1) or ongoing. */
  function StatusText(info: NarouNovelInfo): (r: string)
    ensures info.novelType == 1 ==> r == ShortStory
    ensures info.novelType != 1 && info.isCompleted == 1 ==> r == Completed
    ensures info.novelType != 1 && info.isCompleted != 1 ==> r == Ongoing
  {
    if info.novelType == 1 then ShortStory
    else if info.isCompleted == 1 then Completed
    else Ongoing
  }

  /** The three status texts are distinct, so the status tells the three cases apart. */
  lemma StatusTextsDistinct(a: NarouNovelInfo, b: NarouNovelInfo)
    ensures StatusText(a) == StatusText(b) <==>
      (a.novelType == 1 && b.novelType == 1)
      || (a.novelType != 1 && b.novelType != 1 && (a.isCompleted == 1 <==> b.isCompleted == 1))
  {
    assert ShortStory[0] != Completed[0] && ShortStory[0] != Ongoing[0] && Completed[0] != Ongoing[0];
  }

  /** `getNovelUrl`. */
  function NovelUrl(info: NarouNovelInfo): (r: string)
    ensures |r| == |NovelSite| + |info.ncode| + 1 && StartsWith(r, NovelSite) && EndsWith(r, "/")
    ensures r[|NovelSite|..|r| - 1] == info.ncode
  {
    NovelSite + info.ncode + "/"
  }

  /** The pieces of `xs` that are not blank, in order. */
  function NonBlank(xs: seq<string>): (r: seq<string>)
    ensures |r| <= |xs|
    ensures forall k :: 0 <= k < |r| ==> !IsBlank(r[k]) && r[k] in xs
  {
    if xs == [] then []
    else (if IsBlank(xs[0]) then [] else [xs[0]]) + NonBlank(xs[1..])
  }

  /** `getKeywordList`: the space-separated keywords, blank pieces dropped. */
  function KeywordList(keywords: string): (r: seq<string>)
    ensures IsBlank(keywords) ==> r == []
    ensures forall k :: 0 <= k < |r| ==> !IsBlank(r[k]) && ' ' !in r[k]
  {
    if IsBlank(keywords) then [] else NonBlank(Split(keywords, ' '))
  }

  /** A list of non-blank pieces without blanks survives the filter. */
  lemma {:induction false} NonBlankKeepsAll(xs: seq<string>)
    requires forall k :: 0 <= k < |xs| ==> !IsBlank(xs[k])
    ensures NonBlank(xs) == xs
  {
    if xs != [] {
      NonBlankKeepsAll(xs[1..]);
    }
  }

  /** A keyword that is not blank has a non-whitespace character, so joining such keywords is not blank. */
  lemma JoinedNotBlank(ws: seq<string>)
    requires |ws| >= 1 && !IsBlank(ws[0])
    ensures !IsBlank(Join(ws, " "))
  {
    var j := Join(ws, " ");
    var i :| 0 <= i < |ws[0]| && !IsWhitespace(ws[0][i]);
    if |ws| > 1 {
      assert j == ws[0] + " " + Join(ws[1..], " ");
    }
    assert j[i] == ws[0][i];
  }

  /** Keywords written space-separated are read back as the same list. */
  lemma KeywordListOfJoin(ws: seq<string>)
    requires forall k :: 0 <= k < |ws| ==> !IsBlank(ws[k]) && ' ' !in ws[k]
    ensures KeywordList(Join(ws, " ")) == ws
  {
    if ws != [] {
      JoinedNotBlank(ws);
      SplitJoin(ws, ' ');
      NonBlankKeepsAll(ws);
    }
  }

  /** `getFormattedLength`, integer branches: tens of thousands as "万字", below a thousand as "字"; None stands for the one-decimal "千字" branch. */
  function FormattedLength(totalLength: int): (r: Option<string>)
    ensures r.None? <==> 1000 <= totalLength < 10000
  {
    if totalLength >= 10000 then Some(NatToString(totalLength / 10000) + "万字")
    else if totalLength >= 1000 then None
    else Some(IntToString(totalLength) + "字")
  }

  /** A length of ten thousand or more reads back as its whole number of ten-thousands. */
  lemma FormattedTenThousands(totalLength: int)
    requires totalLength >= 10000
    ensures var s := FormattedLength(totalLength).value;
      EndsWith(s, "万字") && AllDigits(s[..|s| - 2]) && DigitsValue(s[..|s| - 2]) == totalLength / 10000
  {
    var d := NatToString(totalLength / 10000);
    var s := d + "万字";
    assert s[..|s| - 2] == d;
    assert s[|s| - 2..] == "万字";
    DigitsValueOfNatToString(totalLength / 10000);
  }

  /** A length from 0 to 999 reads back exactly. */
  lemma FormattedUnits(totalLength: int)
    requires 0 <= totalLength < 1000
    ensures var s := FormattedLength(totalLength).value;
      EndsWith(s, "字") && AllDigits(s[..|s| - 1]) && DigitsValue(s[..|s| - 1]) == totalLength
  {
    var d := NatToString(totalLength);
    var s := d + "字";
    assert s[..|s| - 1] == d;
    DigitsValueOfNatToString(totalLength);
  }
}
