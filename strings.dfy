// Option type and the Kotlin string primitives the application relies on:
// trim() with Char.isWhitespace, split("\n"), joinToString, replace,
// startsWith/contains, and decimal digit strings with Int overflow.

module Wrappers {
  datatype Option<T> = None | Some(value: T)
  {
    function GetOr(default: T): T
    {
      match this
      case None => default
      case Some(v) => v
    }
  }
}

module Strings {
  import opened Wrappers

  /** Largest Kotlin `Int`; `toInt`/`toIntOrNull` fail above it. */
  const MAX_INT: int := 2147483647

  /**
   * Kotlin's `Char.isWhitespace()` on the JVM: `Character.isWhitespace` or
   * `Character.isSpaceChar`, i.e. the ASCII controls \t..\r and U+001C..U+001F
   * plus every Unicode space, line and paragraph separator.
   */
  predicate IsWhitespace(c: char)
  {
    c == ' ' || ('\t' <= c <= '\r') || ('\U{1C}' <= c <= '\U{1F}')
    || c == '\U{A0}' || c == '\U{1680}' || ('\U{2000}' <= c <= '\U{200A}')
    || c == '\U{2028}' || c == '\U{2029}' || c == '\U{202F}' || c == '\U{205F}'
    || c == '\U{3000}'
  }

  /** The regular-expression class `\s` of java.util.regex: [ \t\n\x0B\f\r]. */
  predicate IsRegexSpace(c: char)
  {
    c == ' ' || ('\t' <= c <= '\r')
  }

  /** Characters the regular-expression `.` refuses (java.util.regex line terminators). */
  predicate IsLineTerminator(c: char)
  {
    c == '\n' || c == '\r' || c == '\U{85}' || c == '\U{2028}' || c == '\U{2029}'
  }

  predicate IsDigit(c: char)
  {
    '0' <= c <= '9'
  }

  predicate IsAsciiLetter(c: char)
  {
    'a' <= c <= 'z' || 'A' <= c <= 'Z'
  }

  predicate AllDigits(s: string)
  {
    forall i :: 0 <= i < |s| ==> IsDigit(s[i])
  }

  /** `isBlank()`: every character is whitespace (so "" is blank). */
  predicate IsBlank(s: string)
  {
    forall i :: 0 <= i < |s| ==> IsWhitespace(s[i])
  }

  function TrimStart(s: string): (r: string)
    ensures |r| <= |s|
    ensures r == [] || !IsWhitespace(r[0])
  {
    if |s| > 0 && IsWhitespace(s[0]) then TrimStart(s[1..]) else s
  }

  /** `TrimStart` drops a run of leading whitespace and keeps the rest. */
  lemma {:induction false} TrimStartDrops(s: string)
    ensures TrimStart(s) == s[|s| - |TrimStart(s)|..]
    ensures forall i :: 0 <= i < |s| - |TrimStart(s)| ==> IsWhitespace(s[i])
    decreases |s|
  {
    if |s| > 0 && IsWhitespace(s[0]) {
      TrimStartDrops(s[1..]);
      forall i | 1 <= i < |s| - |TrimStart(s)| ensures IsWhitespace(s[i]) {
        assert s[i] == s[1..][i - 1];
      }
    }
  }

  function TrimEnd(s: string): (r: string)
    ensures |r| <= |s|
    ensures r == [] || (!IsWhitespace(r[|r| - 1]) && r[0] == s[0])
  {
    if |s| > 0 && IsWhitespace(s[|s| - 1]) then TrimEnd(s[..|s| - 1]) else s
  }

  /** `TrimEnd` drops a run of trailing whitespace and keeps the rest. */
  lemma {:induction false} TrimEndDrops(s: string)
    ensures TrimEnd(s) == s[..|TrimEnd(s)|]
    ensures forall i :: |TrimEnd(s)| <= i < |s| ==> IsWhitespace(s[i])
    decreases |s|
  {
    if |s| > 0 && IsWhitespace(s[|s| - 1]) {
      TrimEndDrops(s[..|s| - 1]);
    }
  }

  /** Kotlin `trim()`. */
  function Trim(s: string): (r: string)
    ensures |r| <= |s|
    ensures r == [] || (!IsWhitespace(r[0]) && !IsWhitespace(r[|r| - 1]))
  {
    TrimEnd(TrimStart(s))
  }

  /**
   * `trim()` keeps the slice of `s` between a leading and a trailing run of
   * whitespace.
   */
  lemma TrimDrops(s: string)
    ensures OccursAt(s, Trim(s), |s| - |TrimStart(s)|)
    ensures forall i :: 0 <= i < |s| - |TrimStart(s)| ==> IsWhitespace(s[i])
    ensures forall i :: |s| - |TrimStart(s)| + |Trim(s)| <= i < |s| ==> IsWhitespace(s[i])
  {
    var t := TrimStart(s);
    var r := Trim(s);
    var k := |s| - |t|;
    TrimStartDrops(s);
    TrimEndDrops(t);
    PrefixOfSuffix(s, k, |r|);
    forall i | k + |r| <= i < |s| ensures IsWhitespace(s[i]) {
      assert s[i] == t[i - k];
    }
  }

  lemma PrefixOfSuffix(s: string, k: nat, n: nat)
    requires k + n <= |s|
    ensures s[k..][..n] == s[k..k + n]
  {
  }

  /** A string with no surrounding whitespace. */
  predicate IsTrimmed(s: string)
  {
    s == [] || (!IsWhitespace(s[0]) && !IsWhitespace(s[|s| - 1]))
  }

  /** Trimming never introduces a character. */
  lemma TrimKeepsAbsent(s: string, c: char)
    requires c !in s
    ensures c !in Trim(s)
  {
    var r := Trim(s);
    var k := |s| - |TrimStart(s)|;
    TrimDrops(s);
    assert forall j :: 0 <= j < |r| ==> r[j] == s[k + j];
  }

  lemma TrimOfTrimmed(s: string)
    requires IsTrimmed(s)
    ensures Trim(s) == s
  {
    if s != [] {
      assert TrimStart(s) == s;
      assert TrimEnd(s) == s;
    }
  }

  lemma {:induction false} TrimStartEmptyIffBlank(s: string)
    ensures TrimStart(s) == [] <==> IsBlank(s)
    decreases |s|
  {
    if |s| > 0 && IsWhitespace(s[0]) {
      TrimStartEmptyIffBlank(s[1..]);
      if IsBlank(s[1..]) {
        assert forall i :: 0 <= i < |s| ==> IsWhitespace(s[i]) by {
          forall i | 0 <= i < |s| ensures IsWhitespace(s[i]) {
            if i > 0 { assert s[i] == s[1..][i - 1]; }
          }
        }
      }
    }
  }

  /** `trim().isEmpty()` holds exactly for blank strings. */
  lemma TrimEmptyIffBlank(s: string)
    ensures Trim(s) == [] <==> IsBlank(s)
  {
    TrimStartEmptyIffBlank(s);
    TrimEndDrops(TrimStart(s));
  }

  /** Index of the first occurrence of `c`, or `|s|` when there is none. */
  function FindChar(s: string, c: char): (i: nat)
    ensures i <= |s|
    ensures i < |s| ==> s[i] == c
    ensures forall j :: 0 <= j < i ==> s[j] != c
  {
    if |s| == 0 then 0
    else if s[0] == c then 0
    else 1 + FindChar(s[1..], c)
  }

  /** Kotlin `split(c)`: every piece, empty ones included; "" splits to [""]. */
  function Split(s: string, c: char): (r: seq<string>)
    ensures |r| >= 1
    ensures forall k :: 0 <= k < |r| ==> c !in r[k]
    decreases |s|
  {
    var i := FindChar(s, c);
    if i == |s| then [s] else [s[..i]] + Split(s[i + 1..], c)
  }

  /** Kotlin `joinToString(sep)`. */
  function Join(xs: seq<string>, sep: string): string
  {
    if |xs| == 0 then ""
    else if |xs| == 1 then xs[0]
    else xs[0] + sep + Join(xs[1..], sep)
  }

  /** Joining two non-empty lists is joining each and putting the separator between. */
  lemma {:induction false} JoinAppend(a: seq<string>, b: seq<string>, sep: string)
    requires |a| >= 1 && |b| >= 1
    ensures Join(a + b, sep) == Join(a, sep) + sep + Join(b, sep)
    decreases |a|
  {
    assert (a + b)[1..] == a[1..] + b;
    if |a| > 1 {
      JoinAppend(a[1..], b, sep);
    }
  }

  /** A joined text holds a character only if a piece or the separator does. */
  lemma {:induction false} JoinWithout(xs: seq<string>, sep: string, c: char)
    requires c !in sep
    requires forall k :: 0 <= k < |xs| ==> c !in xs[k]
    ensures c !in Join(xs, sep)
  {
    if |xs| > 1 {
      JoinWithout(xs[1..], sep, c);
    }
  }

  lemma FindCharAfterPiece(a: string, c: char, b: string)
    requires c !in a
    ensures FindChar(a + [c] + b, c) == |a|
  {
    var s := a + [c] + b;
    assert s[|a|] == c;
    forall j | 0 <= j < |a| ensures s[j] != c {
      assert s[j] == a[j];
    }
  }

  lemma SplitWithout(s: string, c: char)
    requires c !in s
    ensures Split(s, c) == [s]
  {
    assert forall j :: 0 <= j < |s| ==> s[j] != c;
  }

  /** Splitting a joined list gives the list back when no piece holds the separator. */
  lemma {:induction false} SplitJoin(xs: seq<string>, c: char)
    requires |xs| >= 1
    requires forall k :: 0 <= k < |xs| ==> c !in xs[k]
    ensures Split(Join(xs, [c]), c) == xs
    decreases |xs|
  {
    if |xs| == 1 {
      SplitWithout(xs[0], c);
    } else {
      SplitAfterPiece(xs[0], c, Join(xs[1..], [c]));
      SplitJoin(xs[1..], c);
      ConsTail(xs);
    }
  }

  lemma AppendAssoc<T>(a: seq<T>, b: seq<T>, c: seq<T>)
    ensures a + b + c == a + (b + c)
  {
  }

  lemma SuffixAt<T>(xs: seq<T>, i: nat)
    requires i < |xs|
    ensures xs[i..] == [xs[i]] + xs[i + 1..]
  {
  }

  lemma InitLast<T>(xs: seq<T>)
    requires xs != []
    ensures xs[..|xs| - 1] + [xs[|xs| - 1]] == xs
  {
  }

  lemma ConsTail<T>(xs: seq<T>)
    requires xs != []
    ensures [xs[0]] + xs[1..] == xs
  {
  }

  /** Splitting at the first separator gives the piece before it, then the split of the rest. */
  lemma SplitAfterPiece(a: string, c: char, b: string)
    requires c !in a
    ensures Split(a + [c] + b, c) == [a] + Split(b, c)
  {
    var s := a + [c] + b;
    FindCharAfterPiece(a, c, b);
    assert s[..|a|] == a;
    assert s[|a| + 1..] == b;
  }

  /** Joining the pieces of a split gives the string back. */
  lemma {:induction false} JoinSplit(s: string, c: char)
    ensures Join(Split(s, c), [c]) == s
    decreases |s|
  {
    var i := FindChar(s, c);
    if i < |s| {
      JoinSplitStep(s, c);
      JoinSplit(s[i + 1..], c);
      Reassemble(s, i);
    } else {
      assert Split(s, c) == [s];
    }
  }

  lemma Reassemble(s: string, i: nat)
    requires i < |s|
    ensures s[..i] + [s[i]] + s[i + 1..] == s
  {
  }

  /** Joining the pieces of a split peels off the first piece and the separator after it. */
  lemma JoinSplitStep(s: string, c: char)
    requires FindChar(s, c) < |s|
    ensures var i := FindChar(s, c);
      Join(Split(s, c), [c]) == s[..i] + [c] + Join(Split(s[i + 1..], c), [c])
  {
    var i := FindChar(s, c);
    var pieces := Split(s[i + 1..], c);
    assert Split(s, c) == [s[..i]] + pieces;
    assert ([s[..i]] + pieces)[1..] == pieces;
  }

  /** Splitting around a separator occurrence splits each side independently. */
  lemma {:induction false} SplitAppend(a: string, c: char, b: string)
    ensures Split(a + [c] + b, c) == Split(a, c) + Split(b, c)
    decreases |a|
  {
    var s := a + [c] + b;
    var i := FindChar(a, c);
    if i == |a| {
      FindCharAfterPiece(a, c, b);
      assert s[..|a|] == a;
      assert s[|a| + 1..] == b;
    } else {
      assert FindChar(s, c) == i by {
        assert s[i] == c;
        forall j | 0 <= j < i ensures s[j] != c { assert s[j] == a[j]; }
      }
      assert s[..i] == a[..i];
      assert s[i + 1..] == a[i + 1..] + [c] + b;
      SplitAppend(a[i + 1..], c, b);
    }
  }

  predicate StartsWith(s: string, prefix: string)
  {
    |prefix| <= |s| && s[..|prefix|] == prefix
  }

  predicate EndsWith(s: string, suffix: string)
  {
    |suffix| <= |s| && s[|s| - |suffix|..] == suffix
  }

  /** `contains(p)` for a substring `p`. */
  predicate Contains(s: string, p: string)
  {
    exists i :: 0 <= i <= |s| - |p| && OccursAt(s, p, i)
  }

  /** `p` occurs in `s` starting at index `i`. */
  predicate OccursAt(s: string, p: string, i: int)
  {
    0 <= i <= |s| - |p| && s[i..i + |p|] == p
  }

  /** A nullable string as a string template renders it: "null" when absent. */
  function MessageText(message: Option<string>): string
  {
    if message.Some? then message.value else "null"
  }

  /** Kotlin `removePrefix`. */
  function RemovePrefix(s: string, prefix: string): (r: string)
    ensures StartsWith(s, prefix) ==> s == prefix + r
    ensures !StartsWith(s, prefix) ==> r == s
  {
    if StartsWith(s, prefix) then s[|prefix|..] else s
  }

  /** Kotlin `replace(pattern, replacement)`: non-overlapping, left to right. */
  function ReplaceAll(s: string, pattern: string, replacement: string): (r: string)
    requires |pattern| > 0
    ensures !Contains(s, pattern) ==> r == s
    decreases |s|
  {
    if |s| < |pattern| then s
    else if s[..|pattern|] == pattern then
      assert OccursAt(s, pattern, 0);
      replacement + ReplaceAll(s[|pattern|..], pattern, replacement)
    else
      assert forall i :: OccursAt(s[1..], pattern, i) ==> OccursAt(s, pattern, i + 1) by {
        forall i | OccursAt(s[1..], pattern, i) ensures OccursAt(s, pattern, i + 1) {
          assert s[1..][i..i + |pattern|] == s[i + 1..i + 1 + |pattern|];
        }
      }
      [s[0]] + ReplaceAll(s[1..], pattern, replacement)
  }

  function DigitChar(d: nat): char
    requires d < 10
  {
    ['0', '1', '2', '3', '4', '5', '6', '7', '8', '9'][d]
  }

  function DigitValue(c: char): nat
    requires IsDigit(c)
  {
    (c as int - '0' as int) as nat
  }

  /** Decimal rendering of a non-negative Kotlin number (string interpolation). */
  function NatToString(n: nat): (r: string)
    ensures |r| >= 1 && AllDigits(r)
  {
    if n < 10 then [DigitChar(n)] else NatToString(n / 10) + [DigitChar(n % 10)]
  }

  /** Decimal rendering of a Kotlin `Int`, sign included. */
  function IntToString(i: int): (r: string)
    ensures |r| >= 1
    ensures i < 0 <==> r[0] == '-'
  {
    if i < 0 then "-" + NatToString(-i) else NatToString(i)
  }

  /** The value of a string of decimal digits (leading zeros allowed). */
  function DigitsValue(d: string): nat
    requires AllDigits(d)
  {
    if d == [] then 0 else DigitsValue(d[..|d| - 1]) * 10 + DigitValue(d[|d| - 1])
  }

  lemma {:induction false} DigitsValueOfNatToString(n: nat)
    ensures DigitsValue(NatToString(n)) == n
  {
    if n >= 10 {
      var r := NatToString(n);
      assert r[..|r| - 1] == NatToString(n / 10);
      DigitsValueOfNatToString(n / 10);
    }
  }

  /** `toIntOrNull()` on a string already known to be decimal digits. */
  function DigitsToInt(d: string): (r: Option<int>)
    requires AllDigits(d) && |d| >= 1
    ensures r.Some? ==> 0 <= r.value <= MAX_INT
  {
    var v := DigitsValue(d);
    if v <= MAX_INT then Some(v) else None
  }

  /** Length of the longest prefix of ASCII digits. */
  function DigitPrefix(s: string): (n: nat)
    ensures n <= |s| && AllDigits(s[..n])
    ensures n < |s| ==> !IsDigit(s[n])
  {
    if |s| > 0 && IsDigit(s[0]) then
      var k := DigitPrefix(s[1..]);
      assert s[..1 + k] == [s[0]] + s[1..][..k];
      1 + k
    else 0
  }

  /** Rendering a number and appending a non-digit leaves the digit prefix at the number. */
  lemma {:induction false} DigitPrefixOfNumber(n: nat, rest: string)
    requires |rest| > 0 && !IsDigit(rest[0])
    ensures DigitPrefix(NatToString(n) + rest) == |NatToString(n)|
  {
    var d := NatToString(n);
    DigitPrefixAfterDigits(d, rest);
  }

  lemma {:induction false} DigitPrefixAfterDigits(d: string, rest: string)
    requires AllDigits(d)
    requires |rest| > 0 && !IsDigit(rest[0])
    ensures DigitPrefix(d + rest) == |d|
    decreases |d|
  {
    if |d| > 0 {
      assert (d + rest)[1..] == d[1..] + rest;
      DigitPrefixAfterDigits(d[1..], rest);
    } else {
      assert d + rest == rest;
    }
  }
}
