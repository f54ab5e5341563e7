/**
 * The parts of .NET's string library that the plugin relies on, restricted to ASCII:
 * `string.IsNullOrWhiteSpace`, `Trim`, `TrimEnd(char)`, `IndexOf`, `LastIndexOf`,
 * `Split(char)`, `Contains(string, Ordinal)`, `ToLowerInvariant` and `Replace(char, char)`,
 * and the decimal digits read by `int.TryParse` and written by zero-padded number formats.
 */
module Text {
  import opened Wrappers

  /** A C# `string`, which may be null. */
  type NString = Option<string>

  /** `char.IsWhiteSpace` on ASCII: space, tab, line feed, vertical tab, form feed, carriage return. */
  predicate IsSpace(c: char) {
    c == ' ' || c == '\t' || c == '\n' || c == '\U{B}' || c == '\U{C}' || c == '\r'
  }

  /** Empty or made of white space only. */
  predicate IsBlank(s: string) {
    forall i :: 0 <= i < |s| ==> IsSpace(s[i])
  }

  /** `string.IsNullOrWhiteSpace`. */
  predicate IsNullOrWhiteSpace(s: NString) {
    s.None? || IsBlank(s.value)
  }

  /** `string.IsNullOrEmpty`. */
  predicate IsNullOrEmpty(s: NString) {
    s.None? || s.value == ""
  }

  // ---------------------------------------------------------------- trimming

  /** White space removed from the front (first half of `string.Trim()`). */
  function TrimStart(s: string): (r: string)
    ensures |r| <= |s| && r == s[|s| - |r|..]
    ensures forall i :: 0 <= i < |s| - |r| ==> IsSpace(s[i])
    ensures r == [] || !IsSpace(r[0])
    decreases |s|
  {
    if |s| > 0 && IsSpace(s[0]) then TrimStart(s[1..]) else s
  }

  /** Every trailing occurrence of `c` removed (`TrimEnd(c)`; `TrimEnd()` when `c` is white space). */
  function TrimEndWhile(s: string, space: bool, c: char): (r: string)
    ensures |r| <= |s| && r == s[..|r|]
    ensures forall i :: |r| <= i < |s| ==> if space then IsSpace(s[i]) else s[i] == c
    ensures r == [] || (if space then !IsSpace(r[|r| - 1]) else r[|r| - 1] != c)
    decreases |s|
  {
    if |s| > 0 && (if space then IsSpace(s[|s| - 1]) else s[|s| - 1] == c)
    then TrimEndWhile(s[..|s| - 1], space, c)
    else s
  }

  /** `s.TrimEnd()`: trailing white space removed. */
  function TrimEnd(s: string): (r: string)
    ensures |r| <= |s| && r == s[..|r|]
    ensures forall i :: |r| <= i < |s| ==> IsSpace(s[i])
    ensures r == [] || !IsSpace(r[|r| - 1])
  {
    TrimEndWhile(s, true, ' ')
  }

  /** `s.TrimEnd(c)`: every trailing `c` removed. */
  function TrimEndChar(s: string, c: char): (r: string)
    ensures |r| <= |s| && r == s[..|r|]
    ensures forall i :: |r| <= i < |s| ==> s[i] == c
    ensures r == [] || r[|r| - 1] != c
  {
    TrimEndWhile(s, false, c)
  }

  /** `s.Trim()`: white space removed from both ends. */
  function Trim(s: string): (r: string)
    ensures |r| <= |s|
    ensures r == [] <==> IsBlank(s)
    ensures r == [] || (!IsSpace(r[0]) && !IsSpace(r[|r| - 1]))
  {
    var t := TrimStart(s);
    var r := TrimEnd(t);
    assert r == [] ==> t == [];
    r
  }

  /** A text that starts with a non-space character is its own `TrimStart`. */
  lemma TrimStartKeeps(s: string)
    requires s != [] && !IsSpace(s[0])
    ensures TrimStart(s) == s
  {
  }

  /** Leading white space makes no difference to `TrimStart`. */
  lemma {:induction false} TrimStartSkipsSpaces(w: string, s: string)
    requires IsBlank(w)
    ensures TrimStart(w + s) == TrimStart(s)
    decreases |w|
  {
    if w != [] {
      assert (w + s)[0] == w[0];
      assert (w + s)[1..] == w[1..] + s;
      TrimStartSkipsSpaces(w[1..], s);
    } else {
      assert w + s == s;
    }
  }

  /** A text that ends with a non-space character is its own `TrimEnd`. */
  lemma TrimEndKeeps(s: string)
    requires s != [] && !IsSpace(s[|s| - 1])
    ensures TrimEnd(s) == s
  {
  }

  /** A text with non-space characters at both ends is its own `Trim`. */
  lemma TrimKeeps(s: string)
    requires s != [] && !IsSpace(s[0]) && !IsSpace(s[|s| - 1])
    ensures Trim(s) == s
  {
    TrimStartKeeps(s);
    TrimEndKeeps(s);
  }

  /** `Trim(s)` is the stretch of `s` after its leading white space. */
  lemma TrimWindow(s: string)
    ensures var off := |s| - |TrimStart(s)|;
      off + |Trim(s)| <= |s| && forall i :: 0 <= i < |Trim(s)| ==> Trim(s)[i] == s[off + i]
  {
    var t := TrimStart(s);
    var off := |s| - |t|;
    forall i | 0 <= i < |Trim(s)| ensures Trim(s)[i] == s[off + i] {
      assert Trim(s)[i] == TrimEnd(t)[i] == t[i];
    }
  }

  // ---------------------------------------------------------------- searching

  /** `s.IndexOf(c)`: the first position of `c`, or -1. */
  function IndexOf(s: string, c: char): (r: int)
    ensures -1 <= r < |s|
    ensures r == -1 <==> c !in s
    ensures r >= 0 ==> s[r] == c && c !in s[..r]
    decreases |s|
  {
    if |s| == 0 then -1
    else if s[0] == c then 0
    else
      var k := IndexOf(s[1..], c);
      assert s == [s[0]] + s[1..];
      if k == -1 then -1
      else
        assert s[..k + 1] == [s[0]] + s[1..][..k];
        k + 1
  }

  /** `s.LastIndexOf(c)`: the last position of `c`, or -1. */
  function LastIndexOf(s: string, c: char): (r: int)
    ensures -1 <= r < |s|
    ensures r == -1 <==> c !in s
    ensures r >= 0 ==> s[r] == c && c !in s[r + 1..]
    decreases |s|
  {
    if |s| == 0 then -1
    else if s[|s| - 1] == c then |s| - 1
    else
      var k := LastIndexOf(s[..|s| - 1], c);
      DropLastKeepsSearch(s, c, k);
      k
  }

  /** Dropping a last character other than `c` changes no search for `c`. */
  lemma DropLastKeepsSearch(s: string, c: char, k: int)
    requires s != [] && s[|s| - 1] != c && -1 <= k < |s| - 1
    ensures c in s <==> c in s[..|s| - 1]
    ensures k >= 0 ==> s[k] == s[..|s| - 1][k] && (c in s[k + 1..] <==> c in s[..|s| - 1][k + 1..])
  {
    assert s == s[..|s| - 1] + [s[|s| - 1]];
    if k >= 0 {
      assert s[k + 1..] == s[..|s| - 1][k + 1..] + [s[|s| - 1]];
    }
  }

  /** A position holding `c` with no `c` before it is `IndexOf`. */
  lemma IndexOfIs(s: string, c: char, k: int)
    requires 0 <= k < |s| && s[k] == c && c !in s[..k]
    ensures IndexOf(s, c) == k
  {
    var r := IndexOf(s, c);
    assert r != -1 by { assert s[k] in s; }
    forall j | 0 <= j < k ensures s[j] != c { assert s[..k][j] == s[j]; }
    forall j | 0 <= j < r ensures s[j] != c { assert s[..r][j] == s[j]; }
  }

  /** A position holding `c` with no `c` after it is `LastIndexOf`. */
  lemma LastIndexOfIs(s: string, c: char, k: int)
    requires 0 <= k < |s| && s[k] == c && c !in s[k + 1..]
    ensures LastIndexOf(s, c) == k
  {
    var r := LastIndexOf(s, c);
    assert r != -1 by { assert s[k] in s; }
    forall j | k < j < |s| ensures s[j] != c { assert s[k + 1..][j - k - 1] == s[j]; }
    forall j | r < j < |s| ensures s[j] != c { assert s[r + 1..][j - r - 1] == s[j]; }
  }

  /** `needle` occurs in `hay` starting at position `i`. */
  predicate OccursAt(hay: string, needle: string, i: int) {
    0 <= i && i + |needle| <= |hay| && hay[i..i + |needle|] == needle
  }

  /** `hay.Contains(needle, StringComparison.Ordinal)`. */
  function Contains(hay: string, needle: string): (r: bool)
    ensures r <==> exists i :: OccursAt(hay, needle, i)
    decreases |hay|
  {
    if |needle| <= |hay| && hay[..|needle|] == needle then
      assert OccursAt(hay, needle, 0);
      true
    else if |hay| == 0 then
      assert forall i :: !OccursAt(hay, needle, i);
      false
    else
      var r := Contains(hay[1..], needle);
      assert forall i :: OccursAt(hay[1..], needle, i) ==> OccursAt(hay, needle, i + 1) by {
        forall i | OccursAt(hay[1..], needle, i) ensures OccursAt(hay, needle, i + 1) {
          assert hay[i + 1..i + 1 + |needle|] == hay[1..][i..i + |needle|];
        }
      }
      assert forall i :: OccursAt(hay, needle, i) ==> OccursAt(hay[1..], needle, i - 1) by {
        forall i | OccursAt(hay, needle, i) ensures OccursAt(hay[1..], needle, i - 1) {
          assert i != 0;
          assert hay[i..i + |needle|] == hay[1..][i - 1..i - 1 + |needle|];
        }
      }
      r
  }

  /** Length of the run of characters satisfying `p` that starts at `from`. */
  function Run(s: string, from: nat, p: char -> bool): (n: nat)
    requires from <= |s|
    ensures from + n <= |s|
    decreases |s| - from
  {
    if from < |s| && p(s[from]) then 1 + Run(s, from + 1, p) else 0
  }

  /** Every character of a run satisfies `p`, and the run stops at the end or at one that does not. */
  lemma {:induction false} RunSpan(s: string, from: nat, p: char -> bool)
    requires from <= |s|
    ensures forall k :: from <= k < from + Run(s, from, p) ==> p(s[k])
    ensures from + Run(s, from, p) == |s| || !p(s[from + Run(s, from, p)])
    decreases |s| - from
  {
    if from < |s| && p(s[from]) {
      RunSpan(s, from + 1, p);
    }
  }

  /** A run that stops at `m` has length `m - from`. */
  lemma {:induction false} RunExact(s: string, from: nat, m: nat, p: char -> bool)
    requires from <= m <= |s|
    requires forall j :: from <= j < m ==> p(s[j])
    requires m == |s| || !p(s[m])
    ensures Run(s, from, p) == m - from
    decreases m - from
  {
    if from < m {
      RunExact(s, from + 1, m, p);
    }
  }

  /** A run is at least as long as any stretch of `p` characters starting at the same place. */
  lemma {:induction false} RunCovers(s: string, from: nat, k: nat, p: char -> bool)
    requires from + k <= |s|
    requires forall j :: from <= j < from + k ==> p(s[j])
    ensures k <= Run(s, from, p)
    decreases k
  {
    if k > 0 {
      RunCovers(s, from + 1, k - 1, p);
    }
  }

  // ---------------------------------------------------------------- splitting

  /** `s.Split(sep)`: every piece between separators, empty pieces included. */
  function Split(s: string, sep: char): (parts: seq<string>)
    ensures |parts| >= 1
    ensures forall i :: 0 <= i < |parts| ==> sep !in parts[i]
    decreases |s|
  {
    var k := IndexOf(s, sep);
    if k < 0 then [s]
    else
      var rest := Split(s[k + 1..], sep);
      assert forall i :: 1 <= i < |rest| + 1 ==> ([s[..k]] + rest)[i] == rest[i - 1];
      [s[..k]] + rest
  }

  /** `string.Join(sep, parts)`. */
  function Join(parts: seq<string>, sep: char): string
  {
    if parts == [] then ""
    else if |parts| == 1 then parts[0]
    else parts[0] + [sep] + Join(parts[1..], sep)
  }

  /** `Join` of a piece in front of at least one more. */
  lemma JoinCons(p: string, rest: seq<string>, sep: char)
    requires |rest| >= 1
    ensures Join([p] + rest, sep) == p + [sep] + Join(rest, sep)
  {
    assert ([p] + rest)[1..] == rest;
  }

  /** Joining the pieces of a split gives back the original string. */
  lemma {:induction false} JoinSplit(s: string, sep: char)
    ensures Join(Split(s, sep), sep) == s
    decreases |s|
  {
    var k := IndexOf(s, sep);
    if k >= 0 {
      var rest := Split(s[k + 1..], sep);
      JoinSplit(s[k + 1..], sep);
      JoinCons(s[..k], rest, sep);
      Around(s, k, sep);
    }
  }

  /** A string is the part before position `k`, the separator at `k`, and the part after it. */
  lemma Around(s: string, k: nat, sep: char)
    requires k < |s| && s[k] == sep
    ensures s[..k] + [sep] + s[k + 1..] == s
  {
  }

  /** Splitting a join of separator-free pieces gives back the pieces. */
  lemma {:induction false} SplitJoin(parts: seq<string>, sep: char)
    requires |parts| >= 1
    requires forall i :: 0 <= i < |parts| ==> sep !in parts[i]
    ensures Split(Join(parts, sep), sep) == parts
    decreases |parts|
  {
    if |parts| > 1 {
      var s := Join(parts, sep);
      var rest := Join(parts[1..], sep);
      assert s == parts[0] + [sep] + rest;
      IndexOfAfterFree(parts[0], sep, rest);
      assert s[..|parts[0]|] == parts[0];
      assert s[|parts[0]| + 1..] == rest;
      SplitJoin(parts[1..], sep);
    } else {
      assert IndexOf(parts[0], sep) == -1;
    }
  }

  /** The first separator of `a + [c] + b` is the one after `a` when `a` holds none. */
  lemma IndexOfAfterFree(a: string, c: char, b: string)
    requires c !in a
    ensures IndexOf(a + [c] + b, c) == |a|
  {
    var s := a + [c] + b;
    assert s[|a|] == c;
    assert s[..|a|] == a;
  }

  // ---------------------------------------------------------------- case and replacement

  /** `char.ToLowerInvariant` on ASCII. */
  function LowerChar(c: char): (r: char)
    ensures IsSpace(r) <==> IsSpace(c)
    ensures ('A' <= c <= 'Z') ==> r as int == c as int + 32
    ensures !('A' <= c <= 'Z') ==> r == c
  {
    if 'A' <= c <= 'Z' then (c as int + 32) as char else c
  }

  /** `s.ToLowerInvariant()` on ASCII. */
  function Lower(s: string): (r: string)
    ensures |r| == |s|
    ensures forall i :: 0 <= i < |s| ==> r[i] == LowerChar(s[i])
  {
    seq(|s|, i requires 0 <= i < |s| => LowerChar(s[i]))
  }

  /** `s.Replace(a, b)`: every `a` becomes `b`. */
  function ReplaceChar(s: string, a: char, b: char): (r: string)
    ensures |r| == |s|
    ensures forall i :: 0 <= i < |s| ==> r[i] == (if s[i] == a then b else s[i])
  {
    seq(|s|, i requires 0 <= i < |s| => if s[i] == a then b else s[i])
  }

  // ---------------------------------------------------------------- decimal digits

  /** The ASCII digits `0`-`9` (the class `[0-9]`). */
  predicate IsDigit(c: char) {
    '0' <= c <= '9'
  }

  predicate AllDigits(s: string) {
    forall i :: 0 <= i < |s| ==> IsDigit(s[i])
  }

  function Pow10(n: nat): (r: nat)
    ensures r >= 1
  {
    if n == 0 then 1 else 10 * Pow10(n - 1)
  }

  /** The number a run of digits denotes (`int.TryParse` on digits only; leading zeros allowed). */
  function DigitsValue(s: string): (v: nat)
    requires AllDigits(s)
    ensures v < Pow10(|s|)
    decreases |s|
  {
    if s == [] then 0
    else DigitsValue(s[..|s| - 1]) * 10 + ((s[|s| - 1] as int) - ('0' as int))
  }

  /** `n` written with exactly `width` digits, zero-padded on the left. */
  function FormatNumber(n: nat, width: nat): (r: string)
    requires n < Pow10(width)
    ensures |r| == width && AllDigits(r)
  {
    if width == 0 then ""
    else FormatNumber(n / 10, width - 1) + [(('0' as int) + n % 10) as char]
  }

  /** Reading back a zero-padded number gives the number. */
  lemma {:induction false} DigitsValueOfFormat(n: nat, width: nat)
    requires n < Pow10(width)
    ensures DigitsValue(FormatNumber(n, width)) == n
  {
    if width > 0 {
      var r := FormatNumber(n, width);
      DigitsValueOfFormat(n / 10, width - 1);
      assert r[..|r| - 1] == FormatNumber(n / 10, width - 1);
    }
  }

  /** Writing back the value of a run of digits, at the same width, gives the run. */
  lemma {:induction false} FormatOfDigitsValue(s: string)
    requires AllDigits(s)
    ensures FormatNumber(DigitsValue(s), |s|) == s
    decreases |s|
  {
    if s != [] {
      var init := s[..|s| - 1];
      FormatOfDigitsValue(init);
      var v := DigitsValue(s);
      assert v / 10 == DigitsValue(init);
      assert s == init + [s[|s| - 1]];
    }
  }
}
