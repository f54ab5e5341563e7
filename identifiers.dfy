/**
 * Identifier and query text of Utils.cs: `GetYTID`, `CleanupSearchText`, `BuildSearchQuery`,
 * `ToSafeCacheKey` and `GetVideoInfoPath`, with the two id patterns of Constants.cs.
 */
module Identifiers {
  import opened Wrappers
  import opened Text

  // ---------------------------------------------------------------- GetYTID

  /** The character class `[a-zA-Z0-9\-_]` of the id patterns. */
  predicate IsIdChar(c: char) {
    ('a' <= c <= 'z') || ('A' <= c <= 'Z') || ('0' <= c <= '9') || c == '-' || c == '_'
  }

  /** Length of a video id (`YTID_RE`). */
  const VideoIdLength: nat := 11

  /** Length of a channel id (`YTCHANNEL_RE`). */
  const ChannelIdLength: nat := 24

  /** `(?<=\[)[a-zA-Z0-9\-_]{n}(?=\])` matches `s` at position `i`. */
  predicate BracketedIdAt(s: string, i: int, n: nat) {
    1 <= i && i + n < |s| && s[i - 1] == '[' && s[i + n] == ']' &&
    forall k :: i <= k < i + n ==> IsIdChar(s[k])
  }

  /** The leftmost match of the pattern at or after `from`, as `Regex.Match` scans for it. */
  function FirstBracketedId(s: string, n: nat, from: nat): (r: Option<nat>)
    ensures r.Some? ==> from <= r.value && BracketedIdAt(s, r.value, n)
    ensures r.Some? ==> forall j :: from <= j < r.value ==> !BracketedIdAt(s, j, n)
    ensures r.None? ==> forall j :: from <= j ==> !BracketedIdAt(s, j, n)
    decreases |s| - from
  {
    if from + n >= |s| then None
    else if BracketedIdAt(s, from, n) then Some(from)
    else FirstBracketedId(s, n, from + 1)
  }

  /**
   * The video id between square brackets in a file name; failing that, the channel id;
   * failing that, "". The match taken is the leftmost one.
   */
  function GetYTID(name: NString): (r: string)
    ensures |r| == 0 || |r| == VideoIdLength || |r| == ChannelIdLength
    ensures forall k :: 0 <= k < |r| ==> IsIdChar(r[k])
    ensures IsNullOrWhiteSpace(name) ==> r == ""
    ensures |r| == VideoIdLength <==>
      name.Some? && exists i :: BracketedIdAt(name.value, i, VideoIdLength)
    ensures |r| == ChannelIdLength <==>
      name.Some? && (forall i :: !BracketedIdAt(name.value, i, VideoIdLength)) &&
      exists i :: BracketedIdAt(name.value, i, ChannelIdLength)
  {
    if IsNullOrWhiteSpace(name) then
      ""
    else
      var s := name.value;
      match FirstBracketedId(s, VideoIdLength, 0)
      case Some(i) => s[i..i + VideoIdLength]
      case None =>
        match FirstBracketedId(s, ChannelIdLength, 0)
        case Some(i) => s[i..i + ChannelIdLength]
        case None => ""
  }

  /** When a bracketed video id is present, GetYTID returns the leftmost one. */
  lemma GetYTIDTakesLeftmostVideoId(name: string, i: nat)
    requires BracketedIdAt(name, i, VideoIdLength)
    requires forall j :: 0 <= j < i ==> !BracketedIdAt(name, j, VideoIdLength)
    ensures GetYTID(Some(name)) == name[i..i + VideoIdLength]
  {
    assert !IsSpace(name[i - 1]);
    var first := FirstBracketedId(name, VideoIdLength, 0);
    assert first.Some? && first.value == i;
  }

  /** With no bracketed video id, GetYTID returns the leftmost bracketed channel id. */
  lemma GetYTIDFallsBackToChannelId(name: string, i: nat)
    requires forall j :: !BracketedIdAt(name, j, VideoIdLength)
    requires BracketedIdAt(name, i, ChannelIdLength)
    requires forall j :: 0 <= j < i ==> !BracketedIdAt(name, j, ChannelIdLength)
    ensures GetYTID(Some(name)) == name[i..i + ChannelIdLength]
  {
    assert !IsSpace(name[i - 1]);
    var first := FirstBracketedId(name, ChannelIdLength, 0);
    assert first.Some? && first.value == i;
  }

  /** Every id GetYTID can return is a single path segment: no '/' and not empty. */
  lemma GetYTIDIsPathSegment(name: NString)
    requires GetYTID(name) != ""
    ensures IsPathSegment(GetYTID(name))
  {
    var r := GetYTID(name);
    assert forall k :: 0 <= k < |r| ==> IsIdChar(r[k]);
  }

  // ---------------------------------------------------------------- CleanupSearchText

  /** `s[..k]` is a match of `\[[a-zA-Z0-9\-_]{11,24}\]`. */
  predicate IsIdTokenPrefix(s: string, k: int) {
    13 <= k <= 26 && k <= |s| && s[0] == '[' && s[k - 1] == ']' &&
    forall j :: 1 <= j < k - 1 ==> IsIdChar(s[j])
  }

  /** Length of the bracketed id token at the start of `s`, or 0 when the pattern does not match there. */
  function IdTokenLength(s: string): (k: nat)
    ensures k == 0 || IsIdTokenPrefix(s, k)
    ensures k == 0 ==> forall m :: !IsIdTokenPrefix(s, m)
  {
    if |s| > 0 && s[0] == '[' then
      var n := Run(s, 1, IsIdChar);
      RunSpan(s, 1, IsIdChar);
      assert forall m :: IsIdTokenPrefix(s, m) ==> m == n + 2 by {
        forall m | IsIdTokenPrefix(s, m) ensures m == n + 2 {
          RunExact(s, 1, m - 1, IsIdChar);
        }
      }
      if 11 <= n <= 24 && 1 + n < |s| && s[1 + n] == ']' then n + 2 else 0
    else 0
  }

  /** `Regex.Replace(s, @"\[[a-zA-Z0-9\-_]{11,24}\]", "")`: matches removed left to right. */
  function RemoveIdTokens(s: string): (r: string)
    ensures |r| <= |s|
    ensures forall i :: 0 <= i < |r| ==> r[i] in s
    decreases |s|
  {
    if s == [] then []
    else
      var k := IdTokenLength(s);
      if k > 0 then
        var r := RemoveIdTokens(s[k..]);
        assert forall i :: 0 <= i < |r| ==> r[i] in s by {
          forall i | 0 <= i < |r| ensures r[i] in s {
            var j :| 0 <= j < |s[k..]| && s[k..][j] == r[i];
            assert s[k + j] == r[i];
          }
        }
        r
      else
        var r := RemoveIdTokens(s[1..]);
        assert forall i :: 0 <= i < |r| ==> r[i] in s by {
          forall i | 0 <= i < |r| ensures r[i] in s {
            var j :| 0 <= j < |s[1..]| && s[1..][j] == r[i];
            assert s[1 + j] == r[i];
          }
        }
        [s[0]] + r
  }

  /** The two character classes whose runs CleanupSearchText replaces by one space. */
  datatype RunClass = Separators | WhiteSpace

  /** `[_\.]` or `\s`. */
  predicate InClass(c: char, cls: RunClass) {
    match cls
    case Separators => c == '_' || c == '.'
    case WhiteSpace => IsSpace(c)
  }

  /** `s` without its leading run of the class. */
  function SkipRun(s: string, cls: RunClass): (r: string)
    ensures |r| <= |s| && r == s[|s| - |r|..]
    ensures r == [] || !InClass(r[0], cls)
    decreases |s|
  {
    if |s| > 0 && InClass(s[0], cls) then SkipRun(s[1..], cls) else s
  }

  /** The characters of a suffix are characters of the whole. */
  lemma SuffixChars(s: string, rest: string)
    requires |rest| <= |s| && rest == s[|s| - |rest|..]
    ensures forall c :: c in rest ==> c in s
  {
    forall c | c in rest ensures c in s {
      var j :| 0 <= j < |rest| && rest[j] == c;
      assert s[|s| - |rest| + j] == c;
    }
  }

  /** One character in front of a collapsed text keeps it collapsed when it does not start a run with it. */
  lemma PrependKeepsCollapsed(c: char, r: string, rest: string, s: string, cls: RunClass)
    requires forall i :: 0 <= i < |r| ==> r[i] == ' ' || (r[i] in rest && !InClass(r[i], cls))
    requires forall i :: 0 <= i < |r| - 1 ==> !(InClass(r[i], cls) && InClass(r[i + 1], cls))
    requires forall x :: x in rest ==> x in s
    requires c == ' ' || (c in s && !InClass(c, cls))
    requires r == [] || !InClass(c, cls) || !InClass(r[0], cls)
    ensures var u := [c] + r; forall i :: 0 <= i < |u| ==> u[i] == ' ' || (u[i] in s && !InClass(u[i], cls))
    ensures var u := [c] + r; forall i :: 0 <= i < |u| - 1 ==> !(InClass(u[i], cls) && InClass(u[i + 1], cls))
  {
    var u := [c] + r;
    forall i | 0 <= i < |u| ensures u[i] == ' ' || (u[i] in s && !InClass(u[i], cls)) {
      if i > 0 {
        assert u[i] == r[i - 1];
      }
    }
    forall i | 0 <= i < |u| - 1 ensures !(InClass(u[i], cls) && InClass(u[i + 1], cls)) {
      assert u[i + 1] == r[i];
      if i > 0 {
        assert u[i] == r[i - 1];
      }
    }
  }

  /** The run replacement, one character or one whole run of the class at a time. */
  function Collapse(s: string, cls: RunClass): string
    decreases |s|
  {
    if s == [] then []
    else if InClass(s[0], cls) then [' '] + Collapse(SkipRun(s, cls), cls)
    else [s[0]] + Collapse(s[1..], cls)
  }

  /** The shape of a collapsed text: its characters come from the text, and no two of the class meet. */
  lemma {:induction false} CollapseShape(s: string, cls: RunClass)
    ensures var r := Collapse(s, cls);
      && |r| <= |s|
      && (forall i :: 0 <= i < |r| ==> r[i] == ' ' || (r[i] in s && !InClass(r[i], cls)))
      && (forall i :: 0 <= i < |r| - 1 ==> !(InClass(r[i], cls) && InClass(r[i + 1], cls)))
      && (|s| > 0 ==> |r| > 0 && r[0] == (if InClass(s[0], cls) then ' ' else s[0]))
    decreases |s|
  {
    if s == [] {
    } else if InClass(s[0], cls) {
      var rest := SkipRun(s, cls);
      CollapseShape(rest, cls);
      var r := Collapse(rest, cls);
      SuffixChars(s, rest);
      PrependKeepsCollapsed(' ', r, rest, s, cls);
    } else {
      CollapseShape(s[1..], cls);
      var r := Collapse(s[1..], cls);
      SuffixChars(s, s[1..]);
      PrependKeepsCollapsed(s[0], r, s[1..], s, cls);
    }
  }

  /** `Regex.Replace(s, "[_\.]+", " ")` or `Regex.Replace(s, @"\s+", " ")`: each maximal run becomes one space. */
  function CollapseRuns(s: string, cls: RunClass): (r: string)
    ensures |r| <= |s|
    ensures forall i :: 0 <= i < |r| ==> r[i] == ' ' || (r[i] in s && !InClass(r[i], cls))
    ensures forall i :: 0 <= i < |r| - 1 ==> !(InClass(r[i], cls) && InClass(r[i + 1], cls))
    ensures |s| > 0 ==> |r| > 0 && r[0] == (if InClass(s[0], cls) then ' ' else s[0])
  {
    CollapseShape(s, cls);
    Collapse(s, cls)
  }

  /** What CleanupSearchText promises of every result. */
  predicate IsCleanText(t: string) {
    && (forall i :: 0 <= i < |t| ==> t[i] != '_' && t[i] != '.')
    && (forall i :: 0 <= i < |t| && IsSpace(t[i]) ==> t[i] == ' ')
    && (forall i :: 0 <= i < |t| - 1 ==> !(IsSpace(t[i]) && IsSpace(t[i + 1])))
    && (t == [] || (!IsSpace(t[0]) && !IsSpace(t[|t| - 1])))
  }

  /** Trimming keeps the inner properties of a cleaned text and adds the outer one. */
  lemma TrimMakesClean(u: string)
    requires forall i :: 0 <= i < |u| ==> u[i] != '_' && u[i] != '.'
    requires forall i :: 0 <= i < |u| && IsSpace(u[i]) ==> u[i] == ' '
    requires forall i :: 0 <= i < |u| - 1 ==> !(IsSpace(u[i]) && IsSpace(u[i + 1]))
    ensures IsCleanText(Trim(u))
    ensures forall i :: 0 <= i < |Trim(u)| ==> Trim(u)[i] in u
  {
    TrimKeepsCharacters(u);
    TrimKeepsLoneSpaces(u);
  }

  /** Every character of a trimmed text is a character of the text. */
  lemma TrimKeepsCharacters(u: string)
    ensures forall i :: 0 <= i < |Trim(u)| ==> Trim(u)[i] in u
  {
    TrimWindow(u);
  }

  /** Trimming brings no two white-space characters together. */
  lemma TrimKeepsLoneSpaces(u: string)
    requires forall i :: 0 <= i < |u| - 1 ==> !(IsSpace(u[i]) && IsSpace(u[i + 1]))
    ensures forall i :: 0 <= i < |Trim(u)| - 1 ==> !(IsSpace(Trim(u)[i]) && IsSpace(Trim(u)[i + 1]))
  {
    var r := Trim(u);
    var off := |u| - |TrimStart(u)|;
    TrimWindow(u);
    forall i | 0 <= i < |r| - 1 ensures !(IsSpace(r[i]) && IsSpace(r[i + 1])) {
      assert r[i] == u[off + i] && r[i + 1] == u[off + i + 1];
    }
  }

  /** Characters of `c` are spaces or characters of `b`, whose characters are spaces or characters of `a`. */
  lemma CharsFromTransitive(a: string, b: string, c: string)
    requires forall i :: 0 <= i < |b| ==> b[i] == ' ' || b[i] in a
    requires forall i :: 0 <= i < |c| ==> c[i] == ' ' || c[i] in b
    ensures forall i :: 0 <= i < |c| ==> c[i] == ' ' || c[i] in a
  {
    forall i | 0 <= i < |c| && c[i] != ' ' ensures c[i] in a {
      var j :| 0 <= j < |b| && b[j] == c[i];
    }
  }

  /** The three replacements of CleanupSearchText, before trimming. */
  function CollapseAll(v: string): (u: string)
    ensures |u| <= |RemoveIdTokens(v)| <= |v|
    ensures forall i :: 0 <= i < |u| ==> u[i] != '_' && u[i] != '.'
    ensures forall i :: 0 <= i < |u| && IsSpace(u[i]) ==> u[i] == ' '
    ensures forall i :: 0 <= i < |u| - 1 ==> !(IsSpace(u[i]) && IsSpace(u[i + 1]))
    ensures forall i :: 0 <= i < |u| ==> u[i] == ' ' || u[i] in v
  {
    var withoutId := RemoveIdTokens(v);
    var withoutSeparators := CollapseRuns(withoutId, Separators);
    var collapsed := CollapseRuns(withoutSeparators, WhiteSpace);
    assert forall i :: 0 <= i < |withoutSeparators| ==> withoutSeparators[i] != '_' && withoutSeparators[i] != '.';
    forall i | 0 <= i < |collapsed| ensures collapsed[i] != '_' && collapsed[i] != '.' {
      if collapsed[i] != ' ' {
        var j :| 0 <= j < |withoutSeparators| && withoutSeparators[j] == collapsed[i];
      }
    }
    CharsFromTransitive(v, withoutId, withoutSeparators);
    CharsFromTransitive(v, withoutSeparators, collapsed);
    collapsed
  }

  /**
   * `CleanupSearchText`: bracketed id tokens removed, runs of '_' and '.' turned into one space,
   * runs of white space collapsed to one space, and the ends trimmed.
   */
  function CleanupSearchText(value: NString): (r: string)
    ensures IsNullOrWhiteSpace(value) ==> r == ""
    ensures IsCleanText(r)
    ensures value.Some? ==> |r| <= |value.value|
    ensures value.Some? ==> forall i :: 0 <= i < |r| ==> r[i] == ' ' || r[i] in value.value
  {
    if IsNullOrWhiteSpace(value) then ""
    else
      var collapsed := CollapseAll(value.value);
      TrimMakesClean(collapsed);
      CharsFromTransitive(value.value, collapsed, Trim(collapsed));
      Trim(collapsed)
  }

  /** `t` holds no bracketed id token anywhere. */
  predicate HasNoIdToken(t: string) {
    forall i :: 0 <= i < |t| ==> IdTokenLength(t[i..]) == 0
  }

  lemma {:induction false} RemoveIdTokensKeepsTokenFree(t: string)
    requires HasNoIdToken(t)
    ensures RemoveIdTokens(t) == t
    decreases |t|
  {
    if t != [] {
      assert t[0..] == t;
      assert forall i :: 0 <= i < |t[1..]| ==> t[1..][i..] == t[i + 1..];
      RemoveIdTokensKeepsTokenFree(t[1..]);
      assert t == [t[0]] + t[1..];
    }
  }

  lemma {:induction false} RemoveIdTokensShrinks(t: string, i: nat)
    requires i < |t| && IdTokenLength(t[i..]) > 0
    ensures |RemoveIdTokens(t)| < |t|
    decreases |t|
  {
    var k := IdTokenLength(t);
    if k == 0 {
      assert i != 0;
      assert t[1..][i - 1..] == t[i..];
      RemoveIdTokensShrinks(t[1..], i - 1);
    }
  }

  /** Every character of the class in `t` is a space standing alone. */
  predicate LoneSpaces(t: string, cls: RunClass) {
    && (forall i :: 0 <= i < |t| && InClass(t[i], cls) ==> t[i] == ' ')
    && (forall i :: 0 <= i < |t| - 1 ==> !(InClass(t[i], cls) && InClass(t[i + 1], cls)))
  }

  /** The tail of a text of lone spaces is one too, and it does not start with the class after a class character. */
  lemma LoneSpacesTail(t: string, cls: RunClass)
    requires t != [] && LoneSpaces(t, cls)
    ensures LoneSpaces(t[1..], cls)
    ensures InClass(t[0], cls) ==> t[0] == ' ' && (|t| == 1 || !InClass(t[1], cls))
  {
    var u := t[1..];
    forall i | 0 <= i < |u| && InClass(u[i], cls) ensures u[i] == ' ' {
      assert u[i] == t[i + 1];
    }
    forall i | 0 <= i < |u| - 1 ensures !(InClass(u[i], cls) && InClass(u[i + 1], cls)) {
      assert u[i] == t[i + 1] && u[i + 1] == t[i + 2];
    }
  }

  /** A run replacement changes nothing once every class character is a lone space. */
  lemma {:induction false} CollapseRunsKeepsLoneSpaces(t: string, cls: RunClass)
    requires LoneSpaces(t, cls)
    ensures CollapseRuns(t, cls) == t
    decreases |t|
  {
    if t != [] {
      LoneSpacesTail(t, cls);
      CollapseRunsKeepsLoneSpaces(t[1..], cls);
      CollapseRunsCons(t, cls);
      HeadTail(t);
    }
  }

  /** Collapsing at a character that is not the start of a longer run keeps it and collapses the rest. */
  lemma CollapseRunsCons(t: string, cls: RunClass)
    requires t != [] && (InClass(t[0], cls) ==> t[0] == ' ' && (|t| == 1 || !InClass(t[1], cls)))
    ensures CollapseRuns(t, cls) == [t[0]] + CollapseRuns(t[1..], cls)
  {
    if InClass(t[0], cls) {
      SkipOne(t, cls);
    }
  }

  lemma HeadTail(t: string)
    requires t != []
    ensures [t[0]] + t[1..] == t
  {
  }

  /** A class character followed by no other is skipped alone. */
  lemma SkipOne(t: string, cls: RunClass)
    requires t != [] && InClass(t[0], cls) && (|t| == 1 || !InClass(t[1], cls))
    ensures SkipRun(t, cls) == t[1..]
  {
    assert t[1..] == [] || t[1..][0] == t[1];
  }

  /** `t` has no character of the class. */
  predicate NoneInClass(t: string, cls: RunClass) {
    forall i :: 0 <= i < |t| ==> !InClass(t[i], cls)
  }

  /** `run` is a non-empty run of the class. */
  predicate IsRun(run: string, cls: RunClass) {
    run != [] && forall i :: 0 <= i < |run| ==> InClass(run[i], cls)
  }

  /** `a` is empty or ends outside the class, so no run crosses its end. */
  predicate EndsOutside(a: string, cls: RunClass) {
    a == [] || !InClass(a[|a| - 1], cls)
  }

  /** A run that ends inside a text is skipped without touching what follows the text. */
  lemma {:induction false} SkipRunAppend(a: string, x: string, cls: RunClass)
    requires a != [] && EndsOutside(a, cls)
    ensures SkipRun(a + x, cls) == SkipRun(a, cls) + x
    decreases |a|
  {
    assert (a + x)[0] == a[0];
    if InClass(a[0], cls) {
      assert |a| > 1;
      assert (a + x)[1..] == a[1..] + x;
      SkipRunAppend(a[1..], x, cls);
    }
  }

  /** Text that ends outside the class is collapsed on its own, whatever follows it. */
  lemma {:induction false} CollapseAppend(a: string, x: string, cls: RunClass)
    requires EndsOutside(a, cls)
    ensures Collapse(a + x, cls) == Collapse(a, cls) + Collapse(x, cls)
    decreases |a|
  {
    if a == [] {
      assert a + x == x;
    } else if InClass(a[0], cls) {
      var rest := SkipRun(a, cls);
      SkipRunAppend(a, x, cls);
      SkipRunShortens(a, cls);
      CollapseAppend(rest, x, cls);
      AppendAtClass(a, x, cls, rest);
    } else {
      EndsOutsideTail(a, cls);
      CollapseAppend(a[1..], x, cls);
      AppendAtOther(a, x, cls);
    }
  }

  /** Skipping a leading run shortens the text, and what is left still ends outside the class. */
  lemma SkipRunShortens(a: string, cls: RunClass)
    requires a != [] && InClass(a[0], cls) && EndsOutside(a, cls)
    ensures |SkipRun(a, cls)| < |a| && EndsOutside(SkipRun(a, cls), cls)
  {
    var rest := SkipRun(a, cls);
    if rest != [] {
      assert rest[|rest| - 1] == a[|a| - 1];
    }
  }

  lemma EndsOutsideTail(a: string, cls: RunClass)
    requires a != [] && EndsOutside(a, cls)
    ensures EndsOutside(a[1..], cls)
  {
    if a[1..] != [] {
      assert a[1..][|a[1..]| - 1] == a[|a| - 1];
    }
  }

  /** The step of the append proof at a run. */
  lemma AppendAtClass(a: string, x: string, cls: RunClass, rest: string)
    requires a != [] && InClass(a[0], cls) && rest == SkipRun(a, cls)
    requires SkipRun(a + x, cls) == rest + x
    requires Collapse(rest + x, cls) == Collapse(rest, cls) + Collapse(x, cls)
    ensures Collapse(a + x, cls) == Collapse(a, cls) + Collapse(x, cls)
  {
    HeadOfAppend(a, x);
    CollapseAtClass(a + x, cls);
    CollapseAtClass(a, cls);
    SpaceRegroup(Collapse(rest, cls), Collapse(x, cls));
  }

  lemma HeadOfAppend(a: string, x: string)
    requires a != []
    ensures (a + x)[0] == a[0]
  {
  }

  lemma SpaceRegroup(u: string, v: string)
    ensures [' '] + (u + v) == ([' '] + u) + v
  {
  }

  /** At a character of the class, the collapse writes one space and goes on past the run. */
  lemma CollapseAtClass(s: string, cls: RunClass)
    requires s != [] && InClass(s[0], cls)
    ensures Collapse(s, cls) == [' '] + Collapse(SkipRun(s, cls), cls)
  {
  }

  /** The step of the append proof at a character outside the class. */
  lemma AppendAtOther(a: string, x: string, cls: RunClass)
    requires a != [] && !InClass(a[0], cls)
    requires Collapse(a[1..] + x, cls) == Collapse(a[1..], cls) + Collapse(x, cls)
    ensures Collapse(a + x, cls) == Collapse(a, cls) + Collapse(x, cls)
  {
    assert (a + x)[0] == a[0];
    assert (a + x)[1..] == a[1..] + x;
  }

  /** A whole run in front of text that starts outside the class is skipped. */
  lemma {:induction false} SkipWholeRun(run: string, b: string, cls: RunClass)
    requires IsRun(run, cls)
    requires b == [] || !InClass(b[0], cls)
    ensures SkipRun(run + b, cls) == b
    decreases |run|
  {
    assert (run + b)[0] == run[0];
    assert (run + b)[1..] == run[1..] + b;
    if |run| > 1 {
      SkipWholeRun(run[1..], b, cls);
    } else {
      assert run[1..] + b == b;
    }
  }

  /**
   * A run of the class between two texts that end and start outside it becomes exactly one
   * space, and the texts on both sides are collapsed on their own.
   */
  lemma CollapseRunsAtRun(a: string, run: string, b: string, cls: RunClass)
    requires EndsOutside(a, cls) && IsRun(run, cls)
    requires b == [] || !InClass(b[0], cls)
    ensures CollapseRuns(a + run + b, cls) == CollapseRuns(a, cls) + " " + CollapseRuns(b, cls)
  {
    CollapseAtRun(a, run, b, cls);
  }

  lemma CollapseAtRun(a: string, run: string, b: string, cls: RunClass)
    requires EndsOutside(a, cls) && IsRun(run, cls)
    requires b == [] || !InClass(b[0], cls)
    ensures Collapse(a + run + b, cls) == Collapse(a, cls) + " " + Collapse(b, cls)
  {
    Regroup(a, run, b);
    CollapseAppend(a, run + b, cls);
    SkipWholeRun(run, b, cls);
    HeadOfAppend(run, b);
    CollapseAtClass(run + b, cls);
    Regroup(Collapse(a, cls), " ", Collapse(b, cls));
  }

  lemma Regroup(a: string, b: string, c: string)
    ensures a + b + c == a + (b + c)
  {
  }

  /** A text with no character of the class is left unchanged. */
  lemma CollapseRunsNoneInClass(t: string, cls: RunClass)
    requires NoneInClass(t, cls)
    ensures CollapseRuns(t, cls) == t
  {
    CollapseRunsKeepsLoneSpaces(t, cls);
  }

  /** A non-empty word with no white space, no '_' or '.', and no '['. */
  predicate PlainWord(w: string) {
    w != [] && forall i :: 0 <= i < |w| ==> w[i] != '[' && w[i] != '_' && w[i] != '.' && !IsSpace(w[i])
  }

  /** Runs of '_' and '.' between plain words: each becomes one space. */
  lemma SeparatorRunsBetweenWords(w1: string, r1: string, w2: string, r2: string, w3: string)
    requires PlainWord(w1) && PlainWord(w2) && PlainWord(w3)
    requires IsRun(r1, Separators) && IsRun(r2, Separators)
    ensures CollapseRuns(w1 + r1 + w2 + r2 + w3, Separators) == w1 + " " + w2 + " " + w3
  {
    PlainWordOutside(w1, Separators);
    PlainWordOutside(w2, Separators);
    PlainWordOutside(w3, Separators);
    assert w1 + r1 + w2 + r2 + w3 == w1 + r1 + (w2 + r2 + w3);
    HeadOfAppend(w2 + r2, w3);
    HeadOfAppend(w2, r2);
    CollapseRunsAtRun(w1, r1, w2 + r2 + w3, Separators);
    CollapseRunsAtRun(w2, r2, w3, Separators);
    CollapseRunsNoneInClass(w1, Separators);
    CollapseRunsNoneInClass(w2, Separators);
    CollapseRunsNoneInClass(w3, Separators);
    assert w1 + " " + (w2 + " " + w3) == w1 + " " + w2 + " " + w3;
  }

  lemma PlainWordOutside(w: string, cls: RunClass)
    requires PlainWord(w)
    ensures NoneInClass(w, cls) && EndsOutside(w, cls) && !InClass(w[0], cls)
  {
  }

  /** Three plain words joined by single spaces form a clean text without '['. */
  lemma SpacedWordsClean(w1: string, w2: string, w3: string)
    requires PlainWord(w1) && PlainWord(w2) && PlainWord(w3)
    ensures IsCleanText(w1 + " " + w2 + " " + w3) && '[' !in w1 + " " + w2 + " " + w3
  {
    var t := w1 + " " + w2 + " " + w3;
    var p, q := |w1|, |w1| + 1 + |w2|;
    assert forall i :: 0 <= i < p ==> t[i] == w1[i];
    assert t[p] == ' ' && t[q] == ' ';
    assert forall i :: p < i < q ==> t[i] == w2[i - p - 1];
    assert forall i :: q < i < |t| ==> t[i] == w3[i - q - 1];
  }

  /**
   * The cleanup of plain words separated by runs of '_' and '.': the words joined by single
   * spaces, e.g. "My.Show__S01" gives "My Show S01".
   */
  lemma CleanupSeparatedWords(w1: string, r1: string, w2: string, r2: string, w3: string)
    requires PlainWord(w1) && PlainWord(w2) && PlainWord(w3)
    requires IsRun(r1, Separators) && IsRun(r2, Separators)
    ensures CleanupSearchText(Some(w1 + r1 + w2 + r2 + w3)) == w1 + " " + w2 + " " + w3
  {
    var v := w1 + r1 + w2 + r2 + w3;
    var t := w1 + " " + w2 + " " + w3;
    NoBracketInJoin(w1, r1, w2, r2, w3);
    NoBracketNoToken(v);
    RemoveIdTokensKeepsTokenFree(v);
    SeparatorRunsBetweenWords(w1, r1, w2, r2, w3);
    SpacedWordsClean(w1, w2, w3);
    CleanTextIsFixed(t);
    CleanHasLoneSpaces(t);
    CollapseRunsKeepsLoneSpaces(t, WhiteSpace);
    HeadOfAppend(w1, r1 + w2 + r2 + w3);
    Regroup(w1, r1, w2 + r2 + w3);
    assert !IsBlank(v) by {
      assert v[0] == w1[0];
    }
    assert CollapseAll(v) == t;
  }

  /** No '[' in the pieces means no '[' in their concatenation. */
  lemma NoBracketInJoin(w1: string, r1: string, w2: string, r2: string, w3: string)
    requires PlainWord(w1) && PlainWord(w2) && PlainWord(w3)
    requires IsRun(r1, Separators) && IsRun(r2, Separators)
    ensures '[' !in w1 + r1 + w2 + r2 + w3
  {
    assert '[' !in w1 && '[' !in w2 && '[' !in w3;
    assert '[' !in r1 && '[' !in r2;
  }

  /** "My.Show__S01" is cleaned to "My Show S01". */
  lemma CleanupSeparatorsExample(v: string)
    requires v == "My.Show__S01"
    ensures CleanupSearchText(Some(v)) == "My Show S01"
  {
    var w1, w2, w3 := "My", "Show", "S01";
    assert PlainWord(w1) && PlainWord(w2) && PlainWord(w3);
    assert IsRun(".", Separators) && IsRun("__", Separators);
    assert v == w1 + "." + w2 + "__" + w3;
    assert w1 + " " + w2 + " " + w3 == "My Show S01";
    CleanupSeparatedWords(w1, ".", w2, "__", w3);
  }

  /** Cleaning a clean text with no bracketed id token returns it unchanged. */
  lemma CleanupKeepsCleanText(t: string)
    requires IsCleanText(t) && HasNoIdToken(t)
    ensures CleanupSearchText(Some(t)) == t
  {
    if !IsBlank(t) {
      RemoveIdTokensKeepsTokenFree(t);
      CleanupAfterRemoval(t);
    }
  }

  /**
   * Cleaning twice gives the same text as cleaning once exactly when the first result
   * holds no bracketed id token (the removal of one token can bring two halves of another together).
   */
  lemma CleanupIdempotentIff(value: NString)
    ensures var once := CleanupSearchText(value);
      CleanupSearchText(Some(once)) == once <==> HasNoIdToken(once)
  {
    var once := CleanupSearchText(value);
    if HasNoIdToken(once) {
      CleanupKeepsCleanText(once);
    } else {
      CleanupShrinksTokenText(once);
    }
  }

  /** A text holding a bracketed id token comes out of cleaning strictly shorter. */
  lemma CleanupShrinksTokenText(t: string)
    requires !HasNoIdToken(t)
    ensures |CleanupSearchText(Some(t))| < |t|
  {
    var i :| 0 <= i < |t| && IdTokenLength(t[i..]) > 0;
    assert t[i..][0] == '[';
    assert t[i] == '[';
    assert !IsBlank(t);
    RemoveIdTokensShrinks(t, i);
    assert |CollapseAll(t)| < |t|;
  }

  /** A text without '[' holds no bracketed id token. */
  lemma NoBracketNoToken(t: string)
    requires '[' !in t
    ensures HasNoIdToken(t)
  {
    forall i | 0 <= i < |t| ensures IdTokenLength(t[i..]) == 0 {
      assert t[i..][0] == t[i];
    }
  }

  /** A character other than '[' is kept by the token removal. */
  lemma RemoveIdTokensKeepsChar(c: char, rest: string)
    requires c != '['
    ensures RemoveIdTokens([c] + rest) == [c] + RemoveIdTokens(rest)
  {
    assert ([c] + rest)[1..] == rest;
  }

  /** A complete bracketed id token at the front is dropped. */
  lemma RemoveIdTokensDropsToken(id: string, rest: string)
    requires VideoIdLength <= |id| <= ChannelIdLength
    requires forall k :: 0 <= k < |id| ==> IsIdChar(id[k])
    ensures RemoveIdTokens("[" + id + "]" + rest) == RemoveIdTokens(rest)
  {
    var s := "[" + id + "]" + rest;
    assert forall j :: 1 <= j < 1 + |id| ==> s[j] == id[j - 1];
    assert s[1 + |id|] == ']';
    RunExact(s, 1, 1 + |id|, IsIdChar);
    assert IdTokenLength(s) == |id| + 2;
    assert s[|id| + 2..] == rest;
  }

  /** A '[' followed by fewer than eleven id characters and then a non-id character starts no token. */
  lemma RemoveIdTokensKeepsShortBracket(a: string, rest: string)
    requires |a| < VideoIdLength
    requires forall k :: 0 <= k < |a| ==> IsIdChar(a[k])
    requires rest != [] && !IsIdChar(rest[0])
    ensures RemoveIdTokens("[" + a + rest) == "[" + RemoveIdTokens(a + rest)
  {
    var tail := a + rest;
    BracketRegroup(a, rest);
    ShortBracketNoToken(a, rest);
    BracketTail(tail);
    RemoveIdTokensKeepsNonToken("[" + tail, tail);
  }

  lemma BracketRegroup(a: string, rest: string)
    ensures "[" + a + rest == "[" + (a + rest)
  {
  }

  lemma BracketTail(s: string)
    ensures ("[" + s)[0] == '[' && ("[" + s)[1..] == s
  {
  }

  /** The pattern does not match at a '[' followed by fewer than eleven id characters. */
  lemma ShortBracketNoToken(a: string, rest: string)
    requires |a| < VideoIdLength
    requires forall k :: 0 <= k < |a| ==> IsIdChar(a[k])
    requires rest != [] && !IsIdChar(rest[0])
    ensures IdTokenLength("[" + a + rest) == 0
  {
    var s := "[" + a + rest;
    assert forall j :: 1 <= j < 1 + |a| ==> s[j] == a[j - 1];
    assert s[1 + |a|] == rest[0];
    RunExact(s, 1, 1 + |a|, IsIdChar);
  }

  /** Where no token starts, the first character is kept. */
  lemma RemoveIdTokensKeepsNonToken(s: string, tail: string)
    requires |s| > 0 && IdTokenLength(s) == 0 && tail == s[1..]
    ensures RemoveIdTokens(s) == [s[0]] + RemoveIdTokens(tail)
  {
  }

  /** Once its id tokens are gone, a text that is already clean passes the other cleaning steps unchanged. */
  lemma CleanupAfterRemoval(v: string)
    requires !IsBlank(v)
    requires IsCleanText(RemoveIdTokens(v))
    ensures CleanupSearchText(Some(v)) == RemoveIdTokens(v)
  {
    var t := RemoveIdTokens(v);
    CleanTextIsFixed(t);
    assert CollapseAll(v) == t;
  }

  /** The run replacements and the trim leave a clean text unchanged. */
  lemma CleanTextIsFixed(t: string)
    requires IsCleanText(t)
    ensures CollapseRuns(CollapseRuns(t, Separators), WhiteSpace) == t
    ensures Trim(t) == t
  {
    CleanHasLoneSpaces(t);
    CollapseRunsKeepsLoneSpaces(t, Separators);
    CollapseRunsKeepsLoneSpaces(t, WhiteSpace);
    if t != [] {
      TrimKeeps(t);
    }
  }

  lemma CleanHasLoneSpaces(t: string)
    requires IsCleanText(t)
    ensures LoneSpaces(t, Separators) && LoneSpaces(t, WhiteSpace)
  {
  }


  /** A text without '[' passes the token removal unchanged in front of anything. */
  lemma {:induction false} RemoveIdTokensKeepsPlain(x: string, rest: string)
    requires '[' !in x
    ensures RemoveIdTokens(x + rest) == x + RemoveIdTokens(rest)
    decreases |x|
  {
    if x == [] {
      assert x + rest == rest;
    } else {
      ConsAppend(x, rest);
      ConsAppend(x, RemoveIdTokens(rest));
      NotInParts(x, '[');
      RemoveIdTokensKeepsChar(x[0], x[1..] + rest);
      RemoveIdTokensKeepsPlain(x[1..], rest);
    }
  }

  lemma ConsAppend(x: string, rest: string)
    requires x != []
    ensures x + rest == [x[0]] + (x[1..] + rest)
  {
  }

  lemma NotInParts(x: string, c: char)
    requires x != [] && c !in x
    ensures x[0] != c && c !in x[1..]
  {
    assert x == [x[0]] + x[1..];
  }

  /** Id characters are never '['. */
  lemma IdCharsHaveNoBracket(x: string)
    requires forall k :: 0 <= k < |x| ==> IsIdChar(x[k])
    ensures '[' !in x && '[' !in x + "]"
  {
    assert !IsIdChar('[');
    forall c | c in x ensures IsIdChar(c) {
      var k :| 0 <= k < |x| && x[k] == c;
    }
  }

  /** Regrouping of `[a[inner]b]` around its inner token. */
  lemma SplicedShape(a: string, inner: string, b: string)
    ensures "[" + a + "[" + inner + "]" + b + "]" == "[" + a + ("[" + inner + "]" + (b + "]"))
    ensures "[" + (a + (b + "]")) == "[" + (a + b) + "]" + ""
    ensures "[" + a + b + "]" == "[" + (a + b) + "]" + ""
  {
  }

  /** Two runs of id characters make one. */
  lemma IdCharsAppend(a: string, b: string)
    requires forall k :: 0 <= k < |a| ==> IsIdChar(a[k])
    requires forall k :: 0 <= k < |b| ==> IsIdChar(b[k])
    ensures forall k :: 0 <= k < |a + b| ==> IsIdChar((a + b)[k])
  {
  }

  /**
   * A token inside the brackets of a too-short id is removed, and the two halves around it
   * close up: `[a[inner]b]` becomes `[ab]`.
   */
  lemma SplicedTokenFirstPass(a: string, inner: string, b: string)
    requires |a| < VideoIdLength
    requires VideoIdLength <= |inner| <= ChannelIdLength
    requires forall k :: 0 <= k < |a| ==> IsIdChar(a[k])
    requires forall k :: 0 <= k < |inner| ==> IsIdChar(inner[k])
    requires forall k :: 0 <= k < |b| ==> IsIdChar(b[k])
    ensures RemoveIdTokens("[" + a + "[" + inner + "]" + b + "]") == "[" + (a + b) + "]" + ""
  {
    var closing := b + "]";
    var rest := "[" + inner + "]" + closing;
    calc {
      RemoveIdTokens("[" + a + "[" + inner + "]" + b + "]");
      { SplicedShape(a, inner, b); }
      RemoveIdTokens("[" + a + rest);
      { RemoveIdTokensKeepsShortBracket(a, rest); }
      "[" + RemoveIdTokens(a + rest);
      { IdCharsHaveNoBracket(a); RemoveIdTokensKeepsPlain(a, rest); }
      "[" + (a + RemoveIdTokens(rest));
      { RemoveIdTokensDropsToken(inner, closing); }
      "[" + (a + RemoveIdTokens(closing));
      { IdCharsHaveNoBracket(b); NoBracketNoToken(closing); RemoveIdTokensKeepsTokenFree(closing); }
      "[" + (a + closing);
      { SplicedShape(a, inner, b); }
      "[" + (a + b) + "]" + "";
    }
  }

  /** When the halves are long enough, `[ab]` is itself a token, removed by the next pass. */
  lemma SplicedTokenSecondPass(a: string, b: string)
    requires VideoIdLength <= |a| + |b| <= ChannelIdLength
    requires forall k :: 0 <= k < |a| ==> IsIdChar(a[k])
    requires forall k :: 0 <= k < |b| ==> IsIdChar(b[k])
    ensures RemoveIdTokens("[" + (a + b) + "]" + "") == ""
  {
    IdCharsAppend(a, b);
    RemoveIdTokensDropsToken(a + b, "");
  }

  /** The concrete example spelt as its pieces. */
  lemma ExampleSpelling(a: string, inner: string, b: string)
    requires a == "ab" && inner == "cdefghijklm" && b == "nopqrstuv"
    ensures "[" + a + "[" + inner + "]" + b + "]" == "[ab[cdefghijklm]nopqrstuv]"
    ensures "[" + (a + b) + "]" + "" == "[abnopqrstuv]"
  {
  }

  /** `SplicedTokenFirstPass` for the pieces of the concrete example. */
  lemma ExampleFirstPass(s: string, a: string, inner: string, b: string)
    requires a == "ab" && inner == "cdefghijklm" && b == "nopqrstuv"
    requires s == "[" + a + "[" + inner + "]" + b + "]"
    ensures RemoveIdTokens(s) == "[" + (a + b) + "]" + ""
  {
    SplicedTokenFirstPass(a, inner, b);
  }

  /** `SplicedTokenSecondPass` for the pieces of the concrete example. */
  lemma ExampleSecondPass(t: string, a: string, b: string)
    requires a == "ab" && b == "nopqrstuv"
    requires t == "[" + (a + b) + "]" + ""
    ensures RemoveIdTokens(t) == ""
  {
    SplicedTokenSecondPass(a, b);
  }

  /**
   * Cleaning is not idempotent: on "[ab[cdefghijklm]nopqrstuv]" the first cleaning leaves
   * "[abnopqrstuv]", which the second cleaning removes entirely.
   */
  lemma CleanupNotIdempotentExample(s: string)
    requires s == "[ab[cdefghijklm]nopqrstuv]"
    ensures CleanupSearchText(Some(s)) == "[abnopqrstuv]"
    ensures CleanupSearchText(Some(CleanupSearchText(Some(s)))) == ""
  {
    ExampleRemovals(s);
    var t := RemoveIdTokens(s);
    ExampleResultIsClean(t);
    assert !IsSpace(s[0]);
    CleanupAfterRemoval(s);
    CleanupAfterRemoval(t);
  }

  /** Both passes of the token removal on the concrete example. */
  lemma ExampleRemovals(s: string)
    requires s == "[ab[cdefghijklm]nopqrstuv]"
    ensures RemoveIdTokens(s) == "[abnopqrstuv]"
    ensures RemoveIdTokens(RemoveIdTokens(s)) == ""
  {
    var a, inner, b := "ab", "cdefghijklm", "nopqrstuv";
    ExampleSpelling(a, inner, b);
    ExampleFirstPass(s, a, inner, b);
    ExampleSecondPass(RemoveIdTokens(s), a, b);
  }

  /** The text left by the first cleaning of the example is clean and not blank. */
  lemma ExampleResultIsClean(t: string)
    requires t == "[abnopqrstuv]"
    ensures IsCleanText(t) && !IsBlank(t)
  {
    assert !IsSpace(t[0]);
    assert forall i :: 0 <= i < |t| ==> !IsSpace(t[i]) && t[i] != '_' && t[i] != '.';
  }

  // ---------------------------------------------------------------- BuildSearchQuery

  /** `Path.GetFileNameWithoutExtension` for '/'-separated paths. */
  function FileNameWithoutExtension(path: string): (r: string)
    ensures '/' !in r
  {
    var name := path[LastIndexOf(path, '/') + 1..];
    var dot := LastIndexOf(name, '.');
    if dot < 0 then name else name[..dot]
  }

  /** The file name of `dir/stem.ext` without its extension is `stem`. */
  lemma FileNameWithoutExtensionOf(dir: string, stem: string, ext: string)
    requires '/' !in stem && '/' !in ext && '.' !in ext
    ensures FileNameWithoutExtension(dir + "/" + stem + "." + ext) == stem
  {
    var name := stem + "." + ext;
    PathRegroup(dir, stem, ext);
    NoSlashInName(stem, ext);
    FileNameAfterLastSlash(dir, name);
    StemBeforeLastDot(stem, ext);
    FileNameWithoutExtensionIs(dir + "/" + name, name, |stem|);
  }

  lemma PathRegroup(dir: string, stem: string, ext: string)
    ensures dir + "/" + stem + "." + ext == dir + "/" + (stem + "." + ext)
  {
  }

  /** The file name without extension is the file name up to its last '.'. */
  lemma FileNameWithoutExtensionIs(path: string, name: string, dot: nat)
    requires LastIndexOf(path, '/') + 1 <= |path| && path[LastIndexOf(path, '/') + 1..] == name
    requires LastIndexOf(name, '.') == dot
    ensures FileNameWithoutExtension(path) == name[..dot]
  {
  }

  /** `stem.ext` has no '/' when neither part has one. */
  lemma NoSlashInName(stem: string, ext: string)
    requires '/' !in stem && '/' !in ext
    ensures '/' !in stem + "." + ext
  {
    var name := stem + "." + ext;
    forall i | 0 <= i < |name| ensures name[i] != '/' {
      if i < |stem| { assert name[i] == stem[i]; }
      else if i > |stem| { assert name[i] == ext[i - |stem| - 1]; }
    }
  }

  /** The file name of `dir/name` is `name` when `name` has no '/'. */
  lemma FileNameAfterLastSlash(dir: string, name: string)
    requires '/' !in name
    ensures var path := dir + "/" + name; path[LastIndexOf(path, '/') + 1..] == name
  {
    var path := dir + "/" + name;
    assert path[|dir|] == '/';
    assert path[|dir| + 1..] == name;
    LastIndexOfIs(path, '/', |dir|);
  }

  /** The last '.' of `stem.ext` is the one after `stem` when `ext` has none. */
  lemma StemBeforeLastDot(stem: string, ext: string)
    requires '.' !in ext
    ensures var name := stem + "." + ext; LastIndexOf(name, '.') == |stem| && name[..|stem|] == stem
  {
    var name := stem + "." + ext;
    assert name[|stem|] == '.';
    assert name[|stem| + 1..] == ext;
    LastIndexOfIs(name, '.', |stem|);
    assert name[..|stem|] == stem;
  }

  /** `BuildSearchQuery`: a non-blank title wins; otherwise the file name of the path is cleaned. */
  function BuildSearchQuery(title: NString, path: NString): (r: string)
    ensures IsCleanText(r)
    ensures !IsNullOrWhiteSpace(title) ==> r == CleanupSearchText(title)
    ensures IsNullOrWhiteSpace(title) && IsNullOrWhiteSpace(path) ==> r == ""
  {
    if !IsNullOrWhiteSpace(title) then CleanupSearchText(title)
    else if IsNullOrWhiteSpace(path) then ""
    else CleanupSearchText(Some(FileNameWithoutExtension(path.value)))
  }

  /** Without a title, the query depends only on the file's name: not its folder, not its extension. */
  lemma BuildSearchQueryUsesFileStem(title: NString, dir: string, stem: string, ext: string)
    requires IsNullOrWhiteSpace(title)
    requires '/' !in stem && '/' !in ext && '.' !in ext
    ensures BuildSearchQuery(title, Some(dir + "/" + stem + "." + ext)) == CleanupSearchText(Some(stem))
  {
    var path := dir + "/" + stem + "." + ext;
    assert path[|dir|] == '/';
    assert !IsBlank(path);
    FileNameWithoutExtensionOf(dir, stem, ext);
  }

  // ---------------------------------------------------------------- ToSafeCacheKey

  /** `Path.GetInvalidFileNameChars()` on Unix. */
  const UnixInvalidFileNameChars: set<char> := {'\0', '/'}

  /** Each character of `s` that is in `invalid` replaced by '_' (the loop of ToSafeCacheKey). */
  function ReplaceInvalid(s: string, invalid: set<char>): (r: string)
    ensures |r| == |s|
    ensures forall i :: 0 <= i < |s| ==> r[i] == if s[i] in invalid then '_' else s[i]
  {
    seq(|s|, i requires 0 <= i < |s| => if s[i] in invalid then '_' else s[i])
  }

  /** The cache key of `value`: invalid characters replaced, cleaned, spaces turned into '_'; "unknown" when blank. */
  function SafeCacheKey(value: NString, invalid: set<char>): (r: string)
    ensures r != ""
    ensures forall i :: 0 <= i < |r| ==> !IsSpace(r[i]) && r[i] != '.'
    ensures '_' !in invalid && (forall c :: c in "unknown" ==> c !in invalid) ==>
      forall i :: 0 <= i < |r| ==> r[i] !in invalid
    ensures IsNullOrWhiteSpace(value) ==> r == "unknown"
    ensures !IsNullOrWhiteSpace(value) ==>
      var c := CleanupSearchText(Some(ReplaceInvalid(value.value, invalid)));
      && (IsBlank(c) ==> r == "unknown")
      && (!IsBlank(c) ==> |r| == |c| && forall i :: 0 <= i < |c| ==> r[i] == (if c[i] == ' ' then '_' else c[i]))
  {
    if IsNullOrWhiteSpace(value) then "unknown"
    else
      var replaced := ReplaceInvalid(value.value, invalid);
      var spaced := CleanupSearchText(Some(replaced));
      UnderscoredStaysValid(replaced, invalid);
      UnderscoredBlankIff(spaced);
      KeyOfCleanedValid(spaced, invalid);
      KeyOfCleaned(spaced)
  }

  /** The last step of `ToSafeCacheKey`: spaces become '_', and an empty result becomes "unknown". */
  function KeyOfCleaned(spaced: string): (r: string)
    requires IsCleanText(spaced)
    ensures r != ""
    ensures forall i :: 0 <= i < |r| ==> !IsSpace(r[i]) && r[i] != '.'
    ensures spaced == [] ==> r == "unknown"
    ensures spaced != [] ==> |r| == |spaced| && forall i :: 0 <= i < |spaced| ==> r[i] == (if spaced[i] == ' ' then '_' else spaced[i])
  {
    var cleaned := ReplaceChar(spaced, ' ', '_');
    UnderscoredCleanText(spaced);
    UnderscoredBlankIff(spaced);
    if IsBlank(cleaned) then "unknown" else cleaned
  }

  /** Every character of `s` is a space or a valid file-name character. */
  predicate SpacesOrValid(s: string, invalid: set<char>) {
    forall i :: 0 <= i < |s| ==> s[i] == ' ' || s[i] !in invalid
  }

  /** With '_' and the letters of "unknown" valid, a key made from spaces and valid characters is valid. */
  lemma KeyOfCleanedValid(spaced: string, invalid: set<char>)
    requires IsCleanText(spaced)
    ensures '_' !in invalid && (forall c :: c in "unknown" ==> c !in invalid) && SpacesOrValid(spaced, invalid) ==>
      forall i :: 0 <= i < |KeyOfCleaned(spaced)| ==> KeyOfCleaned(spaced)[i] !in invalid
  {
    var r := KeyOfCleaned(spaced);
    if '_' !in invalid && (forall c :: c in "unknown" ==> c !in invalid) && SpacesOrValid(spaced, invalid) {
      forall i | 0 <= i < |r| ensures r[i] !in invalid {
        if spaced == [] {
          assert r[i] in "unknown";
        }
      }
    }
  }

  /** A cleaned text, with or without its spaces turned into '_', is blank exactly when it is empty. */
  lemma UnderscoredBlankIff(spaced: string)
    requires IsCleanText(spaced)
    ensures IsBlank(ReplaceChar(spaced, ' ', '_')) <==> spaced == []
    ensures IsBlank(spaced) <==> spaced == []
  {
    if spaced != [] {
      assert !IsSpace(spaced[0]);
      assert ReplaceChar(spaced, ' ', '_')[0] != ' ';
    }
  }

  /** A clean value with no id token, no space and no invalid character is its own cache key. */
  lemma SafeCacheKeyOfPlainValue(v: string, invalid: set<char>)
    requires v != [] && IsCleanText(v) && HasNoIdToken(v)
    requires forall i :: 0 <= i < |v| ==> v[i] != ' ' && v[i] !in invalid
    ensures SafeCacheKey(Some(v), invalid) == v
  {
    assert !IsSpace(v[0]);
    ReplaceInvalidKeepsValid(v, invalid);
    CleanupKeepsCleanText(v);
    ReplaceCharAbsent(v, ' ', '_');
  }

  lemma ReplaceInvalidKeepsValid(v: string, invalid: set<char>)
    requires forall i :: 0 <= i < |v| ==> v[i] !in invalid
    ensures ReplaceInvalid(v, invalid) == v
  {
  }

  lemma ReplaceCharAbsent(v: string, a: char, b: char)
    requires forall i :: 0 <= i < |v| ==> v[i] != a
    ensures ReplaceChar(v, a, b) == v
  {
  }

  /** Turning the spaces of a cleaned text into '_' leaves no white space and no '.'. */
  lemma UnderscoredCleanText(spaced: string)
    requires IsCleanText(spaced)
    ensures var cleaned := ReplaceChar(spaced, ' ', '_');
      forall i :: 0 <= i < |cleaned| ==> !IsSpace(cleaned[i]) && cleaned[i] != '.'
  {
    var cleaned := ReplaceChar(spaced, ' ', '_');
    forall i | 0 <= i < |cleaned| ensures !IsSpace(cleaned[i]) && cleaned[i] != '.' {
      assert IsSpace(spaced[i]) ==> spaced[i] == ' ';
    }
  }

  /** When '_' is valid, a replacement built from valid characters stays valid through cleaning and underscoring. */
  lemma UnderscoredStaysValid(replaced: string, invalid: set<char>)
    requires forall i :: 0 <= i < |replaced| ==> replaced[i] == '_' || replaced[i] !in invalid
    ensures '_' !in invalid ==> SpacesOrValid(CleanupSearchText(Some(replaced)), invalid)
  {
    var spaced := CleanupSearchText(Some(replaced));
    forall i | 0 <= i < |spaced| && '_' !in invalid && spaced[i] != ' ' ensures spaced[i] !in invalid {
      var j :| 0 <= j < |replaced| && replaced[j] == spaced[i];
    }
  }

  /**
   * Wherever '/' is an invalid file-name character (as on Unix) and '_' and the letters of
   * "unknown" are valid, a cache key is one non-empty path segment, and never "." or "..".
   */
  lemma SafeCacheKeyIsPathSegment(value: NString, invalid: set<char>)
    requires '/' in invalid && '_' !in invalid
    requires forall c :: c in "unknown" ==> c !in invalid
    ensures var key := SafeCacheKey(value, invalid);
      IsPathSegment(key) && key != "." && key != ".."
  {
    var key := SafeCacheKey(value, invalid);
    forall c | c in key ensures c != '/' {
      var k :| 0 <= k < |key| && key[k] == c;
    }
    assert key[0] != '.';
  }

  /** `Path.GetInvalidFileNameChars()` on Unix satisfies the conditions of SafeCacheKeyIsPathSegment. */
  lemma UnixInvalidCharsAllowKeys()
    ensures '/' in UnixInvalidFileNameChars && '_' !in UnixInvalidFileNameChars
    ensures forall c :: c in "unknown" ==> c !in UnixInvalidFileNameChars
  {
    forall c | c in "unknown" ensures c !in UnixInvalidFileNameChars {
      var k :| 0 <= k < 7 && "unknown"[k] == c;
    }
  }

  /** `ToSafeCacheKey`, with its character loop over a string builder. */
  method ToSafeCacheKey(value: NString, invalid: set<char>) returns (key: string)
    ensures key == SafeCacheKey(value, invalid)
  {
    if IsNullOrWhiteSpace(value) {
      return "unknown";
    }
    var v := value.value;
    var builder: string := "";
    var i := 0;
    while i < |v|
      invariant 0 <= i <= |v|
      invariant |builder| == i
      invariant forall k :: 0 <= k < i ==> builder[k] == if v[k] in invalid then '_' else v[k]
    {
      builder := builder + [if v[i] in invalid then '_' else v[i]];
      i := i + 1;
    }
    assert builder == ReplaceInvalid(v, invalid);
    var cleaned := ReplaceChar(CleanupSearchText(Some(builder)), ' ', '_');
    key := if IsBlank(cleaned) then "unknown" else cleaned;
  }

  // ---------------------------------------------------------------- GetVideoInfoPath

  /** `Path.Combine(a, b)` on Unix; the three-argument form is the same fold from the left. */
  function PathCombine(a: string, b: string): string
  {
    if b == "" then a
    else if a == "" || b[0] == '/' then b
    else if a[|a| - 1] == '/' then a + b
    else a + "/" + b
  }

  /** A non-empty path component without '/'. */
  predicate IsPathSegment(s: string) {
    s != "" && '/' !in s
  }

  /** `Path.Combine(cachePath, "youtubemetadata")`, the root of every cached record. */
  function CacheRoot(cachePath: string): (r: string)
    ensures r != "" && r[|r| - 1] != '/'
  {
    PathCombine(cachePath, "youtubemetadata")
  }

  const InfoFileName := "ytvideo.info.json"

  /** `GetVideoInfoPath`: `{cache}/youtubemetadata/{id}/ytvideo.info.json`. */
  function GetVideoInfoPath(cachePath: string, youtubeId: string): (r: string)
    ensures |r| > |InfoFileName| && r[|r| - |InfoFileName| - 1..] == "/" + InfoFileName
  {
    var dataPath := PathCombine(CacheRoot(cachePath), youtubeId);
    assert dataPath != "";
    assert InfoFileName[0] == 'y';
    CombineEndsWith(dataPath, InfoFileName);
    PathCombine(dataPath, InfoFileName)
  }

  /** Combining a non-empty directory with a relative name ends in '/' and the name. */
  lemma CombineEndsWith(a: string, b: string)
    requires a != "" && b != "" && b[0] != '/'
    ensures var r := PathCombine(a, b); |r| > |b| && r[|r| - |b| - 1..] == "/" + b
  {
    if a[|a| - 1] == '/' {
      assert (a + b)[|a| - 1..] == [a[|a| - 1]] + b;
    } else {
      assert (a + "/" + b)[|a|..] == "/" + b;
    }
  }

  /** For an id that is one path segment, the record lies in that id's own folder under the cache root. */
  lemma VideoInfoPathLayout(cachePath: string, youtubeId: string)
    requires IsPathSegment(youtubeId)
    ensures GetVideoInfoPath(cachePath, youtubeId) == CacheRoot(cachePath) + "/" + youtubeId + "/" + InfoFileName
  {
    var root := CacheRoot(cachePath);
    assert youtubeId[0] in youtubeId;
    assert PathCombine(root, youtubeId) == root + "/" + youtubeId;
    var dataPath := root + "/" + youtubeId;
    assert youtubeId[|youtubeId| - 1] in youtubeId;
    assert dataPath[|dataPath| - 1] == youtubeId[|youtubeId| - 1];
    assert InfoFileName[0] == 'y';
    assert PathCombine(dataPath, InfoFileName) == dataPath + "/" + InfoFileName;
  }

  /** Two different ids never share a record file. */
  lemma VideoInfoPathInjective(cachePath: string, id1: string, id2: string)
    requires IsPathSegment(id1) && IsPathSegment(id2)
    requires GetVideoInfoPath(cachePath, id1) == GetVideoInfoPath(cachePath, id2)
    ensures id1 == id2
  {
    VideoInfoPathLayout(cachePath, id1);
    VideoInfoPathLayout(cachePath, id2);
    var root := CacheRoot(cachePath) + "/";
    var p1 := root + id1 + "/" + InfoFileName;
    var p2 := root + id2 + "/" + InfoFileName;
    assert |p1| == |p2|;
    assert id1 == p1[|root|..|root| + |id1|];
    assert id2 == p2[|root|..|root| + |id2|];
  }
}
