/**
 * `Utils.ExtractEpisodeNumber` and its two case-insensitive, unanchored patterns:
 * `s([0-9]{1,2})e([0-9]{1,3})` and `(?:episode|folge|ep\.?)\s*([0-9]{1,4})`.
 * Each pattern is specified by the shape of a match at a position, the backtracking
 * engine's choice among the shapes there, and the leftmost position with a match.
 */
module Episodes {
  import opened Wrappers
  import opened Text

  function Min(a: int, b: int): int {
    if a <= b then a else b
  }

  /** `k` ASCII digits start at `from`. */
  predicate DigitsAt(t: string, from: int, k: int) {
    0 <= from && 0 <= k && from + k <= |t| && forall j :: from <= j < from + k ==> IsDigit(t[j])
  }

  /** `w` white-space characters start at `from`. */
  predicate SpacesAt(t: string, from: int, w: int) {
    0 <= from && 0 <= w && from + w <= |t| && forall j :: from <= j < from + w ==> IsSpace(t[j])
  }

  /** The character at `i` is the letter `c` in either case (`RegexOptions.IgnoreCase` on ASCII). */
  predicate LetterAt(t: string, i: int, c: char) {
    0 <= i < |t| && LowerChar(t[i]) == c
  }

  // ---------------------------------------------------------------- s([0-9]{1,2})e([0-9]{1,3})

  /** A match of the season/episode pattern at `i` with `n` season digits and `m` episode digits. */
  predicate SeasonEpisodeShape(t: string, i: int, n: int, m: int) {
    1 <= n <= 2 && 1 <= m <= 3 &&
    LetterAt(t, i, 's') && DigitsAt(t, i + 1, n) && LetterAt(t, i + 1 + n, 'e') && DigitsAt(t, i + 2 + n, m)
  }

  /**
   * The engine's match at `i`: the greedy season group gives back digits only to let 'e' follow,
   * and the greedy episode group takes up to three digits.
   */
  function SeasonEpisodeAt(t: string, i: nat): (r: Option<(nat, nat)>)
    requires i <= |t|
    ensures r.Some? ==> SeasonEpisodeShape(t, i, r.value.0, r.value.1)
    ensures r.Some? ==> forall n, m :: SeasonEpisodeShape(t, i, n, m) ==> n == r.value.0 && m <= r.value.1
    ensures r.None? ==> forall n, m :: !SeasonEpisodeShape(t, i, n, m)
  {
    if LetterAt(t, i, 's') then
      var n := Run(t, i + 1, IsDigit);
      RunSpan(t, i + 1, IsDigit);
      SeasonDigitsAreRun(t, i);
      if 1 <= n <= 2 && LetterAt(t, i + 1 + n, 'e') then
        var m := Min(Run(t, i + 2 + n, IsDigit), 3);
        RunSpan(t, i + 2 + n, IsDigit);
        EpisodeDigitsWithinRun(t, i, n);
        if m >= 1 then Some((n, m)) else None
      else None
    else None
  }

  /** The season group of any match at `i` is the whole run of digits after the 's'. */
  lemma SeasonDigitsAreRun(t: string, i: nat)
    requires i <= |t|
    ensures forall n, m :: SeasonEpisodeShape(t, i, n, m) ==> n == Run(t, i + 1, IsDigit)
  {
    forall n, m | SeasonEpisodeShape(t, i, n, m) ensures n == Run(t, i + 1, IsDigit) {
      RunExact(t, i + 1, i + 1 + n, IsDigit);
    }
  }

  /** The episode group of any match at `i` with `n` season digits is at most the greedy three-digit take. */
  lemma EpisodeDigitsWithinRun(t: string, i: nat, n: nat)
    requires i + 2 + n <= |t|
    ensures forall m :: SeasonEpisodeShape(t, i, n, m) ==> m <= Min(Run(t, i + 2 + n, IsDigit), 3)
  {
    forall m | SeasonEpisodeShape(t, i, n, m) ensures m <= Min(Run(t, i + 2 + n, IsDigit), 3) {
      RunCovers(t, i + 2 + n, m, IsDigit);
    }
  }

  // ---------------------------------------------------------------- (?:episode|folge|ep\.?)\s*([0-9]{1,4})

  /** The alternatives of the episode pattern in the order the engine tries them (`ep\.?` takes the dot first). */
  const Alternatives: seq<string> := ["episode", "folge", "ep.", "ep"]

  /** Alternative `a` matches, ignoring case, at `i`. */
  predicate PrefixAt(t: string, i: int, a: int) {
    0 <= a < |Alternatives| && 0 <= i && i + |Alternatives[a]| <= |t| &&
    forall k :: 0 <= k < |Alternatives[a]| ==> LowerChar(t[i + k]) == Alternatives[a][k]
  }

  /** A match of the episode pattern at `i`: alternative `a`, `w` white-space characters, `k` digits. */
  predicate EpisodeShape(t: string, i: int, a: int, w: int, k: int) {
    1 <= k <= 4 && PrefixAt(t, i, a) &&
    SpacesAt(t, i + |Alternatives[a]|, w) && DigitsAt(t, i + |Alternatives[a]| + w, k)
  }

  /**
   * The engine's completion of alternative `a` at `i`: all the white space (`\s*` never gives
   * back to a digit) and up to four digits, or none when there is no digit after the white space.
   */
  function Completion(t: string, i: nat, a: nat): (r: Option<(nat, nat)>)
    requires i <= |t| && a < |Alternatives|
    ensures r.Some? ==> EpisodeShape(t, i, a, r.value.0, r.value.1)
  {
    if !PrefixAt(t, i, a) then None
    else
      var p := i + |Alternatives[a]|;
      var w := Run(t, p, IsSpace);
      var k := Min(Run(t, p + w, IsDigit), 4);
      RunSpan(t, p, IsSpace);
      RunSpan(t, p + w, IsDigit);
      if k >= 1 then Some((w, k)) else None
  }

  /** The engine's match at `i`, trying alternatives from `a` on: the first alternative that can be completed. */
  function EpisodeFrom(t: string, i: nat, a: nat): (r: Option<(nat, nat, nat)>)
    requires i <= |t| && a <= |Alternatives|
    ensures r.Some? ==> a <= r.value.0 && EpisodeShape(t, i, r.value.0, r.value.1, r.value.2)
    decreases |Alternatives| - a
  {
    if a == |Alternatives| then None
    else match Completion(t, i, a)
      case Some((w, k)) => Some((a, w, k))
      case None => EpisodeFrom(t, i, a + 1)
  }

  /** At an alternative that matches, every completion uses all the white space and at most as many digits as the engine takes. */
  lemma CompletionsAfterPrefix(t: string, i: nat, a: nat)
    requires PrefixAt(t, i, a)
    ensures var p := i + |Alternatives[a]|;
      var w := Run(t, p, IsSpace);
      forall w', k' :: EpisodeShape(t, i, a, w', k') ==> w' == w && k' <= Min(Run(t, p + w, IsDigit), 4)
  {
    var p := i + |Alternatives[a]|;
    var w := Run(t, p, IsSpace);
    RunSpan(t, p, IsSpace);
    forall w', k' | EpisodeShape(t, i, a, w', k') ensures w' == w && k' <= Min(Run(t, p + w, IsDigit), 4) {
      assert !IsSpace(t[p + w']);
      RunExact(t, p, p + w', IsSpace);
      RunCovers(t, p + w, k', IsDigit);
    }
  }

  /** The completion of alternative `a`, when there is one, is the greediest; otherwise `a` has no match at `i`. */
  lemma CompletionIsGreediest(t: string, i: nat, a: nat)
    requires i <= |t| && a < |Alternatives|
    ensures var c := Completion(t, i, a);
      && (c.Some? ==> forall w, k :: EpisodeShape(t, i, a, w, k) ==> w == c.value.0 && k <= c.value.1)
      && (c.None? ==> forall w, k :: !EpisodeShape(t, i, a, w, k))
  {
    if PrefixAt(t, i, a) {
      CompletionsAfterPrefix(t, i, a);
    }
  }

  /** EpisodeFrom makes the engine's choice: no earlier alternative matches, and its own completion is the greediest. */
  lemma {:induction false} EpisodeFromIsEngineChoice(t: string, i: nat, a: nat)
    requires i <= |t| && a <= |Alternatives|
    ensures var r := EpisodeFrom(t, i, a);
      && (r.Some? ==> forall a', w, k :: a <= a' < r.value.0 ==> !EpisodeShape(t, i, a', w, k))
      && (r.Some? ==> forall w, k :: EpisodeShape(t, i, r.value.0, w, k) ==> w == r.value.1 && k <= r.value.2)
      && (r.None? ==> forall a', w, k :: a <= a' ==> !EpisodeShape(t, i, a', w, k))
    decreases |Alternatives| - a
  {
    if a < |Alternatives| {
      EpisodeFromIsEngineChoice(t, i, a + 1);
      CompletionIsGreediest(t, i, a);
      var c := Completion(t, i, a);
      if c.Some? {
        assert EpisodeFrom(t, i, a) == Some((a, c.value.0, c.value.1));
      } else {
        assert EpisodeFrom(t, i, a) == EpisodeFrom(t, i, a + 1);
      }
    }
  }

  function EpisodeAt(t: string, i: nat): Option<(nat, nat, nat)>
    requires i <= |t|
  {
    EpisodeFrom(t, i, 0)
  }

  // ---------------------------------------------------------------- leftmost matches

  /** The first position in `from..last` where `matches` holds: how `Regex.Match` scans. */
  function FirstMatch(last: nat, from: nat, matches: nat -> bool): (r: Option<nat>)
    requires from <= last + 1
    ensures r.Some? ==> from <= r.value <= last && matches(r.value)
    ensures r.Some? ==> forall j :: from <= j < r.value ==> !matches(j)
    ensures r.None? ==> forall j :: from <= j <= last ==> !matches(j)
    decreases last + 1 - from
  {
    if from == last + 1 then None
    else if matches(from) then Some(from)
    else FirstMatch(last, from + 1, matches)
  }

  /** A position where `matches` holds, with none before it, is the one FirstMatch finds. */
  lemma FirstMatchIs(last: nat, matches: nat -> bool, i: nat)
    requires i <= last && matches(i)
    requires forall j :: 0 <= j < i ==> !matches(j)
    ensures FirstMatch(last, 0, matches) == Some(i)
  {
  }

  /** With no position where `matches` holds, FirstMatch finds none. */
  lemma FirstMatchNone(last: nat, matches: nat -> bool)
    requires forall j :: 0 <= j <= last ==> !matches(j)
    ensures FirstMatch(last, 0, matches) == None
  {
  }

  /** The season/episode pattern matches at `j`. */
  predicate SeasonEpisodeMatchesAt(t: string, j: nat) {
    j <= |t| && SeasonEpisodeAt(t, j).Some?
  }

  /** The episode pattern matches at `j`. */
  predicate EpisodeMatchesAt(t: string, j: nat) {
    j <= |t| && EpisodeAt(t, j).Some?
  }

  /** `Regex.Match` for the season/episode pattern. */
  function FirstSeasonEpisode(t: string): Option<nat> {
    FirstMatch(|t|, 0, (j: nat) => SeasonEpisodeMatchesAt(t, j))
  }

  /** `Regex.Match` for the episode pattern. */
  function FirstEpisode(t: string): Option<nat> {
    FirstMatch(|t|, 0, (j: nat) => EpisodeMatchesAt(t, j))
  }

  /** The value of the episode group of the season/episode match at `i` (`int.TryParse` always succeeds on it). */
  function SeasonEpisodeValue(t: string, i: nat): (v: nat)
    requires i <= |t| && SeasonEpisodeAt(t, i).Some?
    ensures v <= 999
  {
    var (n, m) := SeasonEpisodeAt(t, i).value;
    var digits := t[i + 2 + n..i + 2 + n + m];
    assert AllDigits(digits);
    assert Pow10(|digits|) <= 1000 by { assert |digits| <= 3; assert Pow10(3) == 1000; }
    DigitsValue(digits)
  }

  /** The number group of an episode match at `i` with alternative `a`, `w` spaces and `k` digits. */
  function EpisodeGroup(t: string, i: nat, a: nat, w: nat, k: nat): (g: string)
    requires EpisodeShape(t, i, a, w, k)
    ensures 1 <= |g| <= 4 && AllDigits(g)
  {
    var start := i + |Alternatives[a]| + w;
    t[start..start + k]
  }

  /** The value of the number group of the episode match at `i`. */
  function EpisodeValue(t: string, i: nat): (v: nat)
    requires i <= |t| && EpisodeAt(t, i).Some?
    ensures v <= 9999
  {
    var (a, w, k) := EpisodeAt(t, i).value;
    var digits := EpisodeGroup(t, i, a, w, k);
    assert Pow10(|digits|) <= 10000 by { assert |digits| <= 4; assert Pow10(4) == 10000; }
    DigitsValue(digits)
  }

  /**
   * The episode number of a title: none for a blank title; the leftmost season/episode match
   * wherever it is; otherwise the leftmost episode match; otherwise none.
   */
  function EpisodeNumber(title: NString): (r: Option<nat>)
    ensures IsNullOrWhiteSpace(title) ==> r.None?
    ensures r.Some? ==> r.value <= 9999
  {
    if IsNullOrWhiteSpace(title) then None
    else
      var t := title.value;
      match FirstSeasonEpisode(t)
      case Some(i) => Some(SeasonEpisodeValue(t, i))
      case None =>
        match FirstEpisode(t)
        case Some(i) => Some(EpisodeValue(t, i))
        case None => None
  }

  /** The scan `Regex.Match` makes: try each start position from the left until one matches. */
  method Scan(last: nat, matches: nat -> bool) returns (r: Option<nat>)
    ensures r == FirstMatch(last, 0, matches)
  {
    var i := 0;
    while i <= last
      invariant 0 <= i <= last + 1
      invariant forall j :: 0 <= j < i ==> !matches(j)
    {
      if matches(i) {
        FirstMatchIs(last, matches, i);
        return Some(i);
      }
      i := i + 1;
    }
    return None;
  }

  /** The scan of `Regex.Match` for the season/episode pattern. */
  method MatchSeasonEpisode(t: string) returns (r: Option<nat>)
    ensures r == FirstSeasonEpisode(t)
  {
    r := Scan(|t|, (j: nat) => SeasonEpisodeMatchesAt(t, j));
  }

  /** The scan of `Regex.Match` for the episode pattern. */
  method MatchEpisode(t: string) returns (r: Option<nat>)
    ensures r == FirstEpisode(t)
  {
    r := Scan(|t|, (j: nat) => EpisodeMatchesAt(t, j));
  }

  /** `ExtractEpisodeNumber`: the season/episode pattern first, then the episode pattern. */
  method ExtractEpisodeNumber(title: NString) returns (r: Option<nat>)
    ensures r == EpisodeNumber(title)
  {
    if IsNullOrWhiteSpace(title) {
      return None;
    }
    var t := title.value;
    var seasonEpisode := MatchSeasonEpisode(t);
    if seasonEpisode.Some? {
      return Some(SeasonEpisodeValue(t, seasonEpisode.value));
    }
    var episode := MatchEpisode(t);
    if episode.Some? {
      return Some(EpisodeValue(t, episode.value));
    }
    return None;
  }

  // ---------------------------------------------------------------- properties

  /** Two texts that agree on `p` from `from` on have runs of the same length there. */
  lemma {:induction false} RunAgrees(s: string, u: string, from: nat, p: char -> bool)
    requires from <= |s| == |u|
    requires forall j :: from <= j < |s| ==> p(s[j]) == p(u[j])
    ensures Run(s, from, p) == Run(u, from, p)
    decreases |s| - from
  {
    if from < |s| {
      RunAgrees(s, u, from + 1, p);
    }
  }

  /** Lower-casing a title changes no digit, no white space and no letter as the patterns see it. */
  lemma LowerKeepsRuns(t: string)
    ensures forall from :: 0 <= from <= |t| ==> Run(Lower(t), from, IsDigit) == Run(t, from, IsDigit)
    ensures forall from :: 0 <= from <= |t| ==> Run(Lower(t), from, IsSpace) == Run(t, from, IsSpace)
    ensures forall j :: 0 <= j < |t| ==> LowerChar(Lower(t)[j]) == LowerChar(t[j])
  {
    var u := Lower(t);
    forall j | 0 <= j < |t| ensures IsDigit(u[j]) == IsDigit(t[j]) && IsSpace(u[j]) == IsSpace(t[j]) {
    }
    forall from | 0 <= from <= |t| ensures Run(u, from, IsDigit) == Run(t, from, IsDigit) {
      RunAgrees(u, t, from, IsDigit);
    }
    forall from | 0 <= from <= |t| ensures Run(u, from, IsSpace) == Run(t, from, IsSpace) {
      RunAgrees(u, t, from, IsSpace);
    }
  }

  /** FirstMatch depends only on where `matches` holds. */
  lemma {:induction false} FirstMatchAgrees(last: nat, from: nat, m1: nat -> bool, m2: nat -> bool)
    requires from <= last + 1
    requires forall j :: from <= j <= last ==> m1(j) == m2(j)
    ensures FirstMatch(last, from, m1) == FirstMatch(last, from, m2)
    decreases last + 1 - from
  {
    if from <= last {
      FirstMatchAgrees(last, from + 1, m1, m2);
    }
  }

  /** The season/episode pattern ignores case. */
  lemma SeasonEpisodeAtIgnoresCase(t: string, i: nat)
    requires i <= |t|
    ensures SeasonEpisodeAt(Lower(t), i) == SeasonEpisodeAt(t, i)
  {
    LowerKeepsRuns(t);
  }

  /** Lower-casing a title keeps the runs of digits and of white space from any position. */
  lemma LowerRunsAt(t: string, from: nat)
    requires from <= |t|
    ensures Run(Lower(t), from, IsDigit) == Run(t, from, IsDigit)
    ensures Run(Lower(t), from, IsSpace) == Run(t, from, IsSpace)
  {
    var u := Lower(t);
    forall j | from <= j < |t| ensures IsDigit(u[j]) == IsDigit(t[j]) && IsSpace(u[j]) == IsSpace(t[j]) {
    }
    RunAgrees(u, t, from, IsDigit);
    RunAgrees(u, t, from, IsSpace);
  }

  /** Lower-casing a title keeps every alternative's prefix match. */
  lemma LowerPrefixAt(t: string, i: nat, a: nat)
    ensures PrefixAt(Lower(t), i, a) == PrefixAt(t, i, a)
  {
    if a < |Alternatives| && i + |Alternatives[a]| <= |t| {
      var u := Lower(t);
      forall k | 0 <= k < |Alternatives[a]|
        ensures (LowerChar(u[i + k]) == Alternatives[a][k]) == (LowerChar(t[i + k]) == Alternatives[a][k])
      {
      }
    }
  }

  /** The completion of an alternative ignores case. */
  lemma CompletionIgnoresCase(t: string, i: nat, a: nat)
    requires i <= |t| && a < |Alternatives|
    ensures Completion(Lower(t), i, a) == Completion(t, i, a)
  {
    LowerPrefixAt(t, i, a);
    if PrefixAt(t, i, a) {
      var p := i + |Alternatives[a]|;
      LowerRunsAt(t, p);
      LowerRunsAt(t, p + Run(t, p, IsSpace));
    }
  }

  /** The episode pattern ignores case. */
  lemma {:induction false} EpisodeFromIgnoresCase(t: string, i: nat, a: nat)
    requires i <= |t| && a <= |Alternatives|
    ensures EpisodeFrom(Lower(t), i, a) == EpisodeFrom(t, i, a)
    decreases |Alternatives| - a
  {
    if a < |Alternatives| {
      EpisodeFromIgnoresCase(t, i, a + 1);
      CompletionIgnoresCase(t, i, a);
    }
  }

  /** The digits of a match are the same in the lower-cased title. */
  lemma LowerKeepsDigits(t: string, from: nat, k: nat)
    requires DigitsAt(t, from, k)
    ensures Lower(t)[from..from + k] == t[from..from + k]
  {
  }

  /** Lower-casing a title moves no match of the season/episode pattern. */
  lemma FirstSeasonEpisodeIgnoresCase(t: string)
    ensures FirstSeasonEpisode(Lower(t)) == FirstSeasonEpisode(t)
  {
    var u := Lower(t);
    forall j: nat | j <= |t| ensures SeasonEpisodeMatchesAt(u, j) == SeasonEpisodeMatchesAt(t, j) {
      SeasonEpisodeAtIgnoresCase(t, j);
    }
    FirstMatchAgrees(|t|, 0, (j: nat) => SeasonEpisodeMatchesAt(u, j), (j: nat) => SeasonEpisodeMatchesAt(t, j));
  }

  /** Lower-casing a title moves no match of the episode pattern. */
  lemma FirstEpisodeIgnoresCase(t: string)
    ensures FirstEpisode(Lower(t)) == FirstEpisode(t)
  {
    var u := Lower(t);
    forall j: nat | j <= |t| ensures EpisodeMatchesAt(u, j) == EpisodeMatchesAt(t, j) {
      EpisodeFromIgnoresCase(t, j, 0);
    }
    FirstMatchAgrees(|t|, 0, (j: nat) => EpisodeMatchesAt(u, j), (j: nat) => EpisodeMatchesAt(t, j));
  }

  /** The episode group of a season/episode match reads the same in the lower-cased title. */
  lemma SeasonEpisodeValueIgnoresCase(t: string, i: nat)
    requires i <= |t| && SeasonEpisodeAt(t, i).Some?
    ensures SeasonEpisodeAt(Lower(t), i).Some? && SeasonEpisodeValue(Lower(t), i) == SeasonEpisodeValue(t, i)
  {
    SeasonEpisodeAtIgnoresCase(t, i);
    var (n, m) := SeasonEpisodeAt(t, i).value;
    LowerKeepsDigits(t, i + 2 + n, m);
  }

  /** The number group of an episode match reads the same in the lower-cased title. */
  lemma EpisodeValueIgnoresCase(t: string, i: nat)
    requires i <= |t| && EpisodeAt(t, i).Some?
    ensures EpisodeAt(Lower(t), i).Some? && EpisodeValue(Lower(t), i) == EpisodeValue(t, i)
  {
    EpisodeFromIgnoresCase(t, i, 0);
    var (a, w, k) := EpisodeAt(t, i).value;
    EpisodeGroupIgnoresCase(t, i, a, w, k);
  }

  /** The number group of an episode match is the same text in the lower-cased title. */
  lemma EpisodeGroupIgnoresCase(t: string, i: nat, a: nat, w: nat, k: nat)
    requires EpisodeShape(t, i, a, w, k) && EpisodeShape(Lower(t), i, a, w, k)
    ensures EpisodeGroup(Lower(t), i, a, w, k) == EpisodeGroup(t, i, a, w, k)
  {
    LowerKeepsDigits(t, i + |Alternatives[a]| + w, k);
  }

  /** `RegexOptions.IgnoreCase`: a title and its lower-case form have the same episode number. */
  lemma EpisodeNumberIgnoresCase(t: string)
    ensures EpisodeNumber(Some(Lower(t))) == EpisodeNumber(Some(t))
  {
    assert IsBlank(Lower(t)) == IsBlank(t);
    FirstSeasonEpisodeIgnoresCase(t);
    FirstEpisodeIgnoresCase(t);
    var se := FirstSeasonEpisode(t);
    var ep := FirstEpisode(t);
    if se.Some? {
      SeasonEpisodeValueIgnoresCase(t, se.value);
    } else if ep.Some? {
      EpisodeValueIgnoresCase(t, ep.value);
    }
  }

  /** A match of the season/episode pattern anywhere in a title decides its number, before any episode match. */
  lemma SeasonEpisodeTakesPriority(t: string, i: nat, n: nat, m: nat)
    requires !IsBlank(t) && SeasonEpisodeShape(t, i, n, m)
    ensures FirstSeasonEpisode(t).Some? && FirstSeasonEpisode(t).value <= i
    ensures EpisodeNumber(Some(t)) == Some(SeasonEpisodeValue(t, FirstSeasonEpisode(t).value))
  {
    var f := (j: nat) => SeasonEpisodeMatchesAt(t, j);
    assert FirstSeasonEpisode(t) == FirstMatch(|t|, 0, f);
    assert f(i);
  }

  /** A match of the episode pattern anywhere in a title gives a leftmost match no later than it. */
  lemma EpisodeShapeFound(t: string, i: nat, a: nat, w: nat, k: nat)
    requires EpisodeShape(t, i, a, w, k)
    ensures FirstEpisode(t).Some? && FirstEpisode(t).value <= i
  {
    EpisodeFromIsEngineChoice(t, i, 0);
    var g := (j: nat) => EpisodeMatchesAt(t, j);
    assert FirstEpisode(t) == FirstMatch(|t|, 0, g);
    assert g(i);
  }

  /** A title has an episode number exactly when it is not blank and one of the two patterns matches somewhere in it. */
  lemma EpisodeNumberFoundIff(t: string)
    ensures EpisodeNumber(Some(t)).Some? <==>
      !IsBlank(t) &&
      ((exists i, n, m :: SeasonEpisodeShape(t, i, n, m)) || (exists i, a, w, k :: EpisodeShape(t, i, a, w, k)))
  {
    if EpisodeNumber(Some(t)).Some? {
      match FirstSeasonEpisode(t)
      case Some(i) =>
        var (n, m) := SeasonEpisodeAt(t, i).value;
        assert SeasonEpisodeShape(t, i, n, m);
      case None =>
        var i := FirstEpisode(t).value;
        EpisodeFromIsEngineChoice(t, i, 0);
        var (a, w, k) := EpisodeAt(t, i).value;
        assert EpisodeShape(t, i, a, w, k);
    }
    if !IsBlank(t) && exists i, n, m :: SeasonEpisodeShape(t, i, n, m) {
      var i, n, m :| SeasonEpisodeShape(t, i, n, m);
      SeasonEpisodeTakesPriority(t, i, n, m);
    }
    if !IsBlank(t) && exists i, a, w, k :: EpisodeShape(t, i, a, w, k) {
      var i, a, w, k :| EpisodeShape(t, i, a, w, k);
      EpisodeShapeFound(t, i, a, w, k);
    }
  }

  // ---------------------------------------------------------------- examples

  /** No season/episode match starts where there is no 's' followed by a digit. */
  lemma NoSeasonEpisodeAt(t: string, i: nat)
    requires i <= |t|
    requires i + 1 >= |t| || LowerChar(t[i]) != 's' || !IsDigit(t[i + 1])
    ensures SeasonEpisodeAt(t, i) == None
  {
  }

  /** No episode match starts where there is no "ep" and no "f". */
  lemma NoEpisodeAt(t: string, i: nat)
    requires i <= |t|
    requires i + 1 >= |t| || (LowerChar(t[i]) != 'f' && (LowerChar(t[i]) != 'e' || LowerChar(t[i + 1]) != 'p'))
    ensures EpisodeAt(t, i) == None
  {
    assert Alternatives[0][..2] == Alternatives[2][..2] == Alternatives[3][..2] == "ep";
    assert Alternatives[1][0] == 'f';
    forall a | 0 <= a < |Alternatives| && i + |Alternatives[a]| <= |t|
      ensures LowerChar(t[i]) != Alternatives[a][0] || LowerChar(t[i + 1]) != Alternatives[a][1]
    {
      assert |Alternatives[a]| >= 2;
      if a != 1 {
        assert Alternatives[a][..2][0] == Alternatives[a][0];
        assert Alternatives[a][..2][1] == Alternatives[a][1];
      }
    }
  }

  /** "Show S02E07 Extra": season 2, episode 7. */
  lemma SeasonEpisodeExample(t: string)
    requires t == "Show S02E07 Extra"
    ensures EpisodeNumber(Some(t)) == Some(7)
  {
    forall j: nat | j < 5 ensures !SeasonEpisodeMatchesAt(t, j) {
      NoSeasonEpisodeAt(t, j);
    }
    RunExact(t, 6, 8, IsDigit);
    RunExact(t, 9, 11, IsDigit);
    assert SeasonEpisodeAt(t, 5) == Some((2, 2));
    FirstMatchIs(|t|, (j: nat) => SeasonEpisodeMatchesAt(t, j), 5);
    assert FirstSeasonEpisode(t) == Some(5);
    assert t[9..11] == "07";
    assert DigitsValue("07") == 7 by {
      assert "07"[..1] == "0";
      assert DigitsValue("0") == 0 by { assert "0"[..0] == ""; }
    }
    assert SeasonEpisodeValue(t, 5) == 7;
  }

  /** "Episode 12 - Something" has no 's' followed by a digit. */
  lemma EpisodeExampleHasNoSeason(t: string)
    requires t == "Episode 12 - Something"
    ensures FirstSeasonEpisode(t) == None
  {
    forall j: nat | j <= |t| ensures !SeasonEpisodeMatchesAt(t, j) {
      NoSeasonEpisodeAt(t, j);
    }
    FirstMatchNone(|t|, (j: nat) => SeasonEpisodeMatchesAt(t, j));
  }

  /** "Episode 12 - Something" matches the first alternative at its start, with one space and two digits. */
  lemma EpisodeExampleMatch(t: string)
    requires t == "Episode 12 - Something"
    ensures FirstEpisode(t) == Some(0) && EpisodeAt(t, 0) == Some((0, 1, 2))
  {
    assert PrefixAt(t, 0, 0);
    RunExact(t, 7, 8, IsSpace);
    RunExact(t, 8, 10, IsDigit);
    FirstMatchIs(|t|, (j: nat) => EpisodeMatchesAt(t, j), 0);
  }

  /** "12" reads as twelve. */
  lemma TwelveExample(d: string)
    requires d == "12"
    ensures DigitsValue(d) == 12
  {
    assert d[..1] == "1";
    assert DigitsValue("1") == 1 by { assert "1"[..0] == ""; }
  }

  /** "Episode 12 - Something": no season/episode match, so the episode pattern gives 12. */
  lemma EpisodeExample(t: string)
    requires t == "Episode 12 - Something"
    ensures EpisodeNumber(Some(t)) == Some(12)
  {
    EpisodeExampleHasNoSeason(t);
    EpisodeExampleMatch(t);
    TwelveExample(t[8..10]);
  }

  /** "ep 3 S01E02" has its first season/episode match at 5, reading episode 2. */
  lemma PriorityExampleSeason(t: string)
    requires t == "ep 3 S01E02"
    ensures FirstSeasonEpisode(t) == Some(5) && SeasonEpisodeValue(t, 5) == 2
  {
    forall j: nat | j < 5 ensures !SeasonEpisodeMatchesAt(t, j) {
      NoSeasonEpisodeAt(t, j);
    }
    RunExact(t, 6, 8, IsDigit);
    RunExact(t, 9, 11, IsDigit);
    assert SeasonEpisodeAt(t, 5) == Some((2, 2));
    FirstMatchIs(|t|, (j: nat) => SeasonEpisodeMatchesAt(t, j), 5);
    assert t[9..11] == "02";
    assert DigitsValue("02") == 2 by {
      assert "02"[..1] == "0";
      assert DigitsValue("0") == 0 by { assert "0"[..0] == ""; }
    }
  }

  /** "ep 3 S01E02" also matches the episode pattern at its start. */
  lemma PriorityExampleEpisode(t: string)
    requires t == "ep 3 S01E02"
    ensures FirstEpisode(t) == Some(0)
  {
    assert Alternatives[3] == "ep";
    assert EpisodeShape(t, 0, 3, 1, 1);
    EpisodeShapeFound(t, 0, 3, 1, 1);
  }

  /** "ep 3 S01E02": the season/episode match later in the title wins over the episode match at the start. */
  lemma PriorityExample(t: string)
    requires t == "ep 3 S01E02"
    ensures FirstEpisode(t) == Some(0)
    ensures EpisodeNumber(Some(t)) == Some(2)
  {
    PriorityExampleSeason(t);
    PriorityExampleEpisode(t);
  }

  /** "Random Title": neither pattern matches anywhere. */
  lemma NoNumberExample(t: string)
    requires t == "Random Title"
    ensures EpisodeNumber(Some(t)) == None
  {
    forall j: nat | j <= |t| ensures !SeasonEpisodeMatchesAt(t, j) {
      NoSeasonEpisodeAt(t, j);
    }
    FirstMatchNone(|t|, (j: nat) => SeasonEpisodeMatchesAt(t, j));
    forall j: nat | j <= |t| ensures !EpisodeMatchesAt(t, j) {
      NoEpisodeAt(t, j);
    }
    FirstMatchNone(|t|, (j: nat) => EpisodeMatchesAt(t, j));
  }

  /** "deep 3" matches the "ep" alternative inside "deep", with one space and one digit. */
  lemma DeepMatch(t: string)
    requires t == "deep 3"
    ensures FirstEpisode(t) == Some(2) && EpisodeAt(t, 2) == Some((3, 1, 1))
  {
    NoEpisodeAt(t, 0);
    NoEpisodeAt(t, 1);
    DeepCompletion(t);
    assert EpisodeAt(t, 2) == Some((3, 1, 1));
    FirstMatchIs(|t|, (j: nat) => EpisodeMatchesAt(t, j), 2);
  }

  /** At the "ep" inside "deep 3" only the last alternative fits, with one space and one digit. */
  lemma DeepCompletion(t: string)
    requires t == "deep 3"
    ensures Completion(t, 2, 0) == Completion(t, 2, 1) == Completion(t, 2, 2) == None
    ensures Completion(t, 2, 3) == Some((1, 1))
  {
    assert Alternatives[3] == "ep";
    assert PrefixAt(t, 2, 3);
    assert !PrefixAt(t, 2, 2) by { assert Alternatives[2][2] == '.' != t[4]; }
    RunExact(t, 4, 5, IsSpace);
    RunExact(t, 5, 6, IsDigit);
  }

  /** "deep 3": the episode pattern is not anchored, so a word ending in "ep" followed by a number gives that number. */
  lemma DeepExample(t: string)
    requires t == "deep 3"
    ensures EpisodeNumber(Some(t)) == Some(3)
  {
    forall j: nat | j <= |t| ensures !SeasonEpisodeMatchesAt(t, j) {
      NoSeasonEpisodeAt(t, j);
    }
    FirstMatchNone(|t|, (j: nat) => SeasonEpisodeMatchesAt(t, j));
    DeepMatch(t);
    assert t[5..6] == "3";
    assert DigitsValue("3") == 3 by { assert "3"[..0] == ""; }
  }
}
