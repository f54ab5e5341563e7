/**
 * The search side of `Utils`: reading yt-dlp's printed search output into `YTSearchResult`s
 * (`SearchVideos`, `SearchChannels`), the tiered title score (`ScoreSearchResult`, `Tokenize`)
 * and the choice of one result (`SearchBestVideoMatch`). The yt-dlp run itself is a parameter.
 */
module Search {
  import opened Wrappers
  import opened Text
  import opened Identifiers

  /** `YTSearchResult`: every property is a nullable string. */
  datatype SearchResult = SearchResult(
    id: NString,
    title: NString,
    channelId: NString,
    uploader: NString,
    thumbnailUrl: NString)

  /** The unit separator `\x1f` between the printed fields. */
  const UnitSeparator: char := '\U{1F}'

  // ---------------------------------------------------------------- reading the printed lines

  /** A line printed by `SearchVideos`: five or more fields, the first five used in order. */
  function ParseVideoLine(line: string): (r: Option<SearchResult>)
    ensures r.Some? <==> |Split(line, UnitSeparator)| >= 5
    ensures r.Some? ==> r.value.title.Some? && UnitSeparator !in r.value.title.value
  {
    var parts := Split(line, UnitSeparator);
    if |parts| >= 5 then Some(SearchResult(Some(parts[0]), Some(parts[1]), Some(parts[2]), Some(parts[3]), Some(parts[4])))
    else None
  }

  /** A result as a channel search sees it: the id is the channel id and the title is the uploader. */
  predicate IsChannelResult(r: SearchResult) {
    r.id == r.channelId && r.title == r.uploader
  }

  /** A line printed by `SearchChannels`: three or more fields, id, name and thumbnail. */
  function ParseChannelLine(line: string): (r: Option<SearchResult>)
    ensures r.Some? <==> |Split(line, UnitSeparator)| >= 3
    ensures r.Some? ==> IsChannelResult(r.value) && r.value.id.Some? && r.value.title.Some?
  {
    var parts := Split(line, UnitSeparator);
    if |parts| >= 3 then Some(SearchResult(Some(parts[0]), Some(parts[1]), Some(parts[0]), Some(parts[1]), Some(parts[2])))
    else None
  }

  /** A field yt-dlp can print into one line: present and free of the separator. */
  predicate Printable(f: NString) {
    f.Some? && UnitSeparator !in f.value
  }

  predicate PrintableResult(r: SearchResult) {
    Printable(r.id) && Printable(r.title) && Printable(r.channelId) && Printable(r.uploader) && Printable(r.thumbnailUrl)
  }

  /** The print template `%(id)s\x1f%(title)s\x1f%(channel_id)s\x1f%(uploader)s\x1f%(thumbnail)s`. */
  function FormatVideoLine(r: SearchResult): string
    requires PrintableResult(r)
  {
    Join([r.id.value, r.title.value, r.channelId.value, r.uploader.value, r.thumbnailUrl.value], UnitSeparator)
  }

  /** The print template `%(id)s\x1f%(title)s\x1f%(thumbnail)s`. */
  function FormatChannelLine(id: string, title: string, thumbnail: string): string {
    Join([id, title, thumbnail], UnitSeparator)
  }

  /** Reading a printed video line gives back the result it was printed from. */
  lemma ParseFormatVideoLine(r: SearchResult)
    requires PrintableResult(r)
    ensures ParseVideoLine(FormatVideoLine(r)) == Some(r)
  {
    var fields := [r.id.value, r.title.value, r.channelId.value, r.uploader.value, r.thumbnailUrl.value];
    SplitJoin(fields, UnitSeparator);
  }

  /** Fields printed after the fifth are ignored. */
  lemma ParseVideoLineIgnoresExtraFields(r: SearchResult, extra: string)
    requires PrintableResult(r)
    ensures ParseVideoLine(FormatVideoLine(r) + [UnitSeparator] + extra) == Some(r)
  {
    var fields := [r.id.value, r.title.value, r.channelId.value, r.uploader.value, r.thumbnailUrl.value];
    var line := FormatVideoLine(r) + [UnitSeparator] + extra;
    var extraParts := Split(extra, UnitSeparator);
    JoinSplit(extra, UnitSeparator);
    JoinAppend(fields, extraParts, UnitSeparator);
    SplitJoin(fields + extraParts, UnitSeparator);
    assert Split(line, UnitSeparator) == fields + extraParts;
  }

  /** Joining two non-empty lists of pieces is joining each and putting a separator between. */
  lemma {:induction false} JoinAppend(a: seq<string>, b: seq<string>, sep: char)
    requires |a| >= 1 && |b| >= 1
    ensures Join(a + b, sep) == Join(a, sep) + [sep] + Join(b, sep)
    decreases |a|
  {
    if |a| > 1 {
      JoinAppend(a[1..], b, sep);
      assert (a + b)[1..] == a[1..] + b;
    } else {
      assert (a + b)[1..] == b;
    }
  }

  /** A channel line printed from an id, a name and a thumbnail reads back as that channel. */
  lemma ParseFormatChannelLine(id: string, title: string, thumbnail: string)
    requires UnitSeparator !in id && UnitSeparator !in title && UnitSeparator !in thumbnail
    ensures ParseChannelLine(FormatChannelLine(id, title, thumbnail)) ==
      Some(SearchResult(Some(id), Some(title), Some(id), Some(title), Some(thumbnail)))
  {
    SplitJoin([id, title, thumbnail], UnitSeparator);
  }

  /** The results of `SearchVideos` for the captured output lines: the lines that parse, in order. */
  function VideoResults(lines: seq<string>): (results: seq<SearchResult>)
    ensures |results| <= |lines|
    ensures forall r :: r in results ==> exists line :: line in lines && ParseVideoLine(line) == Some(r)
  {
    if lines == [] then []
    else
      var front := VideoResults(lines[..|lines| - 1]);
      var last := lines[|lines| - 1];
      assert forall line :: line in lines[..|lines| - 1] ==> line in lines;
      match ParseVideoLine(last)
      case Some(r) => front + [r]
      case None => front
  }

  /** The results of `SearchChannels` for the captured output lines. */
  function ChannelResults(lines: seq<string>): (results: seq<SearchResult>)
    ensures |results| <= |lines|
    ensures forall r :: r in results ==> IsChannelResult(r)
    ensures forall r :: r in results ==> exists line :: line in lines && ParseChannelLine(line) == Some(r)
  {
    if lines == [] then []
    else
      var front := ChannelResults(lines[..|lines| - 1]);
      var last := lines[|lines| - 1];
      assert forall line :: line in lines[..|lines| - 1] ==> line in lines;
      match ParseChannelLine(last)
      case Some(r) => front + [r]
      case None => front
  }

  /** The lines yt-dlp prints for a list of results, one per result. */
  function PrintedVideoLines(rs: seq<SearchResult>): (lines: seq<string>)
    requires forall r :: r in rs ==> PrintableResult(r)
    ensures |lines| == |rs| && forall i :: 0 <= i < |rs| ==> lines[i] == FormatVideoLine(rs[i])
  {
    seq(|rs|, i requires 0 <= i < |rs| => FormatVideoLine(rs[i]))
  }

  /** Printing a list of results and reading the lines back gives the same list. */
  lemma {:induction false} VideoResultsReadBack(rs: seq<SearchResult>)
    requires forall r :: r in rs ==> PrintableResult(r)
    ensures VideoResults(PrintedVideoLines(rs)) == rs
  {
    if rs != [] {
      var front, last := rs[..|rs| - 1], rs[|rs| - 1];
      PrintableParts(rs);
      VideoResultsReadBack(front);
      PrintedVideoLinesSnoc(rs);
      ParseFormatVideoLine(last);
      VideoResultsSnoc(PrintedVideoLines(rs));
      assert rs == front + [last];
    }
  }

  lemma PrintableParts(rs: seq<SearchResult>)
    requires rs != [] && forall r :: r in rs ==> PrintableResult(r)
    ensures (forall r :: r in rs[..|rs| - 1] ==> PrintableResult(r)) && PrintableResult(rs[|rs| - 1])
  {
    assert forall r :: r in rs[..|rs| - 1] ==> r in rs;
  }

  lemma PrintedVideoLinesSnoc(rs: seq<SearchResult>)
    requires rs != [] && forall r :: r in rs ==> PrintableResult(r)
    requires forall r :: r in rs[..|rs| - 1] ==> PrintableResult(r)
    ensures var lines := PrintedVideoLines(rs);
      lines[..|rs| - 1] == PrintedVideoLines(rs[..|rs| - 1]) && lines[|rs| - 1] == FormatVideoLine(rs[|rs| - 1])
  {
  }

  /** The results of lines are those of all but the last line, then the last line's result if it parses. */
  lemma VideoResultsSnoc(lines: seq<string>)
    requires lines != []
    ensures var front := VideoResults(lines[..|lines| - 1]);
      VideoResults(lines) == match ParseVideoLine(lines[|lines| - 1])
        case Some(r) => front + [r]
        case None => front
  {
  }

  /** A channel as yt-dlp prints it: id, name and thumbnail. */
  type Channel = (string, string, string)

  /** A channel whose fields hold no unit separator. */
  predicate PrintableChannel(c: Channel) {
    UnitSeparator !in c.0 && UnitSeparator !in c.1 && UnitSeparator !in c.2
  }

  /** The result `SearchChannels` builds for a channel: the id doubles as the channel id, the name as the uploader. */
  function ChannelResultOf(c: Channel): SearchResult {
    SearchResult(Some(c.0), Some(c.1), Some(c.0), Some(c.1), Some(c.2))
  }

  /** The lines yt-dlp prints for a list of channels, one per channel. */
  function PrintedChannelLines(cs: seq<Channel>): (lines: seq<string>)
    ensures |lines| == |cs| && forall i :: 0 <= i < |cs| ==> lines[i] == FormatChannelLine(cs[i].0, cs[i].1, cs[i].2)
  {
    seq(|cs|, i requires 0 <= i < |cs| => FormatChannelLine(cs[i].0, cs[i].1, cs[i].2))
  }

  /** The results of a list of channels, in order. */
  function ChannelResultsOf(cs: seq<Channel>): (results: seq<SearchResult>)
    ensures |results| == |cs| && forall i :: 0 <= i < |cs| ==> results[i] == ChannelResultOf(cs[i])
  {
    if cs == [] then [] else ChannelResultsOf(cs[..|cs| - 1]) + [ChannelResultOf(cs[|cs| - 1])]
  }

  /** Printing a list of channels and reading the lines back gives their results, in the same order. */
  lemma {:induction false} ChannelResultsReadBack(cs: seq<Channel>)
    requires forall c :: c in cs ==> PrintableChannel(c)
    ensures ChannelResults(PrintedChannelLines(cs)) == ChannelResultsOf(cs)
  {
    if cs != [] {
      var front, last := cs[..|cs| - 1], cs[|cs| - 1];
      PrintableChannelParts(cs);
      ChannelResultsReadBack(front);
      PrintedChannelLinesSnoc(cs);
      ParseFormatChannelLine(last.0, last.1, last.2);
      ChannelResultsSnoc(PrintedChannelLines(cs));
    }
  }

  lemma PrintableChannelParts(cs: seq<Channel>)
    requires cs != [] && forall c :: c in cs ==> PrintableChannel(c)
    ensures (forall c :: c in cs[..|cs| - 1] ==> PrintableChannel(c)) && PrintableChannel(cs[|cs| - 1])
  {
    assert forall c :: c in cs[..|cs| - 1] ==> c in cs;
  }

  lemma PrintedChannelLinesSnoc(cs: seq<Channel>)
    requires cs != []
    ensures var lines := PrintedChannelLines(cs);
      && lines[..|cs| - 1] == PrintedChannelLines(cs[..|cs| - 1])
      && lines[|cs| - 1] == FormatChannelLine(cs[|cs| - 1].0, cs[|cs| - 1].1, cs[|cs| - 1].2)
  {
  }

  /** The channel results of lines are those of all but the last line, then the last line's result if it parses. */
  lemma ChannelResultsSnoc(lines: seq<string>)
    requires lines != []
    ensures var front := ChannelResults(lines[..|lines| - 1]);
      ChannelResults(lines) == match ParseChannelLine(lines[|lines| - 1])
        case Some(r) => front + [r]
        case None => front
  {
  }

  /** The loop of `SearchVideos` that fills the result list from the captured output. */
  method SearchVideos(lines: seq<string>) returns (results: seq<SearchResult>)
    ensures results == VideoResults(lines)
  {
    results := [];
    for n := 0 to |lines|
      invariant results == VideoResults(lines[..n])
    {
      assert lines[..n + 1][..n] == lines[..n];
      var parsed := ParseVideoLine(lines[n]);
      if parsed.Some? {
        results := results + [parsed.value];
      }
    }
    assert lines[..|lines|] == lines;
  }

  /** The loop of `SearchChannels` that fills the result list from the captured output. */
  method SearchChannels(lines: seq<string>) returns (results: seq<SearchResult>)
    ensures results == ChannelResults(lines)
  {
    results := [];
    for n := 0 to |lines|
      invariant results == ChannelResults(lines[..n])
    {
      assert lines[..n + 1][..n] == lines[..n];
      var parsed := ParseChannelLine(lines[n]);
      if parsed.Some? {
        results := results + [parsed.value];
      }
    }
    assert lines[..|lines|] == lines;
  }

  // ---------------------------------------------------------------- scoring

  /** The pieces longer than one character, in order. */
  function KeepLong(pieces: seq<string>): (tokens: seq<string>)
    ensures |tokens| <= |pieces|
  {
    if pieces == [] then []
    else (if |pieces[0]| > 1 then [pieces[0]] else []) + KeepLong(pieces[1..])
  }

  /** Each long piece is kept as often as it occurs, and no short piece is kept. */
  lemma {:induction false} KeepLongCount(pieces: seq<string>)
    ensures forall t :: multiset(KeepLong(pieces))[t] == if |t| > 1 then multiset(pieces)[t] else 0
    ensures forall t :: t in KeepLong(pieces) <==> t in pieces && |t| > 1
    decreases |pieces|
  {
    if pieces != [] {
      KeepLongCount(pieces[1..]);
      assert pieces == [pieces[0]] + pieces[1..];
    }
  }

  /** Pieces that are all long are kept as they are. */
  lemma {:induction false} KeepLongAllLong(pieces: seq<string>)
    requires forall i :: 0 <= i < |pieces| ==> |pieces[i]| > 1
    ensures KeepLong(pieces) == pieces
    decreases |pieces|
  {
    if pieces != [] {
      KeepLongAllLong(pieces[1..]);
    }
  }

  /** Keeping the long pieces goes piece by piece, so it keeps their order. */
  lemma {:induction false} KeepLongAppend(a: seq<string>, b: seq<string>)
    ensures KeepLong(a + b) == KeepLong(a) + KeepLong(b)
    decreases |a|
  {
    if a == [] {
      assert a + b == b;
    } else {
      assert (a + b)[0] == a[0];
      assert (a + b)[1..] == a[1..] + b;
      KeepLongAppend(a[1..], b);
    }
  }

  /** `Tokenize`: the space-separated pieces of more than one character (empty pieces go either way). */
  function Tokenize(value: string): (tokens: seq<string>)
    ensures forall t :: t in tokens <==> t in Split(value, ' ') && |t| > 1
    ensures forall t :: t in tokens ==> ' ' !in t
    ensures forall t :: multiset(tokens)[t] == if |t| > 1 then multiset(Split(value, ' '))[t] else 0
  {
    KeepLongCount(Split(value, ' '));
    KeepLong(Split(value, ' '))
  }

  /** The distinct elements of a list. */
  function Elements(s: seq<string>): set<string> {
    set t | t in s
  }

  predicate Distinct(s: seq<string>) {
    forall i, j :: 0 <= i < j < |s| ==> s[i] != s[j]
  }

  /** `queryTokens.Intersect(candidateTokens).Count()`: distinct query tokens that the candidate has. */
  function Overlap(queryTokens: seq<string>, candidateTokens: seq<string>): nat {
    |Elements(queryTokens) * Elements(candidateTokens)|
  }

  /** The text a score compares: cleaned, then lower-cased. */
  function Normalize(s: NString): string {
    Lower(CleanupSearchText(s))
  }

  /** `(double)overlap / queryTokens.Count`. */
  function Ratio(queryTokens: seq<string>, candidateTokens: seq<string>): (r: real)
    requires |queryTokens| > 0
    ensures 0.0 <= r <= 1.0
  {
    OverlapBound(queryTokens, candidateTokens);
    (Overlap(queryTokens, candidateTokens) as real) / (|queryTokens| as real)
  }

  /** The last tier: token overlap, or 0 when either side has no token. */
  function TokenScore(q: string, c: string): (r: real)
    ensures 0.0 <= r <= 1.0
  {
    var qt := Tokenize(q);
    var ct := Tokenize(c);
    if |qt| == 0 || |ct| == 0 then 0.0 else Ratio(qt, ct)
  }

  /** The tiers on normalized texts. */
  function ScoreNormalized(q: string, c: string): (r: real)
    ensures r == 10.0 || r == 8.0 || 0.0 <= r <= 1.0
    ensures IsBlank(q) || IsBlank(c) ==> r == 0.0
    ensures !IsBlank(q) && !IsBlank(c) && q != c && !Contains(c, q) ==> r == TokenScore(q, c)
  {
    if IsBlank(q) || IsBlank(c) then 0.0
    else if q == c then 10.0
    else if Contains(c, q) then 8.0
    else TokenScore(q, c)
  }

  /** `ScoreSearchResult`: 0 for a blank side, 10 for equal texts, 8 for containment, else token overlap. */
  function Score(query: NString, candidate: NString): (r: real)
    ensures r == 10.0 || r == 8.0 || 0.0 <= r <= 1.0
    ensures var q, c := Normalize(query), Normalize(candidate);
      IsBlank(q) || IsBlank(c) ==> r == 0.0
    ensures var q, c := Normalize(query), Normalize(candidate);
      !IsBlank(q) && !IsBlank(c) && q != c && !Contains(c, q) ==> r == TokenScore(q, c)
  {
    ScoreNormalized(Normalize(query), Normalize(candidate))
  }

  /** A list has no more distinct elements than entries, and as many exactly when no entry repeats. */
  lemma {:induction false} ElementsCount(s: seq<string>)
    ensures |Elements(s)| <= |s|
    ensures |Elements(s)| == |s| <==> Distinct(s)
    decreases |s|
  {
    if s != [] {
      var front := s[..|s| - 1];
      var last := s[|s| - 1];
      ElementsCount(front);
      ElementsSnoc(s);
      DistinctSnoc(s);
      if last in Elements(front) {
        assert Elements(s) == Elements(front);
      }
    }
  }

  /** The elements of a non-empty list are those of its front and its last entry. */
  lemma ElementsSnoc(s: seq<string>)
    requires s != []
    ensures Elements(s) == Elements(s[..|s| - 1]) + {s[|s| - 1]}
  {
    assert s == s[..|s| - 1] + [s[|s| - 1]];
  }

  /** A non-empty list is distinct exactly when its front is and its last entry is not in the front. */
  lemma DistinctSnoc(s: seq<string>)
    requires s != []
    ensures Distinct(s) <==> Distinct(s[..|s| - 1]) && s[|s| - 1] !in Elements(s[..|s| - 1])
  {
    var front, last := s[..|s| - 1], s[|s| - 1];
    if last in Elements(front) {
      var k :| 0 <= k < |front| && front[k] == last;
      assert s[k] == s[|s| - 1];
    } else if Distinct(front) {
      forall i, j | 0 <= i < j < |s| ensures s[i] != s[j] {
        assert s[i] == front[i];
        if j < |s| - 1 {
          assert s[j] == front[j];
        }
      }
    }
    if Distinct(s) {
      forall i, j | 0 <= i < j < |front| ensures front[i] != front[j] {
        assert s[i] == front[i] && s[j] == front[j];
      }
    }
  }

  /** The overlap never exceeds the number of query tokens. */
  lemma OverlapBound(queryTokens: seq<string>, candidateTokens: seq<string>)
    ensures Overlap(queryTokens, candidateTokens) <= |queryTokens|
  {
    ElementsCount(queryTokens);
    assert Elements(queryTokens) * Elements(candidateTokens) <= Elements(queryTokens);
    SubsetCount(Elements(queryTokens) * Elements(candidateTokens), Elements(queryTokens));
  }

  /** A subset has no more elements, and as many exactly when it is the whole set. */
  lemma SubsetCount(a: set<string>, b: set<string>)
    requires a <= b
    ensures |a| <= |b|
    ensures |a| == |b| <==> a == b
  {
    assert b == a + (b - a);
    assert a * (b - a) == {};
    if a != b {
      var x :| x in b && x !in a;
      assert x in b - a;
    }
  }

  /** The overlap ratio is 1 exactly when the query tokens are distinct and every one is in the candidate. */
  lemma OverlapFullIff(queryTokens: seq<string>, candidateTokens: seq<string>)
    ensures Overlap(queryTokens, candidateTokens) == |queryTokens| <==>
      Distinct(queryTokens) && forall t :: t in queryTokens ==> t in candidateTokens
  {
    var eq := Elements(queryTokens);
    var both := eq * Elements(candidateTokens);
    ElementsCount(queryTokens);
    SubsetCount(both, eq);
    if both == eq {
      forall t | t in queryTokens ensures t in candidateTokens {
        assert t in eq;
      }
    }
    if forall t :: t in queryTokens ==> t in candidateTokens {
      forall t | t in eq ensures t in both {
      }
    }
  }

  /** On normalized texts, the score is 10 exactly when both are non-blank and equal. */
  lemma ScoreTenIff(q: string, c: string)
    ensures ScoreNormalized(q, c) == 10.0 <==> !IsBlank(q) && q == c
  {
  }

  /** On normalized texts, the score is 8 exactly when the candidate strictly contains the query. */
  lemma ScoreEightIff(q: string, c: string)
    ensures ScoreNormalized(q, c) == 8.0 <==> !IsBlank(q) && !IsBlank(c) && q != c && Contains(c, q)
  {
  }

  /** Every text contains itself. */
  lemma ContainsItself(c: string)
    ensures Contains(c, c)
  {
    assert OccursAt(c, c, 0) by { assert c[0..|c|] == c; }
  }

  /** The overlap ratio is 1 exactly when the query tokens are distinct and all in the candidate. */
  lemma RatioOneIff(queryTokens: seq<string>, candidateTokens: seq<string>)
    requires |queryTokens| > 0
    ensures Ratio(queryTokens, candidateTokens) == 1.0 <==>
      Distinct(queryTokens) && forall t :: t in queryTokens ==> t in candidateTokens
  {
    OverlapFullIff(queryTokens, candidateTokens);
    var k := Overlap(queryTokens, candidateTokens);
    assert Ratio(queryTokens, candidateTokens) == (k as real) / (|queryTokens| as real);
    QuotientOneIff(k, |queryTokens|);
  }

  /** A quotient of counts is 1 exactly when the counts are equal. */
  lemma QuotientOneIff(k: nat, n: nat)
    requires n > 0
    ensures (k as real) / (n as real) == 1.0 <==> k == n
  {
    var o := k as real;
    var m := n as real;
    assert m > 0.0;
    assert o == (o / m) * m;
  }

  /** When the candidate does not contain the query, a score of 1 means every (distinct) query token is in the candidate. */
  lemma ScoreOneIff(q: string, c: string)
    requires !IsBlank(q) && !IsBlank(c) && !Contains(c, q) && |Tokenize(c)| > 0
    ensures var qt := Tokenize(q);
      ScoreNormalized(q, c) == 1.0 <==> |qt| > 0 && Distinct(qt) && forall t :: t in qt ==> t in Tokenize(c)
  {
    ContainsItself(c);
    assert ScoreNormalized(q, c) == TokenScore(q, c);
    if |Tokenize(q)| > 0 {
      RatioOneIff(Tokenize(q), Tokenize(c));
    }
  }

  /** A lower-case word of two or more letters. */
  predicate Word(w: string) {
    |w| >= 2 && forall i :: 0 <= i < |w| ==> 'a' <= w[i] <= 'z'
  }

  /** A clean text without brackets or capitals is its own normal form. */
  lemma NormalTextIsFixed(t: string)
    requires IsCleanText(t) && '[' !in t
    requires forall i :: 0 <= i < |t| ==> !('A' <= t[i] <= 'Z')
    ensures Normalize(Some(t)) == t
  {
    NoBracketNoToken(t);
    CleanupKeepsCleanText(t);
    assert Lower(t) == t;
  }

  /** Two words joined by a space form a clean text. */
  lemma TwoWordsClean(a: string, b: string)
    requires Word(a) && Word(b)
    ensures IsCleanText(a + " " + b) && '[' !in a + " " + b
    ensures forall i :: 0 <= i < |a + " " + b| ==> !('A' <= (a + " " + b)[i] <= 'Z')
  {
    var t := a + " " + b;
    forall i | 0 <= i < |t| ensures t[i] == ' ' || 'a' <= t[i] <= 'z' {
      if i < |a| { assert t[i] == a[i]; } else if i > |a| { assert t[i] == b[i - |a| - 1]; }
    }
    forall i | 0 <= i < |t| - 1 ensures !(IsSpace(t[i]) && IsSpace(t[i + 1])) {
      if i < |a| - 1 { assert t[i + 1] == a[i + 1]; } else if i == |a| - 1 { assert t[i] == a[i]; } else { assert t[i + 1] == b[i - |a|]; }
    }
  }

  /** Two words joined by a space are already normalized. */
  lemma TwoWordsNormalized(a: string, b: string)
    requires Word(a) && Word(b)
    ensures Normalize(Some(a + " " + b)) == a + " " + b
  {
    TwoWordsClean(a, b);
    NormalTextIsFixed(a + " " + b);
  }

  /** Two words joined by a space split into the two words. */
  lemma TwoWordsTokens(a: string, b: string)
    requires Word(a) && Word(b)
    ensures Tokenize(a + " " + b) == [a, b]
  {
    var parts := [a, b];
    assert forall i :: 0 <= i < |parts| ==> ' ' !in parts[i] && |parts[i]| > 1 by {
      assert ' ' !in a && ' ' !in b;
    }
    assert Join(parts, ' ') == a + " " + b;
    SplitJoin(parts, ' ');
    KeepLongAllLong(parts);
  }

  /** The same two words in either order are different texts of the same length. */
  lemma SwappedWordsDiffer(a: string, b: string)
    requires Word(a) && Word(b) && a != b
    ensures a + " " + b != b + " " + a
  {
    var q := a + " " + b;
    var c := b + " " + a;
    if |a| == |b| {
      assert q[..|a|] == a && c[..|a|] == b;
    } else if |a| < |b| {
      assert q[|a|] == ' ' && c[|a|] == b[|a|];
    } else {
      assert q[|b|] == a[|b|] && c[|b|] == ' ';
    }
  }

  /** A text contains no different text of the same length. */
  lemma SameLengthNotContained(c: string, q: string)
    requires |c| == |q| && c != q
    ensures !Contains(c, q)
  {
    forall i ensures !OccursAt(c, q, i) {
      if i == 0 {
        assert c[0..|q|] == c;
      }
    }
  }

  /**
   * The overlap tier reaches 1: "show daily" against "daily show", and any two different
   * words in swapped order, share every token without one text containing the other.
   */
  lemma SwappedWordsScoreOne(a: string, b: string)
    requires Word(a) && Word(b) && a != b
    ensures Score(Some(a + " " + b), Some(b + " " + a)) == 1.0
  {
    TwoWordsNormalized(a, b);
    TwoWordsNormalized(b, a);
    SwappedWordsOverlap(a, b, a + " " + b, b + " " + a);
  }

  /** The tiers on two words and the same two words swapped: the overlap ratio, and it is 1. */
  lemma SwappedWordsOverlap(a: string, b: string, q: string, c: string)
    requires Word(a) && Word(b) && a != b
    requires q == a + " " + b && c == b + " " + a
    ensures ScoreNormalized(q, c) == 1.0
  {
    TwoWordsTokens(a, b);
    TwoWordsTokens(b, a);
    SwappedWordsDiffer(a, b);
    SameLengthNotContained(c, q);
    TwoWordsNotBlank(a, b);
    TwoWordsNotBlank(b, a);
    SwappedTokensShared(a, b);
    ScoreOneIff(q, c);
  }

  lemma TwoWordsNotBlank(a: string, b: string)
    requires Word(a)
    ensures !IsBlank(a + " " + b)
  {
    assert (a + " " + b)[0] == a[0];
  }

  /** Two different words are distinct tokens, each among the swapped pair. */
  lemma SwappedTokensShared(a: string, b: string)
    requires a != b
    ensures Distinct([a, b]) && forall t :: t in [a, b] ==> t in [b, a]
  {
  }

  /** "show daily" against "daily show" scores 1. */
  lemma ShowDailyExample(a: string, b: string)
    requires a == "show" && b == "daily"
    ensures Score(Some("show daily"), Some("daily show")) == 1.0
  {
    assert Word(a) && Word(b) && a != b;
    assert a + " " + b == "show daily";
    assert b + " " + a == "daily show";
    SwappedWordsScoreOne(a, b);
  }

  /**
   * A repeated query token counts once in the overlap but twice in the divisor: a word said
   * twice and another word, against the first word alone, score 1/3.
   */
  lemma RepeatedQueryTokenScore(a: string, b: string, q: string)
    requires Word(a) && Word(b) && a != b
    requires q == a + " " + a + " " + b
    ensures ScoreNormalized(q, a) == 1.0 / 3.0
  {
    RepeatedWordTokens(a, b, q);
    RepeatedWordText(a, b, q);
    WordTokens(a);
    LongerNotContained(a, q);
    RepeatedTokenRatio(a, b);
    assert TokenScore(q, a) == 1.0 / 3.0;
  }

  lemma RepeatedTokenRatio(a: string, b: string)
    requires a != b
    ensures Ratio([a, a, b], [a]) == 1.0 / 3.0
  {
    assert Elements([a, a, b]) * Elements([a]) == {a};
    assert Overlap([a, a, b], [a]) == 1;
  }

  /** "ab ab cd" against "ab" scores 1/3. */
  lemma RepeatedQueryTokenExample(q: string, c: string)
    requires q == "ab ab cd" && c == "ab"
    ensures ScoreNormalized(q, c) == 1.0 / 3.0
  {
    assert Word(c) && Word("cd");
    assert q == c + " " + c + " " + "cd";
    RepeatedQueryTokenScore(c, "cd", q);
  }

  /** The tokens of a word said twice and another word. */
  lemma RepeatedWordTokens(a: string, b: string, q: string)
    requires Word(a) && Word(b)
    requires q == a + " " + a + " " + b
    ensures Tokenize(q) == [a, a, b]
  {
    var parts := [a, a, b];
    assert forall i :: 0 <= i < |parts| ==> ' ' !in parts[i] && |parts[i]| > 1 by {
      assert ' ' !in a && ' ' !in b;
    }
    JoinThree(a, a, b);
    SplitJoin(parts, ' ');
    KeepLongAllLong(parts);
  }

  /** A word said twice and another word is not blank and is longer than the word. */
  lemma RepeatedWordText(a: string, b: string, q: string)
    requires Word(a)
    requires q == a + " " + a + " " + b
    ensures !IsBlank(q) && |q| > |a|
  {
    assert q[0] == a[0];
  }

  /** A word is its own single token and is not blank. */
  lemma WordTokens(a: string)
    requires Word(a)
    ensures Tokenize(a) == [a] && !IsBlank(a)
  {
    assert ' ' !in a;
    SplitJoin([a], ' ');
    assert Join([a], ' ') == a;
    KeepLongAllLong([a]);
  }

  lemma JoinThree(a: string, b: string, c: string)
    ensures Join([a, b, c], ' ') == a + " " + b + " " + c
  {
    assert [a, b, c][1..] == [b, c];
    assert Join([b, c], ' ') == b + " " + c;
  }

  /** A text never contains a longer one. */
  lemma LongerNotContained(hay: string, needle: string)
    requires |needle| > |hay|
    ensures !Contains(hay, needle) && hay != needle
  {
    forall i ensures !OccursAt(hay, needle, i) { }
  }

  // ---------------------------------------------------------------- choosing one result

  /** `Math.Max(1, Math.Min(maxResults, 25))`. */
  function ClampLimit(maxResults: int): (r: int)
    ensures 1 <= r <= 25
    ensures 1 <= maxResults <= 25 ==> r == maxResults
    ensures maxResults < 1 ==> r == 1
    ensures maxResults > 25 ==> r == 25
  {
    if maxResults > 25 then 25 else if maxResults < 1 then 1 else maxResults
  }

  /** `int.MaxValue`, the length a null title ranks with. */
  const IntMax: int := 0x7FFF_FFFF

  /** `Title?.Length ?? int.MaxValue`. */
  function RankLength(title: NString): int {
    match title
    case Some(t) => |t|
    case None => IntMax
  }

  /** The ordering key of a result: its score, then its title length. */
  datatype Rank = Rank(score: real, length: int)

  /** `OrderByDescending(Score).ThenBy(length)`: `x` sorts strictly before `y`. */
  predicate Before(x: Rank, y: Rank) {
    x.score > y.score || (x.score == y.score && x.length < y.length)
  }

  function RankOf(cleanedQuery: string, r: SearchResult): Rank {
    Rank(Score(Some(cleanedQuery), r.title), RankLength(r.title))
  }

  function Ranks(cleanedQuery: string, results: seq<SearchResult>): (ranks: seq<Rank>)
    ensures |ranks| == |results|
    ensures forall i :: 0 <= i < |results| ==> ranks[i] == RankOf(cleanedQuery, results[i])
  {
    seq(|results|, i requires 0 <= i < |results| => RankOf(cleanedQuery, results[i]))
  }

  /**
   * The first element of the stable sort: nothing sorts before it, and everything earlier
   * sorts after it (full ties keep the original order).
   */
  function First(ranks: seq<Rank>): (b: nat)
    requires |ranks| > 0
    ensures b < |ranks|
    ensures forall j :: 0 <= j < |ranks| ==> !Before(ranks[j], ranks[b])
    ensures forall j :: 0 <= j < b ==> Before(ranks[b], ranks[j])
  {
    if |ranks| == 1 then 0
    else
      var b := First(ranks[..|ranks| - 1]);
      assert forall j :: 0 <= j < |ranks| - 1 ==> ranks[..|ranks| - 1][j] == ranks[j];
      if Before(ranks[|ranks| - 1], ranks[b]) then |ranks| - 1 else b
  }

  /** Only one position has the two properties of First. */
  lemma FirstIsUnique(ranks: seq<Rank>, b: nat)
    requires b < |ranks|
    requires forall j :: 0 <= j < |ranks| ==> !Before(ranks[j], ranks[b])
    requires forall j :: 0 <= j < b ==> Before(ranks[b], ranks[j])
    ensures First(ranks) == b
  {
  }

  /** The search `SearchBestVideoMatch` asks for: the cleaned query and the clamped limit, or none for a blank query. */
  function SearchRequest(query: NString, maxResults: int): (r: Option<(string, int)>)
    ensures r.None? <==> IsBlank(CleanupSearchText(query))
    ensures r.Some? ==> r.value.0 == CleanupSearchText(query) && 1 <= r.value.1 <= 25
  {
    var cleanedQuery := CleanupSearchText(query);
    if IsBlank(cleanedQuery) then None else Some((cleanedQuery, ClampLimit(maxResults)))
  }

  /** The result `SearchBestVideoMatch` returns for the results of the search. */
  function SelectBest(cleanedQuery: string, results: seq<SearchResult>): (r: Option<SearchResult>)
    ensures r.None? <==> results == []
    ensures r.Some? ==> r.value in results
  {
    if results == [] then None
    else
      var ranks := Ranks(cleanedQuery, results);
      var b := First(ranks);
      if ranks[b].score <= 0.0 then Some(results[0]) else Some(results[b])
  }

  /**
   * `SearchBestVideoMatch`: `search` stands for running `SearchVideos` with a query and a limit.
   */
  function SearchBestVideoMatch(query: NString, maxResults: int, search: (string, int) -> seq<SearchResult>): (r: Option<SearchResult>)
    ensures IsBlank(CleanupSearchText(query)) ==> r.None?
    ensures !IsBlank(CleanupSearchText(query)) ==>
      r == SelectBest(CleanupSearchText(query), search(CleanupSearchText(query), ClampLimit(maxResults)))
  {
    match SearchRequest(query, maxResults)
    case None => None
    case Some((cleanedQuery, limit)) => SelectBest(cleanedQuery, search(cleanedQuery, limit))
  }

  /** With no positive score the first result is returned. */
  lemma SelectBestWithoutPositiveScore(cleanedQuery: string, results: seq<SearchResult>)
    requires results != []
    requires forall r :: r in results ==> Score(Some(cleanedQuery), r.title) <= 0.0
    ensures SelectBest(cleanedQuery, results) == Some(results[0])
  {
    var ranks := Ranks(cleanedQuery, results);
    var b := First(ranks);
    assert results[b] in results;
  }

  /**
   * `b` is where the sorted results start: no higher score anywhere, no shorter title among
   * the results with its score, and every earlier result sorts after it.
   */
  predicate IsTop(ranks: seq<Rank>, b: nat) {
    && b < |ranks|
    && (forall j :: 0 <= j < |ranks| ==> ranks[j].score <= ranks[b].score)
    && (forall j :: 0 <= j < |ranks| && ranks[j].score == ranks[b].score ==> ranks[b].length <= ranks[j].length)
    && (forall j :: 0 <= j < b ==> Before(ranks[b], ranks[j]))
  }

  /** First finds the top of the ranking. */
  lemma FirstIsTop(ranks: seq<Rank>)
    requires |ranks| > 0
    ensures IsTop(ranks, First(ranks))
  {
    var b := First(ranks);
    forall j | 0 <= j < |ranks| ensures ranks[j].score <= ranks[b].score {
      assert !Before(ranks[j], ranks[b]);
    }
  }

  /**
   * With a positive score somewhere, the result is the top of the ranking: the first of the
   * results with the highest score and, among those, the shortest title (a null title counting
   * as the longest).
   */
  lemma SelectBestWithPositiveScore(cleanedQuery: string, results: seq<SearchResult>, k: nat)
    requires k < |results| && Score(Some(cleanedQuery), results[k].title) > 0.0
    ensures var b := First(Ranks(cleanedQuery, results));
      IsTop(Ranks(cleanedQuery, results), b) && SelectBest(cleanedQuery, results) == Some(results[b])
  {
    var ranks := Ranks(cleanedQuery, results);
    var b := First(ranks);
    FirstIsTop(ranks);
    assert ranks[k].score > 0.0;
    assert ranks[b].score > 0.0;
  }
}
