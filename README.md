# YouTube Auto Metadata for Jellyfin, modelled in Dafny

This project models the metadata logic of the Jellyfin plugin "YouTube Auto Metadata":
- how it reads a YouTube id out of a file name and cleans a title into a search query;
- how it reads the lines yt-dlp prints for a search and ranks the results against the query;
- when a cached `ytvideo.info.json` record is still fresh;
- how a yt-dlp JSON record becomes a Jellyfin movie, music video, episode or series, including the upload date, the episode number read from the title, the director and the series name;
- the optional AI refinement step, which sends the title and description to an OpenAI-style chat-completions endpoint and reads a normalized pair back.

The text logic lives in `Utils.cs` and the refinement step in `AiMetadataRefiner.cs`.

Modules, one per file:

| module | models |
|---|---|
| `Wrappers` | `Option`, the model of a nullable value |
| `Text` | the .NET string operations used: `IsNullOrWhiteSpace`, `Trim`, `TrimEnd`, `Split`, `IndexOf`, `Contains`, `ToLowerInvariant`, digit parsing |
| `Configuration` | `PluginConfiguration` with its defaults, and the `config?.X ?? true` readings |
| `Identifiers` | `GetYTID`, `CleanupSearchText`, `BuildSearchQuery`, `ToSafeCacheKey`, `GetVideoInfoPath` |
| `Search` | parsing of the printed search lines, `Tokenize`, `ScoreSearchResult`, the ranking in `SearchBestVideoMatch` |
| `Cache` | `IsFresh` |
| `Dates` | `DateTime.ParseExact(s, "yyyyMMdd")` with the 1970-01-01 fallback, and `ToString("yyyyMMdd")` |
| `Episodes` | `ExtractEpisodeNumber` and its two regular expressions |
| `Mapping` | `YTDLData`, `CreatePerson`, `GetSeriesNameFromVideo` and the four `YTDLJsonTo*` mappers |
| `Refiner` | `TryRefineAsync`, `BuildEndpoint`, `BuildRequestPayload`, `ParseRefinedPayload`, `ExtractJsonObject` |

## How each part is modelled

**Strings.**
- A C# `string` that may be null is `Option<string>` (`NString`).
- White space is the ASCII set: space, tab, line feed, vertical tab, form feed, carriage return.
- Case folding is ASCII only.

**Regular expressions.** Each regular expression is modelled in two layers.
- A shape predicate says which texts the pattern accepts at a position.
- A function says which completion the .NET backtracking engine picks there, and is proved to be that choice:
  - the greedy season group gives digits back only so that the `e` can follow;
  - the first alternative of `episode|folge|ep\.?` that can complete wins;
  - `\s*` takes all the white space.
- `Regex.Match` is the leftmost position where the pattern matches (`FirstMatch`). `ExtractEpisodeNumber` computes it with a scanning loop, which is proved equal to that specification.

**Processes, clocks and HTTP.**
- The yt-dlp process becomes its printed output lines: a `seq<string>` for the line parsers, and a function parameter `search` for `SearchBestVideoMatch`.
- The clock becomes `now` in ticks.
- The HTTP call becomes a function parameter `send` returning an outcome.
- `JsonDocument.Parse` becomes a parameter `parse` that returns `None` where the parser would throw.

**State.**
- The loops that fill the result lists (`SearchVideos`, `SearchChannels`, `ToSafeCacheKey`, the regular-expression scan) are methods with loop invariants, each proved against a function.
- The mappers build their `MetadataResult` step by step and state every field they set.

## Model

| member | source | states |
|---|---|---|
| `Identifiers.FirstBracketedId` | Jellyfin.Plugin.YoutubeMetadata/Constants.cs:13-14 | the result is the leftmost position where a bracketed run of exactly n id characters matches, and no earlier position matches |
| `Identifiers.GetYTID` | Jellyfin.Plugin.YoutubeMetadata/Utils.cs:54-67 | the id has length 0, 11 or 24 and only id characters; blank input gives ""; length 11 exactly when a bracketed 11-character id exists; length 24 exactly when no such id exists but a 24-character one does |
| `Identifiers.GetYTIDTakesLeftmostVideoId` | Jellyfin.Plugin.YoutubeMetadata/Utils.cs:61-66 | with several bracketed video ids, the leftmost one is returned, not the last as the doc comment at line 50 says |
| `Identifiers.GetYTIDFallsBackToChannelId` | Jellyfin.Plugin.YoutubeMetadata/Utils.cs:62-66 | with no 11-character id, the leftmost bracketed 24-character channel id is returned |
| `Identifiers.GetYTIDIsPathSegment` | Jellyfin.Plugin.YoutubeMetadata/Utils.cs:54-67 | a non-empty id is a single path segment, usable as a cache directory name |
| `Identifiers.IdTokenLength` | Jellyfin.Plugin.YoutubeMetadata/Utils.cs:92 | the length of the `[id]` token (11 to 24 id characters) at the start of a text, or 0 exactly when no such token starts there |
| `Identifiers.RemoveIdTokens` | Jellyfin.Plugin.YoutubeMetadata/Utils.cs:92 | removing the id tokens never lengthens the text and keeps only characters of it |
| `Identifiers.CollapseRuns` | Jellyfin.Plugin.YoutubeMetadata/Utils.cs:93-94 | the shape of the result: no two class characters are adjacent, every character is a space or an input character outside the class, and the first character is kept or made a space; the value is fixed by `CollapseRunsAtRun` and `CollapseRunsNoneInClass` |
| `Identifiers.CollapseShape` | Jellyfin.Plugin.YoutubeMetadata/Utils.cs:93-94 | the step-by-step run replacement has the shape `CollapseRuns` promises |
| `Identifiers.CollapseAppend` | Jellyfin.Plugin.YoutubeMetadata/Utils.cs:93-94 | text that ends outside the class is collapsed on its own, and whatever follows is collapsed separately |
| `Identifiers.CollapseRunsAtRun` | Jellyfin.Plugin.YoutubeMetadata/Utils.cs:93-94 | a whole run between texts that end and start outside the class becomes exactly one space, with the texts on both sides collapsed on their own |
| `Identifiers.CollapseRunsNoneInClass` | Jellyfin.Plugin.YoutubeMetadata/Utils.cs:93-94 | a text with no character of the class is unchanged |
| `Identifiers.SeparatorRunsBetweenWords` | Jellyfin.Plugin.YoutubeMetadata/Utils.cs:93 | runs of `_` and `.` between three plain words become single spaces, and the words are kept |
| `Identifiers.CollapseAll` | Jellyfin.Plugin.YoutubeMetadata/Utils.cs:92-94 | after the three replacements there is no `_` or `.`, every white space is a single space, and no two spaces are adjacent |
| `Identifiers.CleanupSearchText` | Jellyfin.Plugin.YoutubeMetadata/Utils.cs:85-95 | blank input gives ""; the result is clean text (no `_` or `.`, single spaces, no white space at either end), no longer than the input, and made of the input's characters and spaces |
| `Identifiers.TrimMakesClean` | Jellyfin.Plugin.YoutubeMetadata/Utils.cs:94 | the final `Trim` turns collapsed text into clean text |
| `Identifiers.RemoveIdTokensKeepsTokenFree` | Jellyfin.Plugin.YoutubeMetadata/Utils.cs:92 | a text without id tokens is unchanged by their removal |
| `Identifiers.RemoveIdTokensShrinks` | Jellyfin.Plugin.YoutubeMetadata/Utils.cs:92 | a text with an id token somewhere gets strictly shorter |
| `Identifiers.CleanupSeparatedWords` | Jellyfin.Plugin.YoutubeMetadata/Utils.cs:85-95 | the cleanup of plain words separated by runs of `_` and `.` is the words joined by single spaces |
| `Identifiers.CleanupSeparatorsExample` | Jellyfin.Plugin.YoutubeMetadata/Utils.cs:85-95 | "My.Show__S01" is cleaned to "My Show S01" |
| `Identifiers.CollapseRunsKeepsLoneSpaces` | Jellyfin.Plugin.YoutubeMetadata/Utils.cs:93-94 | a text whose class characters are isolated spaces is unchanged by collapsing |
| `Identifiers.CleanupKeepsCleanText` | Jellyfin.Plugin.YoutubeMetadata/Utils.cs:85-95 | a clean text without id tokens is its own cleanup |
| `Identifiers.CleanupIdempotentIff` | Jellyfin.Plugin.YoutubeMetadata/Utils.cs:85-95 | cleaning a cleaned text again changes nothing exactly when it has no id token left |
| `Identifiers.CleanupShrinksTokenText` | Jellyfin.Plugin.YoutubeMetadata/Utils.cs:85-95 | a text holding an id token always gets shorter when cleaned |
| `Identifiers.NoBracketNoToken` | Jellyfin.Plugin.YoutubeMetadata/Utils.cs:92 | a text without `[` has no id token |
| `Identifiers.RemoveIdTokensDropsToken` | Jellyfin.Plugin.YoutubeMetadata/Utils.cs:92 | a bracketed 11-24 character id at the front is dropped whole |
| `Identifiers.RemoveIdTokensKeepsShortBracket` | Jellyfin.Plugin.YoutubeMetadata/Utils.cs:92 | a bracket followed by fewer than 11 id characters and a non-id character is kept |
| `Identifiers.CleanupAfterRemoval` | Jellyfin.Plugin.YoutubeMetadata/Utils.cs:85-95 | when the removal already yields clean text, that is the cleanup |
| `Identifiers.CleanTextIsFixed` | Jellyfin.Plugin.YoutubeMetadata/Utils.cs:93-94 | clean text is unchanged by both collapses and by `Trim` |
| `Identifiers.SplicedTokenFirstPass` | Jellyfin.Plugin.YoutubeMetadata/Utils.cs:92 | removing an id token nested in a bracket splices the outer bracket's two halves together |
| `Identifiers.SplicedTokenSecondPass` | Jellyfin.Plugin.YoutubeMetadata/Utils.cs:92 | the spliced bracket is itself an id token when the halves add up to 11-24 characters |
| `Identifiers.CleanupNotIdempotentExample` | Jellyfin.Plugin.YoutubeMetadata/Utils.cs:85-95 | "[ab[cdefghijklm]nopqrstuv]" cleans to "[abnopqrstuv]", which cleans to "" |
| `Identifiers.FileNameWithoutExtensionOf` | Jellyfin.Plugin.YoutubeMetadata/Utils.cs:81 | the stem of `dir/stem.ext` is `stem` |
| `Identifiers.BuildSearchQuery` | Jellyfin.Plugin.YoutubeMetadata/Utils.cs:69-83 | the query is clean text; a non-blank title wins; a blank title with a blank path gives "" |
| `Identifiers.BuildSearchQueryUsesFileStem` | Jellyfin.Plugin.YoutubeMetadata/Utils.cs:76-82 | with a blank title, the query is the cleaned file name without directory and extension |
| `Identifiers.ReplaceInvalid` | Jellyfin.Plugin.YoutubeMetadata/Utils.cs:104-110 | same length; each invalid character becomes `_` and every other character is kept |
| `Identifiers.SafeCacheKey` | Jellyfin.Plugin.YoutubeMetadata/Utils.cs:97-113 | the key is never empty and has no white space and no `.`; blank input, or input whose cleanup is blank, gives "unknown"; otherwise the key is the cleaned text (invalid characters replaced by `_`, then cleaned: id tokens removed, runs of `_`/`.` and of white space turned into one space, the ends trimmed) with each space turned to `_`, character for character; no invalid character survives when `_` and the letters of "unknown" are valid |
| `Identifiers.KeyOfCleaned` | Jellyfin.Plugin.YoutubeMetadata/Utils.cs:111-112 | spaces of the cleaned text become `_`, character for character; empty cleaned text gives "unknown"; the result has no space and no `.` |
| `Identifiers.SafeCacheKeyOfPlainValue` | Jellyfin.Plugin.YoutubeMetadata/Utils.cs:97-113 | a non-empty value that is already clean, holds no video id, no space and no invalid character is its own key |
| `Identifiers.UnderscoredStaysValid` | Jellyfin.Plugin.YoutubeMetadata/Utils.cs:111 | when `_` is valid, cleaning brings no invalid character back: every character of the cleaned text is a space or valid |
| `Identifiers.SafeCacheKeyIsPathSegment` | Jellyfin.Plugin.YoutubeMetadata/Utils.cs:97-113 | with `/` invalid, the key is a single path segment and neither "." nor ".." |
| `Identifiers.ToSafeCacheKey` | Jellyfin.Plugin.YoutubeMetadata/Utils.cs:97-113 | the `foreach` loop over the characters computes the safe key |
| `Identifiers.CacheRoot` | Jellyfin.Plugin.YoutubeMetadata/Utils.cs:142 | the cache root is non-empty and does not end in `/` |
| `Identifiers.GetVideoInfoPath` | Jellyfin.Plugin.YoutubeMetadata/Utils.cs:140-144 | the path ends in "/ytvideo.info.json" |
| `Identifiers.VideoInfoPathLayout` | Jellyfin.Plugin.YoutubeMetadata/Utils.cs:140-144 | the path is cache root, "youtubemetadata", the id, then the file name |
| `Identifiers.VideoInfoPathInjective` | Jellyfin.Plugin.YoutubeMetadata/Utils.cs:140-144 | two ids that are path segments share a path only when they are equal |
| `Search.ParseVideoLine` | Jellyfin.Plugin.YoutubeMetadata/Utils.cs:204-218 | a line gives a result exactly when it has at least five unit-separator fields |
| `Search.ParseChannelLine` | Jellyfin.Plugin.YoutubeMetadata/Utils.cs:320-334 | a line gives a result exactly when it has at least three fields; the result has id = channel id and title = uploader |
| `Search.ParseFormatVideoLine` | Jellyfin.Plugin.YoutubeMetadata/Utils.cs:195 | a line printed with the video template reads back as the result it was printed from |
| `Search.ParseVideoLineIgnoresExtraFields` | Jellyfin.Plugin.YoutubeMetadata/Utils.cs:206-216 | fields after the fifth are ignored |
| `Search.ParseFormatChannelLine` | Jellyfin.Plugin.YoutubeMetadata/Utils.cs:311 | a line printed with the channel template reads back as id, name, id, name, thumbnail |
| `Search.VideoResults` | Jellyfin.Plugin.YoutubeMetadata/Utils.cs:204-218 | no more results than lines, each one read from some line |
| `Search.ChannelResults` | Jellyfin.Plugin.YoutubeMetadata/Utils.cs:320-334 | no more results than lines, each a channel result read from some line |
| `Search.ChannelResultsOf` | Jellyfin.Plugin.YoutubeMetadata/Utils.cs:320-334 | one result per channel, in order, with the id doubling as channel id and the name as uploader |
| `Search.ChannelResultsReadBack` | Jellyfin.Plugin.YoutubeMetadata/Utils.cs:320-334 | printing a list of channels and reading the lines back gives their results in the same order, one per channel |
| `Search.ChannelResultsSnoc` | Jellyfin.Plugin.YoutubeMetadata/Utils.cs:320-334 | the results of the lines are those of all but the last line, followed by the last line's result when it parses |
| `Search.VideoResultsReadBack` | Jellyfin.Plugin.YoutubeMetadata/Utils.cs:195-218 | printing a list of results and reading the lines back gives the list |
| `Search.SearchVideos` | Jellyfin.Plugin.YoutubeMetadata/Utils.cs:204-219 | the loop appending parsed lines computes the video results |
| `Search.SearchChannels` | Jellyfin.Plugin.YoutubeMetadata/Utils.cs:320-335 | the loop appending parsed lines computes the channel results |
| `Search.KeepLongCount` | Jellyfin.Plugin.YoutubeMetadata/Utils.cs:289 | each piece longer than one character is kept exactly as many times as it occurs, and no shorter piece is kept |
| `Search.KeepLongAppend` | Jellyfin.Plugin.YoutubeMetadata/Utils.cs:289 | the filter works piece by piece: filtering a concatenation concatenates the filtered parts, so the order of the pieces is kept |
| `Search.KeepLongAllLong` | Jellyfin.Plugin.YoutubeMetadata/Utils.cs:289 | pieces that are all longer than one character are kept unchanged |
| `Search.Tokenize` | Jellyfin.Plugin.YoutubeMetadata/Utils.cs:286-291 | a token is exactly a space-split piece of two or more characters, kept as many times as the piece occurs; no token holds a space |
| `Search.Ratio` | Jellyfin.Plugin.YoutubeMetadata/Utils.cs:282-283 | the overlap ratio lies in [0, 1] |
| `Search.ScoreNormalized` | Jellyfin.Plugin.YoutubeMetadata/Utils.cs:260-283 | the score is 10, 8, or in [0, 1]; 0 when either normalized text is blank; the token-overlap score when neither is blank, they differ and the candidate does not contain the query |
| `Search.Score` | Jellyfin.Plugin.YoutubeMetadata/Utils.cs:255-284 | the score of any query and candidate is 10, 8, or in [0, 1]; 0 when either side is blank after cleanup and lower-casing; otherwise, past equality and containment, the token-overlap score |
| `Search.ElementsCount` | Jellyfin.Plugin.YoutubeMetadata/Utils.cs:282 | a token list has at most as many distinct tokens as entries, equally many exactly when they are distinct |
| `Search.OverlapBound` | Jellyfin.Plugin.YoutubeMetadata/Utils.cs:282-283 | the overlap never exceeds the query's token count |
| `Search.OverlapFullIff` | Jellyfin.Plugin.YoutubeMetadata/Utils.cs:282-283 | the overlap equals the query's token count exactly when the query tokens are distinct and all in the candidate |
| `Search.ScoreTenIff` | Jellyfin.Plugin.YoutubeMetadata/Utils.cs:260-268 | 10 exactly when the normalized texts are equal and not blank |
| `Search.ScoreEightIff` | Jellyfin.Plugin.YoutubeMetadata/Utils.cs:260-273 | 8 exactly when neither is blank, they differ, and the candidate contains the query |
| `Search.RatioOneIff` | Jellyfin.Plugin.YoutubeMetadata/Utils.cs:282-283 | the ratio is 1 exactly when the query tokens are distinct and all in the candidate |
| `Search.ScoreOneIff` | Jellyfin.Plugin.YoutubeMetadata/Utils.cs:275-283 | past the equality and containment tiers, the score is 1 exactly when the query tokens are non-empty, distinct and all in the candidate |
| `Search.TwoWordsTokens` | Jellyfin.Plugin.YoutubeMetadata/Utils.cs:286-291 | two lower-case words joined by a space tokenize to the two words |
| `Search.SameLengthNotContained` | Jellyfin.Plugin.YoutubeMetadata/Utils.cs:270 | a different text of the same length is not contained |
| `Search.SwappedWordsScoreOne` | Jellyfin.Plugin.YoutubeMetadata/Utils.cs:255-284 | "a b" against "b a" scores exactly 1, so the token tier reaches 1 |
| `Search.RepeatedQueryTokenScore` | Jellyfin.Plugin.YoutubeMetadata/Utils.cs:275-283 | on normalized texts, a word said twice plus another word, against the first word alone, scores 1/3: a repeated query token counts once in the overlap and twice in the divisor |
| `Search.RepeatedQueryTokenExample` | Jellyfin.Plugin.YoutubeMetadata/Utils.cs:275-283 | "ab ab cd" against "ab" scores 1/3 |
| `Search.ShowDailyExample` | Jellyfin.Plugin.YoutubeMetadata/Utils.cs:255-284 | "show daily" against "daily show" scores 1 |
| `Search.ClampLimit` | Jellyfin.Plugin.YoutubeMetadata/Utils.cs:228 | the limit lies in [1, 25], is kept inside that range, and is raised to 1 or lowered to 25 outside it |
| `Search.Ranks` | Jellyfin.Plugin.YoutubeMetadata/Utils.cs:241-244 | one rank per result: its score and its title length, with a null title counted as `int.MaxValue` |
| `Search.First` | Jellyfin.Plugin.YoutubeMetadata/Utils.cs:243-245 | the chosen index is ranked before or level with every result, and strictly before every earlier one (the stable sort keeps the first of equals) |
| `Search.FirstIsUnique` | Jellyfin.Plugin.YoutubeMetadata/Utils.cs:243-245 | the index with those two properties is unique |
| `Search.FirstIsTop` | Jellyfin.Plugin.YoutubeMetadata/Utils.cs:243-245 | the chosen result has the highest score and, among those, the shortest title |
| `Search.SearchRequest` | Jellyfin.Plugin.YoutubeMetadata/Utils.cs:228-235 | no search is made exactly when the cleaned query is blank; otherwise the search gets the cleaned query and the clamped limit |
| `Search.SelectBest` | Jellyfin.Plugin.YoutubeMetadata/Utils.cs:236-252 | no result exactly when the list is empty; otherwise the result is one of the listed results |
| `Search.SearchBestVideoMatch` | Jellyfin.Plugin.YoutubeMetadata/Utils.cs:222-253 | a blank cleaned query gives null without searching; otherwise the choice among the results of searching for the cleaned query with the clamped limit |
| `Search.SelectBestWithoutPositiveScore` | Jellyfin.Plugin.YoutubeMetadata/Utils.cs:247-250 | when no result scores above 0, the first result is returned |
| `Search.SelectBestWithPositiveScore` | Jellyfin.Plugin.YoutubeMetadata/Utils.cs:241-252 | when some result scores above 0, the top-ranked, first-listed result is returned |
| `Cache.WholeDays` | Jellyfin.Plugin.YoutubeMetadata/Utils.cs:42 | `TimeSpan.Days`: the whole days of a tick span, truncated toward zero |
| `Cache.IsFresh` | Jellyfin.Plugin.YoutubeMetadata/Utils.cs:40-47 | fresh exactly when the file exists and less than 11 whole days have passed |
| `Cache.FreshAfterTenDaysAndOneSecond` | Jellyfin.Plugin.YoutubeMetadata/Utils.cs:42 | ten days and a second after the write the record is still fresh |
| `Cache.StaleFromElevenDays` | Jellyfin.Plugin.YoutubeMetadata/Utils.cs:42 | from eleven days on the record is stale |
| `Cache.FutureWriteIsFresh` | Jellyfin.Plugin.YoutubeMetadata/Utils.cs:42 | a write time in the future counts as fresh |
| `Cache.MissingIsNeverFresh` | Jellyfin.Plugin.YoutubeMetadata/Utils.cs:42 | a missing file is never fresh |
| `Cache.FreshnessIsMonotone` | Jellyfin.Plugin.YoutubeMetadata/Utils.cs:42 | a record fresh at some time was fresh at every earlier time |
| `Configuration.MissingConfigurationIsDefault` | Jellyfin.Plugin.YoutubeMetadata/Configuration/PluginConfiguration.cs:41-42 | a null configuration reads like the default one for auto-indexing and uploader preference |
| `Refiner.DefaultConfigurationRefinesNothing` | Jellyfin.Plugin.YoutubeMetadata/AiMetadataRefiner.cs:23-31 | with the default configuration the step is gated: no request is built and nothing changes |
| `Configuration.DefaultConfigurationDisablesAi` | Jellyfin.Plugin.YoutubeMetadata/Configuration/PluginConfiguration.cs:43-47 | by default AI cleanup is off and the key is empty, while a model is set |
| `Dates.DaysInMonth` | Jellyfin.Plugin.YoutubeMetadata/Utils.cs:438 | every month has 28 to 31 days |
| `Dates.FormatDate` | Jellyfin.Plugin.YoutubeMetadata/Utils.cs:563 | `yyyyMMdd` is eight digits |
| `Dates.ParseExactDate` | Jellyfin.Plugin.YoutubeMetadata/Utils.cs:438 | a parsed date is valid and formats back to exactly the text parsed |
| `Dates.ParseFormatRoundTrip` | Jellyfin.Plugin.YoutubeMetadata/Utils.cs:438 | parsing a formatted valid date gives the date back |
| `Dates.ParseExactDateIff` | Jellyfin.Plugin.YoutubeMetadata/Utils.cs:438 | a text parses to a date exactly when the date is valid and the text is its `yyyyMMdd` form |
| `Dates.ParseExactDateOfDigits` | Jellyfin.Plugin.YoutubeMetadata/Utils.cs:438 | eight digits parse as year, month and day when those form a valid date, and fail otherwise |
| `Dates.UploadDate` | Jellyfin.Plugin.YoutubeMetadata/Utils.cs:435-443 | the date is always valid: 1970-01-01 when parsing fails, otherwise the date the text spells |
| `Dates.LeapDayExample` | Jellyfin.Plugin.YoutubeMetadata/Utils.cs:435-443 | "20240229" is 29 February 2024 |
| `Dates.MissingDayExample` | Jellyfin.Plugin.YoutubeMetadata/Utils.cs:435-443 | "20230229" falls back to 1970-01-01 |
| `Episodes.SeasonEpisodeAt` | Jellyfin.Plugin.YoutubeMetadata/Utils.cs:38 | the engine's match of `s(\d{1,2})e(\d{1,3})` at a position: a match of the pattern; the only season width that lets `e` follow, and the longest episode group; none when the pattern cannot match there |
| `Episodes.EpisodeFrom` | Jellyfin.Plugin.YoutubeMetadata/Utils.cs:36 | a match found from alternative a on uses an alternative at or after a and is a match of the episode pattern: "episode", "folge", "ep." or "ep" in either case, white space, then one to four digits |
| `Episodes.CompletionsAfterPrefix` | Jellyfin.Plugin.YoutubeMetadata/Utils.cs:36 | after a prefix, every completion takes all the white space and at most four digits |
| `Episodes.CompletionIsGreediest` | Jellyfin.Plugin.YoutubeMetadata/Utils.cs:36 | an alternative that can be completed is completed with all the white space and the most digits any match of it has; one that cannot has no match at that position |
| `Episodes.EpisodeFromIsEngineChoice` | Jellyfin.Plugin.YoutubeMetadata/Utils.cs:36 | the match taken is the first alternative that completes, with the greediest completion; none when no alternative completes |
| `Episodes.FirstMatch` | Jellyfin.Plugin.YoutubeMetadata/Utils.cs:491 | `Regex.Match`: the leftmost position that matches, none when no position does |
| `Episodes.FirstMatchIs` | Jellyfin.Plugin.YoutubeMetadata/Utils.cs:491 | a matching position with no earlier match is the leftmost match |
| `Episodes.FirstMatchNone` | Jellyfin.Plugin.YoutubeMetadata/Utils.cs:491 | with no matching position there is no match |
| `Episodes.SeasonEpisodeValue` | Jellyfin.Plugin.YoutubeMetadata/Utils.cs:492 | the episode group reads as at most 999 |
| `Episodes.EpisodeValue` | Jellyfin.Plugin.YoutubeMetadata/Utils.cs:498 | the number group reads as at most 9999 |
| `Episodes.EpisodeNumber` | Jellyfin.Plugin.YoutubeMetadata/Utils.cs:484-504 | blank titles give none; a number is at most 9999 |
| `Episodes.Scan` | Jellyfin.Plugin.YoutubeMetadata/Utils.cs:491 | the scanning loop finds the leftmost matching position |
| `Episodes.MatchSeasonEpisode` | Jellyfin.Plugin.YoutubeMetadata/Utils.cs:491 | the scan finds the leftmost season/episode match |
| `Episodes.MatchEpisode` | Jellyfin.Plugin.YoutubeMetadata/Utils.cs:497 | the scan finds the leftmost episode match |
| `Episodes.ExtractEpisodeNumber` | Jellyfin.Plugin.YoutubeMetadata/Utils.cs:484-504 | the method computes the episode number of the specification function |
| `Episodes.FirstMatchAgrees` | Jellyfin.Plugin.YoutubeMetadata/Utils.cs:491 | two match predicates that agree on every position have the same leftmost match |
| `Episodes.SeasonEpisodeAtIgnoresCase` | Jellyfin.Plugin.YoutubeMetadata/Utils.cs:38 | lower-casing the title does not change the season/episode match at any position (`IgnoreCase`) |
| `Episodes.EpisodeFromIgnoresCase` | Jellyfin.Plugin.YoutubeMetadata/Utils.cs:36 | lower-casing the title does not change the episode match at any position |
| `Episodes.EpisodeNumberIgnoresCase` | Jellyfin.Plugin.YoutubeMetadata/Utils.cs:36-38 | the episode number of a title equals that of its lower-cased form |
| `Episodes.SeasonEpisodeTakesPriority` | Jellyfin.Plugin.YoutubeMetadata/Utils.cs:491-495 | a season/episode match anywhere decides the number, whatever episode phrase comes earlier |
| `Episodes.EpisodeShapeFound` | Jellyfin.Plugin.YoutubeMetadata/Utils.cs:497 | an episode match anywhere gives a leftmost match no later than it |
| `Episodes.EpisodeNumberFoundIff` | Jellyfin.Plugin.YoutubeMetadata/Utils.cs:484-504 | a number is found exactly when the title is not blank and one of the two patterns matches somewhere |
| `Episodes.SeasonEpisodeExample` | Jellyfin.Plugin.YoutubeMetadata/Utils.cs:484-504 | "Show S02E07 Extra" gives 7 |
| `Episodes.EpisodeExample` | Jellyfin.Plugin.YoutubeMetadata/Utils.cs:484-504 | "Episode 12 - Something" gives 12 |
| `Episodes.PriorityExample` | Jellyfin.Plugin.YoutubeMetadata/Utils.cs:484-504 | "ep 3 S01E02" gives 2, though the episode pattern matches at its start |
| `Episodes.NoNumberExample` | Jellyfin.Plugin.YoutubeMetadata/Utils.cs:484-504 | "Random Title" gives none |
| `Episodes.DeepMatch` | Jellyfin.Plugin.YoutubeMetadata/Utils.cs:36 | in "deep 3" the unanchored episode pattern matches the "ep" inside "deep" |
| `Episodes.DeepExample` | Jellyfin.Plugin.YoutubeMetadata/Utils.cs:484-504 | "deep 3" gives 3 |
| `Mapping.CreatePerson` | Jellyfin.Plugin.YoutubeMetadata/Utils.cs:121-132 | a director with the given name; the provider ids are empty exactly when the channel id is null, and otherwise map only the plugin name to the channel id |
| `Mapping.CreatePersonKeepsChannel` | Jellyfin.Plugin.YoutubeMetadata/Utils.cs:127-130 | a channel id is stored under the plugin name |
| `Mapping.YTDLJsonToMovie` | Jellyfin.Plugin.YoutubeMetadata/Utils.cs:425-449 | name and overview from the record, premiere date and year from the upload date with the 1970 fallback, the uploader as director, the video id under the plugin name |
| `Mapping.MusicVideoName` | Jellyfin.Plugin.YoutubeMetadata/Utils.cs:464 | the track unless it is null or empty, else the title |
| `Mapping.WhiteSpaceTrackIsKept` | Jellyfin.Plugin.YoutubeMetadata/Utils.cs:464 | a white-space track is still used (the test is for empty, not blank) |
| `Mapping.YTDLJsonToMusicVideo` | Jellyfin.Plugin.YoutubeMetadata/Utils.cs:456-482 | the music video name, artist, album, overview, dates, director and provider id |
| `Mapping.EpisodeName` | Jellyfin.Plugin.YoutubeMetadata/Utils.cs:551 | the title when it is not blank; the fallback title (possibly null) when the title is null or white space |
| `Mapping.EpisodeIndex` | Jellyfin.Plugin.YoutubeMetadata/Utils.cs:566-570 | in 0..9999; the number found in the name when auto-indexing is on and one is found; 1 when auto-indexing is off, the name is blank, or no number is found |
| `Mapping.MissingConfigurationIndexes` | Jellyfin.Plugin.YoutubeMetadata/Utils.cs:567 | with no configuration, a found episode number is used |
| `Mapping.AutoIndex` | Jellyfin.Plugin.YoutubeMetadata/Utils.cs:566-570 | the number found in the name when auto-indexing is on (the default without a configuration), otherwise 1 |
| `Mapping.YTDLJsonToEpisode` | Jellyfin.Plugin.YoutubeMetadata/Utils.cs:539-574 | name, overview defaulting to "", dates, sort name `yyyyMMdd-name`, director, index number, parent index 1, video id under the plugin name |
| `Mapping.ForcedSortNameStartsWithDate` | Jellyfin.Plugin.YoutubeMetadata/Utils.cs:563 | the sort name starts with eight digits and a dash, and the digits parse back to the premiere date |
| `Mapping.GetSeriesNameFromVideo` | Jellyfin.Plugin.YoutubeMetadata/Utils.cs:506-532 | the name is "" exactly when uploader, playlist title and fallback name are all null or white space, and is otherwise not blank |
| `Mapping.SeriesNameIsACandidate` | Jellyfin.Plugin.YoutubeMetadata/Utils.cs:506-532 | the series name is the uploader, the playlist title, the fallback name or ""; it is blank exactly when all three are |
| `Mapping.SeriesNamePrecedence` | Jellyfin.Plugin.YoutubeMetadata/Utils.cs:511-529 | each of the five steps: a usable uploader when preferred; else a usable playlist title; else (not preferred or no uploader) a usable uploader when the playlist title is blank; else a usable fallback name when uploader and playlist title are both blank; else "" when all three are blank |
| `Mapping.SeriesPreferenceMatters` | Jellyfin.Plugin.YoutubeMetadata/Utils.cs:511-524 | the preference changes the name only when both uploader and playlist title are present and differ |
| `Mapping.SeriesOverview` | Jellyfin.Plugin.YoutubeMetadata/Utils.cs:594 | never blank; the description when it is not blank; exactly "Series metadata from YouTube." when it is null or white space |
| `Mapping.YTDLJsonToSeries` | Jellyfin.Plugin.YoutubeMetadata/Utils.cs:581-597 | the name chosen with the configured preference, the overview, and the channel id (not the video id) under the plugin name |
| `Refiner.SanitizedBase` | Jellyfin.Plugin.YoutubeMetadata/AiMetadataRefiner.cs:65-70 | a blank base URL becomes the OpenAI default; any other base is its trimmed text with exactly its trailing slashes removed: a prefix of the trimmed text, followed there only by slashes, and not ending in `/` |
| `Refiner.BuildEndpoint` | Jellyfin.Plugin.YoutubeMetadata/AiMetadataRefiner.cs:65-71 | the endpoint always ends in "/chat/completions"; a blank base gives "https://api.openai.com/v1/chat/completions" |
| `Refiner.EndpointIgnoresTrailingSlashes` | Jellyfin.Plugin.YoutubeMetadata/AiMetadataRefiner.cs:70 | any number of slashes appended to a base gives the same endpoint |
| `Refiner.EndpointOfPlainBase` | Jellyfin.Plugin.YoutubeMetadata/AiMetadataRefiner.cs:65-71 | a base with non-space ends and no final slash, followed by any number of slashes, gives the base plus "/chat/completions" |
| `Refiner.EndpointExample` | Jellyfin.Plugin.YoutubeMetadata/AiMetadataRefiner.cs:65-71 | "https://x/v1" gives "https://x/v1/chat/completions" |
| `Refiner.EndpointIgnoresLeadingSpace` | Jellyfin.Plugin.YoutubeMetadata/AiMetadataRefiner.cs:69 | white space before the base URL does not change the endpoint |
| `Refiner.EndpointKeepsSpaceBeforeSlash` | Jellyfin.Plugin.YoutubeMetadata/AiMetadataRefiner.cs:70 | the trim comes before the slash removal, so a space before a final slash stays in the endpoint |
| `Refiner.BuildRequestPayload` | Jellyfin.Plugin.YoutubeMetadata/AiMetadataRefiner.cs:73-94 | the configured model, then a system message and a user message carrying the prompts |
| `Refiner.SystemPromptsDiffer` | Jellyfin.Plugin.YoutubeMetadata/AiMetadataRefiner.cs:75-77 | the description-cleanup flag selects one of two different system prompts |
| `Refiner.UserPromptLayout` | Jellyfin.Plugin.YoutubeMetadata/AiMetadataRefiner.cs:78-80 | the user prompt opens with "Title:\n" and the title, closes with the JSON instruction, and treats null as "" |
| `Refiner.ExtractJsonObject` | Jellyfin.Plugin.YoutubeMetadata/AiMetadataRefiner.cs:132-142 | "" exactly when there is no `{`, no `}`, or the last `}` comes before the first `{`; otherwise a slice of the text from its first `{` to its last `}` |
| `Refiner.ExtractJsonObjectIdempotent` | Jellyfin.Plugin.YoutubeMetadata/AiMetadataRefiner.cs:132-142 | extracting twice gives what extracting once gives |
| `Refiner.RefinedFromObject` | Jellyfin.Plugin.YoutubeMetadata/AiMetadataRefiner.cs:116-129 | a returned pair never has both title and description blank |
| `Refiner.ParseRefinedPayload` | Jellyfin.Plugin.YoutubeMetadata/AiMetadataRefiner.cs:96-130 | a returned pair never has both title and description blank |
| `Refiner.NoChoicesNoResult` | Jellyfin.Plugin.YoutubeMetadata/AiMetadataRefiner.cs:98-102 | a reply with missing, non-array or empty `choices` gives no result |
| `Refiner.ReplyContent` | Jellyfin.Plugin.YoutubeMetadata/AiMetadataRefiner.cs:104 | the message content of the first choice is read |
| `Refiner.StringObject` | Jellyfin.Plugin.YoutubeMetadata/AiMetadataRefiner.cs:117-122 | a missing title or description reads as "" |
| `Refiner.UnusableContentNoResult` | Jellyfin.Plugin.YoutubeMetadata/AiMetadataRefiner.cs:104-114 | a first choice whose content is null or white space, or whose extracted object is blank, gives no result |
| `Refiner.UnusableReplyNoResult` | Jellyfin.Plugin.YoutubeMetadata/AiMetadataRefiner.cs:104-114 | a reply whose content is blank or holds no `{ ... }` span gives no result |
| `Refiner.WellFormedReply` | Jellyfin.Plugin.YoutubeMetadata/AiMetadataRefiner.cs:96-130 | a well-formed reply gives its title and description, unless both are blank |
| `Refiner.RefineRequest` | Jellyfin.Plugin.YoutubeMetadata/AiMetadataRefiner.cs:23-39 | no request exactly when AI cleanup is off or the key or the model is blank; otherwise it carries the key, the model and the endpoint |
| `Refiner.TryRefine` | Jellyfin.Plugin.YoutubeMetadata/AiMetadataRefiner.cs:15-63 | a gated step gives no change; a returned pair never has both parts blank |
| `Refiner.TryRefineSomeIff` | Jellyfin.Plugin.YoutubeMetadata/AiMetadataRefiner.cs:23-56 | a pair comes back exactly when the step is not gated, the reply has a success status, and its body reads as that pair |
| `Refiner.FailuresAreNoChange` | Jellyfin.Plugin.YoutubeMetadata/AiMetadataRefiner.cs:41-62 | a failed send, a non-success status, or an exception while reading the reply all give no change |
| `Refiner.RequestContents` | Jellyfin.Plugin.YoutubeMetadata/AiMetadataRefiner.cs:35-39 | the request goes to the chat-completions endpoint with the system and user prompts |

## Behaviours worth noting

- `CleanupSearchText` is not idempotent: removing an id token can splice a new one together (`Identifiers.CleanupNotIdempotentExample`). Cleaning is idempotent exactly when no id token is left (`Identifiers.CleanupIdempotentIff`).
- `TimeSpan.Days` truncates, so a record ten days and one second old is still fresh; records go stale only from eleven days (`Cache.FreshAfterTenDaysAndOneSecond`, `Cache.StaleFromElevenDays`).
- The token-overlap score reaches 1 when the words are reordered (`Search.ShowDailyExample`), and a repeated query token lowers it (`Search.RepeatedQueryTokenExample`).
- The cached record of a video is the file `ytvideo.info.json` in the video's cache directory (`Identifiers.GetVideoInfoPath`).
- The doc comment of `GetYTID` (Utils.cs:50) says it takes the last bracketed id. `Regex.Match` takes the leftmost, and the model follows the code (`Identifiers.GetYTIDTakesLeftmostVideoId`).
- `base` and `base + "/"` give the same endpoint only when `base` does not end in white space. The trim comes before the slash removal (`Refiner.EndpointKeepsSpaceBeforeSlash`).

## Left out

- The yt-dlp process calls are left out because they are external processes. This covers the download and option setting of `SearchVideos` and `SearchChannels`, as well as `SearchChannel`, `ValidCookie`, `GetChannelInfo` and `YTDLMetadata` (Utils.cs:146-405); only the parsing of the lines they print is modelled.
- The cookie-file checks are left out because they are file-system existence tests.
- `ReadYTDLInfo` (file reading and JSON deserialisation into `YTDLData`) is left out: it is I/O. `YTDLData` is a datatype with the ten fields the mappers read.
- `JsonDocument.Parse` and the serialization of the request body are left out: they are library code. The parser is the parameter `parse`, and the body is the `ChatRequest` value before serialization.
- Duplicate JSON property names are left out because a `map` keeps one value per name.
- `Refiner.TryRefine`: a null configuration is not modelled. `TryRefineAsync` reads `config.EnableAiMetadataCleanup` before its `try` (AiMetadataRefiner.cs:23), so a null configuration throws to the caller; the model takes a configuration value, which is never null.
- `Refiner.RefineRequest`: the configuration is a value, for the same reason as `Refiner.TryRefine` above.
- HTTP, logging and cancellation in `TryRefineAsync` are not modelled as such. Sending the request and reading the body are the parameter `send`, and `Failed` stands for any exception there, a cancellation included.
- The request's `Temperature = 0.2` (AiMetadataRefiner.cs:85) is left out because it is a floating-point constant that nothing reasons about.
- The `application/json` content type and the UTF-8 encoding of the request are left out because they are transport details.
- `DateTime.UtcNow` is left out because it is a clock: `IsFresh` takes the current time and the write time in ticks.
- `Path.Combine`, `Path.GetFileNameWithoutExtension` and `Path.GetInvalidFileNameChars` are simplified because they are platform library functions:
  - paths are joined with `/`;
  - the file stem is the text after the last `/`, up to its last `.`;
  - the invalid characters are a parameter.
- `Search.Score`: `ToLowerInvariant` is modelled on ASCII letters only, because Unicode case mapping is not modelled.
- `Episodes.EpisodeNumber`: `IgnoreCase` is modelled on ASCII letters only, and `\s` and `[0-9]` on ASCII only, because Unicode categories are not modelled.
- `Identifiers.CleanupSearchText`: `\s` and `Trim` are modelled on ASCII white space only, because Unicode categories are not modelled.
- `Dates.FormatDate`: the culture-dependent `ToString("yyyyMMdd")` at Utils.cs:563 is modelled with the invariant Gregorian calendar, because cultures are not modelled.
- `Mapping.AddPerson`: the host's `MetadataResult.AddPerson` is modelled as appending to a list of people, since the host's types are not part of this model. The host entity types keep only the fields the mappers set.
- `YoutubeLocalMovieProvider` is left out because it only delegates to `YTDLJsonToMovie`, and its base class is not part of this model.
- `Constants.cs` has no logic of its own: its plugin name is a constant in `Configuration` and its two id patterns are the predicate `Identifiers.BracketedIdAt`. Its URL constants belong to the yt-dlp calls, which are left out.
- The other settings of `PluginConfiguration` (id type, title lookup, result limit) are kept as fields with their defaults. No operation in this model reads them.
