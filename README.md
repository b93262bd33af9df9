# SEO search scraper: a Dafny model

This project models the core of the SEO search back end. Its one endpoint, `SEOSearchController.Get`, works in steps:

1. It reads four request headers: the search text, the target URL, the number of results to check and the engine code.
2. It picks the engine's `SearchEngineMapper` from a fixed table of Google, Yahoo and Bing.
3. It builds the engine's query URL and fetches the results page.
4. It keeps the page from its first `"<body"` on, finds every occurrence of the engine's marker class, and takes the text between the next `'>'` and the following `'<'` as one result.
5. It trims that text and drops empty results.
6. It ranks the results that contain the normalised target URL.

The outcome is an `SEOSearchEntity` record or an exception.

Modules:

- `Wrappers`: `Option` and `Result`.
- `Faults`: the exceptions the code lets escape, one constructor per throw site.
- `DotNetStrings`: the ordinal .NET string operations the code relies on. These are `IndexOf` (it answers -1 for "not found"), `Contains`, `Replace` (left to right, non-overlapping, never rescanning its own output), `Trim` (over `char.IsWhiteSpace`), `ToLower`, `int.ToString` and `String.Join`.
- `Entities`: the `SearchEngineType` enum with its integer codes and `Enum.GetName`, the `SearchEngineMapper` record and the `SEOSearchEntity` record.
- `Scanning`: `GetAllIndexesOf`, a loop proved against the specification function `Occurrences`. The module proves that `Occurrences` reports sound, ordered and non-overlapping positions and that it misses none except overlapped ones. It also proves that `Replace` takes its steps at exactly those positions: it copies up to the next reported one, writes the replacement there and resumes just past it.
- `Extraction`: the body truncation and the per-occurrence candidate text. This includes the exception raised when no `'>'` follows a marker, the loop that collects candidates (proved against `Candidates`) and the empty-string filter.
- `Ranking`: the target normalisation and the ranking loop, which is proved against the specification function `Matches` (the 1-based positions of the matching candidates, in order).
- `SearchController`: the engine table, the query URL, the scoring of a page (`ProcessPage`), `GetSearchResults` (`SearchResults`) and `Get` (`Respond`). The controller is a class: its engine table is a field. Its two methods run the source's steps and are proved equal to the specification functions. The lemmas beside them state what a record means.

Three steps of the real code become parameters: the URL encoder `encode`, the HTTP request `fetch` (it answers `Page(html)` or `Failed`) and the clock `now`. The header lookup and `Int32.Parse` become `parse`. It answers the parsed values, or the message of the exception that one of them raised.

### Behaviour worth knowing

Each point below is what the code does, where a reader might expect something else:

- **No matches.** The match count is 1, not 0, when nothing matches: the rankings hold the sentinel `"0"`. See `RankedRecord`.
- **Success without results.** A record can report `Success` while counting zero results and carrying the missing-marker message. See `SuccessWithoutResults`.
- **Some failures escape as exceptions** instead of becoming unsuccessful records:
  - no page body (`NoBodyThrows`);
  - a transport failure other than a 302 redirect;
  - a marker with no `'>'` after it, where `IndexOf("<", -1)` throws (`CandidatesFailIff`);
  - a null search string or target header.
- **Where `'>'` is searched from.** The search starts at the marker occurrence itself. A candidate is everything between the first `'>'` at or after the occurrence and the next `'<'`, so it may itself contain `'>'` (`CandidateAtCases`). For the page `<body><a>xMARKy</a>z>r1<w MARK>r2<e></body>` with marker `MARK`, the two candidates are therefore `z>r1` and `r2`, not the `r1` and `r2` one might expect.
- **Normalisation.** It removes `"http://"`, `"https://"` and `"www."` wherever they occur, not just as a prefix. It is not idempotent (`NormalizeTargetNotIdempotent`).
- **Stored target.** The record keeps the raw target URL, not the normalised one (`SearchResultsStamps`).
- **Engine name.** It is `Enum.GetName`: `"Unassigned"` for code 0 and null for an undefined code (`UnmappedEngineRecord`). The `EngineType` field is never set, so it stays `Unassigned`.
- **Cache.** The code keeps no cache of results, although a unit test (`TestGoogleCachedResult`) expects one.

## Model

| member | source | states |
|---|---|---|
| DotNetStrings.IndexOf | SympliTaskBackend/Controllers/SEOSearchController.cs:210 | The answer is -1 or an occurrence of the pattern at or after the start position. |
| DotNetStrings.IndexOfFirst | SympliTaskBackend/Controllers/SEOSearchController.cs:210 | The answer is the first occurrence: none lies between the start and the answer. On -1, none lies anywhere after the start. |
| DotNetStrings.ContainsMeansOccurs | SympliTaskBackend/Controllers/SEOSearchController.cs:135 | `Contains` holds exactly when the pattern occurs somewhere. |
| DotNetStrings.EmptyPatternFoundAtCursor | SympliTaskBackend/Controllers/SEOSearchController.cs:208-210 | An empty pattern is found at the cursor itself, so a scan for it never advances. |
| DotNetStrings.Trim | SympliTaskBackend/Controllers/SEOSearchController.cs:156 | `Trim` never lengthens its input. Its meaning is stated by `TrimSpec`. |
| DotNetStrings.TrimIsMiddle | SympliTaskBackend/Controllers/SEOSearchController.cs:156 | Unless the text is all whitespace, `Trim` keeps the slice between the longest whitespace prefix and the longest whitespace suffix, and that slice starts and ends with non-whitespace. |
| DotNetStrings.LeadingWhiteSpaceIsLongest | SympliTaskBackend/Controllers/SEOSearchController.cs:156 | The counted prefix is all whitespace, and the character after it is not. |
| DotNetStrings.TrailingWhiteSpaceIsLongest | SympliTaskBackend/Controllers/SEOSearchController.cs:156 | The counted suffix is all whitespace, and the character before it is not. |
| DotNetStrings.TrimSpec | SympliTaskBackend/Controllers/SEOSearchController.cs:156 | `Trim` is empty exactly for all-whitespace text. Otherwise it neither starts nor ends with whitespace, and it is the slice of the input between a whitespace prefix and a whitespace suffix. |
| DotNetStrings.TrimAllWhiteSpace | SympliTaskBackend/Controllers/SEOSearchController.cs:156 | All-whitespace text trims to the empty string. |
| DotNetStrings.TrimNotAllWhiteSpace | SympliTaskBackend/Controllers/SEOSearchController.cs:156 | Other text trims to its non-blank slice between the leading and trailing whitespace. |
| DotNetStrings.TrimKeepsCharacters | SympliTaskBackend/Controllers/SEOSearchController.cs:156 | Trimming introduces no character. |
| DotNetStrings.LowerChar | SympliTaskBackend/Controllers/SEOSearchController.cs:164 | No capital is left. The result is a small letter exactly when the input is a letter, and a capital becomes the small letter at the same position in the alphabet. Every other character is kept. |
| DotNetStrings.LowerCharIdempotent | SympliTaskBackend/Controllers/SEOSearchController.cs:164 | Lower-casing an already lower-cased character changes nothing. |
| DotNetStrings.ToLower | SympliTaskBackend/Controllers/SEOSearchController.cs:172 | The result has the same length, lower-cases character by character and has no capital left. |
| DotNetStrings.ToLowerOfLower | SympliTaskBackend/Controllers/SEOSearchController.cs:164 | Text with no capital is unchanged. |
| DotNetStrings.ToLowerIdempotent | SympliTaskBackend/Controllers/SEOSearchController.cs:172 | Lower-casing twice is the same as lower-casing once. |
| DotNetStrings.ReplaceFrom | SympliTaskBackend/Controllers/SEOSearchController.cs:164 | The definition of `Replace` from a cursor on: it scans left to right, replaces each occurrence that does not overlap an earlier replaced one, and never rescans its own output. `ReplaceAtFirst` and `ReplaceAtReportedPositions` state how it proceeds. |
| DotNetStrings.Replace | SympliTaskBackend/Controllers/SEOSearchController.cs:164 | `ReplaceFrom` from position 0. |
| DotNetStrings.ReplaceAtFirst | SympliTaskBackend/Controllers/SEOSearchController.cs:164 | Replace copies up to the first occurrence after the cursor, writes the replacement there and resumes just past it. With no occurrence it copies everything. |
| DotNetStrings.RemoveKeepsCharacters | SympliTaskBackend/Controllers/SEOSearchController.cs:164 | Removing a pattern only drops characters. |
| DotNetStrings.ReplaceWithoutOccurrence | SympliTaskBackend/Controllers/SEOSearchController.cs:164 | Replace leaves text with no occurrence unchanged. |
| DotNetStrings.ReplaceSkips | SympliTaskBackend/Controllers/SEOSearchController.cs:164 | A stretch in which no occurrence starts is copied unchanged. |
| DotNetStrings.ReplaceOnce | SympliTaskBackend/Controllers/SEOSearchController.cs:99 | With a single occurrence, Replace swaps exactly that stretch. |
| DotNetStrings.ReplaceInConcat | SympliTaskBackend/Controllers/SEOSearchController.cs:99-100 | For `pre + pat + post` with no other occurrence, Replace swaps just the middle. |
| DotNetStrings.IntToString | SympliTaskBackend/Controllers/SEOSearchController.cs:99 | `int.ToString` is never empty and produces only digits and a minus sign. |
| DotNetStrings.NatToStringRoundTrip | SympliTaskBackend/Controllers/SEOSearchController.cs:186 | Reading back the decimal rendering of a rank gives the rank. |
| DotNetStrings.JoinInts | SympliTaskBackend/Controllers/SEOSearchController.cs:186 | `String.Join` is empty exactly for an empty list. |
| DotNetStrings.JoinIntsAppend | SympliTaskBackend/Controllers/SEOSearchController.cs:186 | Joining one more number appends the separator and that number's rendering. |
| Entities.Code | SympliTaskBackend/Entities/SEOSearchEntities.cs:20-26 | The enum's codes are 0 to 3, in declaration order. |
| Entities.FromCode | SympliTaskBackend/Entities/SEOSearchEntities.cs:20-26 | An integer names a member exactly when it is in 0 to 3. |
| Entities.CodeRoundTrip | SympliTaskBackend/Entities/SEOSearchEntities.cs:20-26 | Member to code to member, and code to member to code, are identities. |
| Entities.EngineName | SympliTaskBackend/Controllers/SEOSearchController.cs:80 | `Enum.GetName` gives a name exactly for defined codes and null otherwise. |
| Scanning.Occurrences | SympliTaskBackend/Controllers/SEOSearchController.cs:199-215 | The specification of the scan: the first occurrence at or after the cursor, then the same again just past it. Its meaning is stated by `OccurrencesSound`, `OccurrencesStep` and `OccurrencesComplete`. |
| Scanning.OccurrencesSound | SympliTaskBackend/Controllers/SEOSearchController.cs:199-215 | Every reported index is a real occurrence at or after the cursor. Neighbours are at least the marker's length apart. |
| Scanning.OccurrencesStep | SympliTaskBackend/Controllers/SEOSearchController.cs:208-213 | Each index is the first occurrence after the previous one plus the marker's length. The list ends exactly when that search fails. |
| Scanning.OccurrencesComplete | SympliTaskBackend/Controllers/SEOSearchController.cs:199-215 | Every occurrence is reported unless it overlaps an earlier reported one. |
| Scanning.OccurrencesEmptyIff | SympliTaskBackend/Controllers/SEOSearchController.cs:144 | No index is reported exactly when the page does not contain the marker. |
| Scanning.ReplaceAtReportedPositions | SympliTaskBackend/Controllers/SEOSearchController.cs:164 | `Replace` steps exactly as the scan reports. With nothing reported it copies the text. Otherwise it copies up to the first reported position, writes the replacement there and resumes just past it, where the rest of the report begins. |
| Scanning.ReplaceCountsOccurrences | SympliTaskBackend/Controllers/SEOSearchController.cs:164 | `Replace` changes the length by `|rep| - |pat|` once per reported occurrence. |
| Scanning.GetAllIndexesOf | SympliTaskBackend/Controllers/SEOSearchController.cs:199-215 | An empty string gives no indexes. For a non-empty marker the loop returns exactly `Occurrences`. |
| Extraction.TruncateToBody | SympliTaskBackend/Controllers/SEOSearchController.cs:135-142 | The page fails with the no-body exception exactly when it is empty or lacks `"<body"`. Otherwise the result is the suffix that starts at its first `"<body"`. |
| Extraction.CandidateAt | SympliTaskBackend/Controllers/SEOSearchController.cs:152-157 | Looking at one occurrence can only fail with the start-index exception. |
| Extraction.IndexOfCharFirst | SympliTaskBackend/Controllers/SEOSearchController.cs:152-153 | A one-character search answers the first position holding that character, or -1 when none follows. |
| Extraction.CandidateAtCases | SympliTaskBackend/Controllers/SEOSearchController.cs:152-157 | The per-occurrence step fails exactly when no `'>'` follows the occurrence. It yields nothing exactly when no `'<'` follows that `'>'`. Otherwise it yields the text between delimiters. |
| Extraction.CandidateAtDelimited | SympliTaskBackend/Controllers/SEOSearchController.cs:152-156 | With the first `'>'` at or after `k` and the next `'<'`, the candidate is the trimmed text between them. |
| Extraction.CandidateHasNoOpenAngle | SympliTaskBackend/Controllers/SEOSearchController.cs:153-156 | A candidate never contains `'<'`. |
| Extraction.Collect | SympliTaskBackend/Controllers/SEOSearchController.cs:150-158 | A collection run fails only with an exception one occurrence raised. Otherwise it keeps at most one text per occurrence. |
| Extraction.CollectFailIff | SympliTaskBackend/Controllers/SEOSearchController.cs:150-158 | The run fails exactly when some occurrence raises. |
| Extraction.CollectAppend | SympliTaskBackend/Controllers/SEOSearchController.cs:150-158 | Collecting two runs one after the other is concatenation. |
| Extraction.CollectAllFound | SympliTaskBackend/Controllers/SEOSearchController.cs:154-156 | When every occurrence yields a text, the run lists them all, in order. |
| Extraction.Candidates | SympliTaskBackend/Controllers/SEOSearchController.cs:150-158 | The only failure is the start-index exception. There are never more candidates than occurrences. |
| Extraction.CandidatesFailIff | SympliTaskBackend/Controllers/SEOSearchController.cs:152-153 | Extraction throws exactly when some occurrence has no `'>'` after it. |
| Extraction.CandidatesAppend | SympliTaskBackend/Controllers/SEOSearchController.cs:150-158 | Extraction over concatenated index lists concatenates the results. |
| Extraction.CandidatesAllDelimited | SympliTaskBackend/Controllers/SEOSearchController.cs:150-158 | When each index delimits a given text, the candidates are exactly those texts. |
| Extraction.ExtractCandidates | SympliTaskBackend/Controllers/SEOSearchController.cs:146-158 | The loop computes `Candidates`. |
| Extraction.NonEmpty | SympliTaskBackend/Controllers/SEOSearchController.cs:160 | The filter keeps no empty string and never lengthens the list. |
| Extraction.NonEmptyMembers | SympliTaskBackend/Controllers/SEOSearchController.cs:160 | A string survives exactly when it was present and non-empty. |
| Extraction.NonEmptyAppend | SympliTaskBackend/Controllers/SEOSearchController.cs:160 | The filter distributes over concatenation, so order is kept. |
| Extraction.NonEmptyUnchanged | SympliTaskBackend/Controllers/SEOSearchController.cs:160 | A list without empty strings passes unchanged. |
| Ranking.NormalizeTarget | SympliTaskBackend/Controllers/SEOSearchController.cs:164 | The normalisation chain: lower-case, then remove every `"http://"`, every `"https://"` and every `"www."`. The lemmas below state its properties. |
| Ranking.NormalizeTargetIsLowerCase | SympliTaskBackend/Controllers/SEOSearchController.cs:164 | The normalised target has no capital letter. |
| Ranking.NormalizeTargetKeepsClean | SympliTaskBackend/Controllers/SEOSearchController.cs:164 | A lower-case target holding none of the three patterns is kept. |
| Ranking.NormalizeTargetWithoutScheme | SympliTaskBackend/Controllers/SEOSearchController.cs:164 | On lower-case text without `'h'`, only the `"www."` removal acts. |
| Ranking.NormalizeTargetNotIdempotent | SympliTaskBackend/Controllers/SEOSearchController.cs:164 | `"wwwww.w."` normalises to `"www."`, which normalises to `""`. |
| Ranking.Matches | SympliTaskBackend/Controllers/SEOSearchController.cs:168-180 | The specification of the ranking loop: the 1-based positions of the candidates whose lower-cased text contains the target. `MatchesSpec` states its meaning. |
| Ranking.MatchesSpec | SympliTaskBackend/Controllers/SEOSearchController.cs:168-180 | Ranks are 1-based and strictly increasing. Position `i+1` is listed exactly when candidate `i`, lower-cased, contains the target. |
| Ranking.FirstMatchIsHighest | SympliTaskBackend/Controllers/SEOSearchController.cs:174-177 | The first rank names a matching candidate with no match before it. |
| Ranking.MatchesEmptyIff | SympliTaskBackend/Controllers/SEOSearchController.cs:181-184 | There are no ranks exactly when no candidate matches. |
| Ranking.EmptyTargetMatchesAll | SympliTaskBackend/Controllers/SEOSearchController.cs:164-178 | A target that normalises to empty ranks every candidate. |
| Ranking.RankMatches | SympliTaskBackend/Controllers/SEOSearchController.cs:168-180 | The loop returns `Matches`, with the highest ranking being its first entry or null. |
| SearchController.FindMapper | SympliTaskBackend/Controllers/SEOSearchController.cs:73 | A mapper found is in the table with that code. None means no entry has the code. |
| SearchController.FindMapperIsFirst | SympliTaskBackend/Controllers/SEOSearchController.cs:73 | The mapper found is the first entry with that code. |
| SearchController.DefaultEngineLookup | SympliTaskBackend/Controllers/SEOSearchController.cs:35-40 | Codes 1, 2 and 3 find Google, Bing and Yahoo. Every other code finds nothing. |
| SearchController.DefaultMappersWellFormed | SympliTaskBackend/Controllers/SEOSearchController.cs:35-40 | Every configured engine is an assigned enum member and has a non-empty marker. |
| SearchController.SearchUrl | SympliTaskBackend/Controllers/SEOSearchController.cs:99-100 | The query URL: the count placeholder replaced by the decimal count, then the search placeholder by the encoded text. The three lemmas below state what it gives for each configured engine. |
| SearchController.GoogleSearchUrl | SympliTaskBackend/Controllers/SEOSearchController.cs:99-100 | The Google URL carries the count after `num=` and the encoded text after `q=`. |
| SearchController.YahooSearchUrl | SympliTaskBackend/Controllers/SEOSearchController.cs:99-100 | The Yahoo URL carries the encoded text after `p=` and the count after `n=`. |
| SearchController.BingSearchUrl | SympliTaskBackend/Controllers/SEOSearchController.cs:99-100 | The Bing URL carries the encoded text after `q=` and the count after `count=`. |
| SearchController.SearchTextFirstUrl | SympliTaskBackend/Controllers/SEOSearchController.cs:99-100 | In a template with the search placeholder first, each placeholder is replaced once, in place. |
| SearchController.CountPlaceholderNotBefore | SympliTaskBackend/Controllers/SEOSearchController.cs:99 | The count placeholder cannot start inside the search placeholder or the brace-free text around it. |
| SearchController.WithNoResultsMessage | SympliTaskBackend/Controllers/SEOSearchController.cs:191-194 | With zero results the message names the marker. Otherwise the record is untouched. Only the message changes. |
| SearchController.SurvivingCandidates | SympliTaskBackend/Controllers/SEOSearchController.cs:146-160 | The only failure is the start-index exception. The survivors are all non-empty. |
| SearchController.Ranked | SympliTaskBackend/Controllers/SEOSearchController.cs:166-188 | Ranking sets success and counts the candidates. The match count is at least 1 and the rankings text is always set. A highest ranking lies within the count. No other field changes. |
| SearchController.ProcessPage | SympliTaskBackend/Controllers/SEOSearchController.cs:135-195 | Scoring a page never raises a request fault. From an unranked record, an unsuccessful result carries the missing-marker message. |
| SearchController.SearchResults | SympliTaskBackend/Controllers/SEOSearchController.cs:94-196 | Every unsuccessful record that `GetSearchResults` returns carries the missing-marker message. |
| SearchController.Respond | SympliTaskBackend/Controllers/SEOSearchController.cs:51-88 | Every unsuccessful record that `Get` returns carries an error message. |
| SearchController.NoBodyThrows | SympliTaskBackend/Controllers/SEOSearchController.cs:135-142 | Scoring throws the no-body exception exactly when the page is empty or lacks `"<body"`. |
| SearchController.ProcessPageKeepsRequestFields | SympliTaskBackend/Controllers/SEOSearchController.cs:144-195 | Scoring keeps engine, name, date, keywords and the raw target URL. |
| SearchController.SuccessIffMarkerFound | SympliTaskBackend/Controllers/SEOSearchController.cs:144-190 | A returned record reports success exactly when the body contains the marker. Without the marker the record is unranked with the missing-marker message. |
| SearchController.ErrorMessageIffNoResults | SympliTaskBackend/Controllers/SEOSearchController.cs:191-194 | The message is set exactly when no result was counted, and it names the marker. |
| SearchController.RankedRecord | SympliTaskBackend/Controllers/SEOSearchController.cs:166-188 | The result count is the number of survivors; rankings, highest ranking and match count come from `Matches`; with no match they are `"0"`, null and 1. |
| SearchController.HighestRankingIsFirstMatch | SympliTaskBackend/Controllers/SEOSearchController.cs:170-180 | The highest ranking is null exactly when nothing matches. Otherwise it is a matching candidate within the count, with no match before it. |
| SearchController.SuccessWithoutResults | SympliTaskBackend/Controllers/SEOSearchController.cs:156-193 | A marker whose text trims to nothing gives success, zero results and the error message together. |
| SearchController.SearchResultsStamps | SympliTaskBackend/Controllers/SEOSearchController.cs:96-125 | A returned search carries the engine's name, the clock reading, the search text and the raw target URL. `EngineType` stays unassigned. |
| SearchController.MissingHeadersRecord | SympliTaskBackend/Controllers/SEOSearchController.cs:53-87 | Without exactly four headers: an unsuccessful, unranked `"UNSPECIFIED"` record with the header-missing message. |
| SearchController.BadHeadersRecord | SympliTaskBackend/Controllers/SEOSearchController.cs:60-70 | Headers that fail to parse give an unsuccessful `"UNSPECIFIED"` record with the prefixed exception message. |
| SearchController.UnmappedEngineRecord | SympliTaskBackend/Controllers/SEOSearchController.cs:73-81 | A code outside 1 to 3 gives the no-mapping record, named `"Unassigned"` for 0 and null otherwise. |
| SearchController.MappedEngineSearches | SympliTaskBackend/Controllers/SEOSearchController.cs:73-77 | Codes 1, 2 and 3 run the search with Google, Bing and Yahoo on the parsed values. |
| SearchController.SuccessMeansSearched | SympliTaskBackend/Controllers/SEOSearchController.cs:51-88 | A successful record implies four headers, a good parse, a mapper, a fetched page and a body containing the marker. |
| SearchController.SEOSearchController.constructor | SympliTaskBackend/Controllers/SEOSearchController.cs:35-40 | A new controller holds the three configured engines. |
| SearchController.SEOSearchController.GetSearchResults | SympliTaskBackend/Controllers/SEOSearchController.cs:94-196 | The step-by-step method computes `SearchResults`. |
| SearchController.SEOSearchController.Get | SympliTaskBackend/Controllers/SEOSearchController.cs:51-88 | The handler computes `Respond` over the controller's engine table. |

## Left out

- The URL encoder (`WebUtility.UrlEncode`) is the parameter `encode`. Its escaping rules are not modelled.
- `WebRequest`, the response, the 302-redirect rule and the ASCII stream decoding are folded into the parameter `fetch`. It answers the decoded page or `Failed` (the rethrown `WebException`).
- The clock (`DateTime.UtcNow`) is the parameter `now`, and dates are whole ticks (`Timestamp = nat`).
- Header access by name, `FirstOrDefault` and `Int32.Parse` are the parameter `parse`. Its message text and the casting of an out-of-range integer to the enum are not modelled: codes are plain integers.
- Exception message texts produced by the runtime are not modelled. Each escaping exception is a `Fault` constructor.
- `ToLower`, `IndexOf` and `Contains` are modelled as ordinal and ASCII-only. Culture-sensitive casing and comparison are not modelled.
- Integers are unbounded. `Int32` overflow of `resultsCount` or of the counts cannot arise from the model's inputs and is not modelled.
- The logger, the constructor that takes one, routing attributes and the unused `System.Windows.Forms` import are not modelled.
- No result cache exists in the code, so none is modelled.
- Scanning.GetAllIndexesOf: its precondition excludes an empty marker on a non-empty string. There the source loops forever. `ProcessPage` and `GetSearchResults` model that case as the `Diverges` fault.
- The worked page above (`z>r1`, `r2`) is only described. The general rule it follows is proved as `CandidateAtCases` and `CandidateAtDelimited`.
