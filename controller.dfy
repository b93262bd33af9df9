/**
  `SEOSearchController`: the `Get` endpoint, its engine table, and `GetSearchResults`,
  which fetches a results page and scores it against the target URL.
  */
module SearchController {
  import opened Wrappers
  import opened DotNetStrings
  import opened Faults
  import opened Entities
  import opened Scanning
  import opened Extraction
  import opened Ranking

  const ResultCountPlaceholder := "{{numResults}}"
  const SearchTextPlaceholder := "{{formattedSearch}}"

  const Unspecified := "UNSPECIFIED"
  const HeaderDataMissing := "Header Data missing from request"
  const BadHeadersPrefix := "Missing or incorrectly formatted headers - "
  const NoMappingFound := "No Mapping for Search Engine Found"
  const NoTagPrefix := "Found no instances of search tag: "

  /*
    The three templates are written as their fixed parts around the placeholders;
    each concatenation spells out the same text as the configured template.
    */
  const GoogleBase := "https://www.google.com/search?&num="
  const YahooBase := "https://search.yahoo.com/search?p="
  const BingBase := "http://www.bing.com/search?q="

  const GoogleMapper := SearchEngineMapper(Google,
    GoogleBase + ResultCountPlaceholder + "&q=" + SearchTextPlaceholder, "BNeawe UPmit AP7Wnd")
  const YahooMapper := SearchEngineMapper(Yahoo,
    YahooBase + SearchTextPlaceholder + "&n=" + ResultCountPlaceholder, "fz-ms fw-m fc-12th wr-bw lh-17")
  const BingMapper := SearchEngineMapper(Bing,
    BingBase + SearchTextPlaceholder + "&count=" + ResultCountPlaceholder, "b_attribution")

  /** The table a new controller starts with, in declaration order. */
  const DefaultEngineMappers := [GoogleMapper, YahooMapper, BingMapper]

  /** What a call did: returned a record, or let an exception escape. */
  datatype Outcome = Returned(Entity: SEOSearchEntity) | Threw(Fault: Fault)

  /**
    The page the request produced: the decoded text of a successful response or of
    a usable redirect (status 302), or no usable response at all.
    */
  datatype Fetched = Page(Html: string) | Failed

  /** One request header: its name and its values. */
  datatype Header = Header(Name: string, Values: seq<string>)

  /** The four header values, after the `Int32.Parse` of the two numeric ones. */
  datatype ParsedHeaders = ParsedHeaders(SearchString: Option<string>, TargetUrl: Option<string>,
                                         ResultsCount: int, EngineTypeId: int)

  // ---------------------------------------------------------------- engine lookup

  /**
    `EngineMappers.FirstOrDefault(t => t.Engine == engineType)`, where `engineType`
    is the integer header cast to the enum (any integer, defined member or not).
    */
  function FindMapper(mappers: seq<SearchEngineMapper>, engineTypeId: int): (r: Option<SearchEngineMapper>)
    ensures r.Some? ==> r.value in mappers && Code(r.value.Engine) == engineTypeId
    ensures r.None? ==> forall j :: 0 <= j < |mappers| ==> Code(mappers[j].Engine) != engineTypeId
  {
    if mappers == [] then None
    else if Code(mappers[0].Engine) == engineTypeId then Some(mappers[0])
    else FindMapper(mappers[1..], engineTypeId)
  }

  /** The mapper found is the first one in the table with that engine. */
  lemma {:induction false} FindMapperIsFirst(mappers: seq<SearchEngineMapper>, engineTypeId: int)
    requires FindMapper(mappers, engineTypeId).Some?
    ensures exists j :: 0 <= j < |mappers| && mappers[j] == FindMapper(mappers, engineTypeId).value
                        && forall i :: 0 <= i < j ==> Code(mappers[i].Engine) != engineTypeId
  {
    if Code(mappers[0].Engine) != engineTypeId {
      var rest := mappers[1..];
      FindMapperIsFirst(rest, engineTypeId);
      var j :| 0 <= j < |rest| && rest[j] == FindMapper(rest, engineTypeId).value
               && forall i :: 0 <= i < j ==> Code(rest[i].Engine) != engineTypeId;
      assert mappers[j + 1] == rest[j];
      forall i | 0 <= i < j + 1 ensures Code(mappers[i].Engine) != engineTypeId {
        if i > 0 { assert mappers[i] == rest[i - 1]; }
      }
    } else {
      assert mappers[0] == FindMapper(mappers, engineTypeId).value;
    }
  }

  /**
    The configured table serves Google (code 1), Bing (code 2) and Yahoo (code 3),
    each by its own entry, and nothing else: Unassigned (code 0) and undefined
    codes have no mapper.
    */
  lemma DefaultEngineLookup(engineTypeId: int)
    ensures FindMapper(DefaultEngineMappers, 1) == Some(GoogleMapper)
    ensures FindMapper(DefaultEngineMappers, 2) == Some(BingMapper)
    ensures FindMapper(DefaultEngineMappers, 3) == Some(YahooMapper)
    ensures FindMapper(DefaultEngineMappers, engineTypeId).None? <==> !(1 <= engineTypeId <= 3)
  {
    var t := DefaultEngineMappers;
    var n := engineTypeId;
    assert t[1..] == [YahooMapper, BingMapper] && t[1..][1..] == [BingMapper] && [BingMapper][1..] == [];
    assert FindMapper(t, 1) == Some(GoogleMapper);
    assert FindMapper(t, 3) == FindMapper([YahooMapper, BingMapper], 3) == Some(YahooMapper);
    assert FindMapper(t, 2) == FindMapper([BingMapper], 2) == Some(BingMapper);
    if !(1 <= n <= 3) {
      assert FindMapper(t, n) == FindMapper([YahooMapper, BingMapper], n) == FindMapper([BingMapper], n);
      assert FindMapper([BingMapper], n) == FindMapper([], n) == None;
    }
  }

  /** Every configured engine is a defined, assigned member and has a non-empty marker. */
  lemma DefaultMappersWellFormed()
    ensures forall m :: m in DefaultEngineMappers ==>
              |m.SearchTag| > 0 && m.Engine != Unassigned && FromCode(Code(m.Engine)) == Some(m.Engine)
  {
  }

  // ---------------------------------------------------------------- the query URL

  /**
    Lines 99-100: the count placeholder replaced by the decimal count, then the
    search placeholder by the URL-encoded search text.
    */
  function SearchUrl(mapper: SearchEngineMapper, resultsToCheck: int, formattedSearch: string): string {
    Replace(Replace(mapper.BaseUrl, ResultCountPlaceholder, IntToString(resultsToCheck)),
            SearchTextPlaceholder, formattedSearch)
  }

  predicate NoBrace(s: string) {
    forall i :: 0 <= i < |s| ==> s[i] != '{'
  }

  /**
    Neither placeholder hides the other: in brace-free text around the search
    placeholder, whatever follows, no count placeholder starts.
    */
  lemma CountPlaceholderNotBefore(x: string, y: string, z: string)
    requires NoBrace(x) && NoBrace(y)
    ensures forall i :: 0 <= i < |x| + |SearchTextPlaceholder| + |y| ==>
              !OccursAt(x + SearchTextPlaceholder + y + z, ResultCountPlaceholder, i)
  {
    var s := x + SearchTextPlaceholder + y + z;
    forall i | 0 <= i < |x| + |SearchTextPlaceholder| + |y|
      ensures !OccursAt(s, ResultCountPlaceholder, i)
    {
      if i == |x| {
        assert s[i + 2] == SearchTextPlaceholder[2];
        NoOccurrenceAtMismatch(s, ResultCountPlaceholder, i, 2);
      } else if i == |x| + 1 {
        assert s[i + 1] == SearchTextPlaceholder[2];
        NoOccurrenceAtMismatch(s, ResultCountPlaceholder, i, 1);
      } else {
        if i < |x| {
          assert s[i] == x[i];
        } else if i < |x| + |SearchTextPlaceholder| {
          assert s[i] == SearchTextPlaceholder[i - |x|];
        } else {
          assert s[i] == y[i - |x| - |SearchTextPlaceholder|];
        }
        NoOccurrenceAtOtherChar(s, ResultCountPlaceholder, i);
      }
    }
  }

  lemma DecimalHasNoBrace(n: int)
    ensures NoBrace(IntToString(n))
  {
  }

  /** Google's query URL: the count after `num=`, the encoded search text after `q=`. */
  lemma GoogleSearchUrl(resultsToCheck: int, formattedSearch: string)
    ensures SearchUrl(GoogleMapper, resultsToCheck, formattedSearch)
            == GoogleBase + IntToString(resultsToCheck) + "&q=" + formattedSearch
  {
    var d := IntToString(resultsToCheck);
    var post := "&q=" + SearchTextPlaceholder;
    assert NoBrace(GoogleBase) && NoBrace("&q=");
    CountPlaceholderNotBefore("&q=", "", "");
    assert "&q=" + SearchTextPlaceholder + "" + "" == post;
    forall i | |post| <= i ensures !OccursAt(post, ResultCountPlaceholder, i) { }
    assert GoogleMapper.BaseUrl == GoogleBase + ResultCountPlaceholder + post;
    ReplaceInConcat(GoogleBase, ResultCountPlaceholder, post, d);
    var pre := GoogleBase + d + "&q=";
    DecimalHasNoBrace(resultsToCheck);
    assert NoBrace(pre);
    NoOccurrenceWithoutHead("", SearchTextPlaceholder);
    assert GoogleBase + d + post == pre + SearchTextPlaceholder + "";
    ReplaceInConcat(pre, SearchTextPlaceholder, "", formattedSearch);
  }

  /** Yahoo's query URL: the encoded search text after `p=`, the count after `n=`. */
  lemma YahooSearchUrl(resultsToCheck: int, formattedSearch: string)
    ensures SearchUrl(YahooMapper, resultsToCheck, formattedSearch)
            == YahooBase + formattedSearch + "&n=" + IntToString(resultsToCheck)
  {
    assert NoBrace(YahooBase) && NoBrace("&n=");
    SearchTextFirstUrl(YahooBase, "&n=", resultsToCheck, formattedSearch);
  }

  /** Bing's query URL: the encoded search text after `q=`, the count after `count=`. */
  lemma BingSearchUrl(resultsToCheck: int, formattedSearch: string)
    ensures SearchUrl(BingMapper, resultsToCheck, formattedSearch)
            == BingBase + formattedSearch + "&count=" + IntToString(resultsToCheck)
  {
    assert NoBrace(BingBase) && NoBrace("&count=");
    SearchTextFirstUrl(BingBase, "&count=", resultsToCheck, formattedSearch);
  }

  /** A template with the search placeholder first and the count placeholder at its end. */
  lemma SearchTextFirstUrl(base: string, sep: string, resultsToCheck: int, formattedSearch: string)
    requires NoBrace(base) && NoBrace(sep)
    ensures Replace(Replace(base + SearchTextPlaceholder + sep + ResultCountPlaceholder,
                            ResultCountPlaceholder, IntToString(resultsToCheck)),
                    SearchTextPlaceholder, formattedSearch)
            == base + formattedSearch + sep + IntToString(resultsToCheck)
  {
    var d := IntToString(resultsToCheck);
    var s := base + SearchTextPlaceholder + sep + ResultCountPlaceholder;
    var k := |base| + |SearchTextPlaceholder| + |sep|;
    CountPlaceholderNotBefore(base, sep, ResultCountPlaceholder);
    assert s[k..k + |ResultCountPlaceholder|] == ResultCountPlaceholder;
    OccursAtSlice(s, ResultCountPlaceholder, k);
    forall i | k + |ResultCountPlaceholder| <= i ensures !OccursAt(s, ResultCountPlaceholder, i) { }
    ReplaceOnce(s, ResultCountPlaceholder, d, k);
    assert s[..k] == base + SearchTextPlaceholder + sep;
    assert s[k + |ResultCountPlaceholder|..] == "";
    DecimalHasNoBrace(resultsToCheck);
    assert NoBrace(sep + d);
    NoOccurrenceWithoutHead(sep + d, SearchTextPlaceholder);
    assert base + SearchTextPlaceholder + sep + d + "" == base + SearchTextPlaceholder + (sep + d);
    ReplaceInConcat(base, SearchTextPlaceholder, sep + d, formattedSearch);
  }

  // ---------------------------------------------------------------- scoring a page

  /** Line 193: a record that counted no results gets the missing-marker message. */
  function WithNoResultsMessage(result: SEOSearchEntity, tag: string): (r: SEOSearchEntity)
    ensures r.ResultCount == 0 ==> r.ErrorMessage == Some(NoTagPrefix + tag)
    ensures r.ResultCount != 0 ==> r == result
    ensures r.(ErrorMessage := result.ErrorMessage) == result
  {
    if result.ResultCount == 0 then result.(ErrorMessage := Some(NoTagPrefix + tag)) else result
  }

  /** Lines 146-160: the non-empty, trimmed candidates of a page that holds a non-empty marker. */
  function SurvivingCandidates(body: string, tag: string): (r: Result<seq<string>, Fault>)
    requires |tag| > 0
    ensures r.Failure? ==> r.error == StartIndexOutOfRange
    ensures r.Success? ==> forall j :: 0 <= j < |r.value| ==> r.value[j] != ""
  {
    match Candidates(body, Occurrences(body, tag, 0))
    case Failure(f) => Failure(f)
    case Success(raw) => Success(NonEmpty(raw))
  }

  /** Lines 166-188: the counts and rankings of the surviving candidates against the normalised target. */
  function Ranked(result: SEOSearchEntity, urls: seq<string>, target: string): (r: SEOSearchEntity)
    ensures r.Success && r.ResultCount == |urls| && r.MatchCount >= 1 && r.Rankings.Some?
    ensures r.HighestRanking.Some? ==> 1 <= r.HighestRanking.value <= |urls|
    ensures r.(ResultCount := result.ResultCount, HighestRanking := result.HighestRanking,
               Rankings := result.Rankings, MatchCount := result.MatchCount, Success := result.Success) == result
  {
    MatchesSpec(urls, target);
    var m := Matches(urls, target);
    var ranks := if m == [] then [0] else m;
    result.(ResultCount := |urls|,
            HighestRanking := if m == [] then None else Some(m[0]),
            Rankings := Some(JoinInts(", ", ranks)),
            MatchCount := |ranks|,
            Success := true)
  }

  /**
    Lines 135-195 on the page text: keep it from the first `"<body"`, and when the
    marker occurs, extract, filter, normalise and rank; finally the no-results
    message.
    */
  function ProcessPage(result: SEOSearchEntity, tag: string, targetUrl: Option<string>, html: string): (o: Outcome)
    ensures o.Threw? ==> o.Fault != NullSearchString && o.Fault != RequestFailed
    ensures IsUnranked(result) && o.Returned? && !o.Entity.Success ==>
              o.Entity.ErrorMessage == Some(NoTagPrefix + tag)
  {
    match TruncateToBody(html)
    case Failure(f) => Threw(f)
    case Success(body) =>
      if !Contains(body, tag) then Returned(WithNoResultsMessage(result, tag))
      else if tag == "" then Threw(Diverges)
      else
        match SurvivingCandidates(body, tag)
        case Failure(f) => Threw(f)
        case Success(urls) =>
          if targetUrl.None? then Threw(NullTargetUrl)
          else Returned(WithNoResultsMessage(Ranked(result, urls, NormalizeTarget(targetUrl.value)), tag))
  }

  /** Lines 94-195: build the query, fetch the page, stamp the record and score the page. */
  function SearchResults(mapper: SearchEngineMapper, searchString: Option<string>, targetUrl: Option<string>,
                         resultsToCheck: int, encode: string -> string, fetch: string -> Fetched,
                         now: Timestamp): (o: Outcome)
    ensures o.Returned? && !o.Entity.Success ==> o.Entity.ErrorMessage == Some(NoTagPrefix + mapper.SearchTag)
  {
    if searchString.None? then Threw(NullSearchString)
    else
      match fetch(SearchUrl(mapper, resultsToCheck, encode(searchString.value)))
      case Failed => Threw(RequestFailed)
      case Page(html) =>
        var result := NewEntity.(EngineName := EngineName(Code(mapper.Engine)), SearchDate := now,
                                 SearchKeywords := searchString, SearchURL := targetUrl);
        ProcessPage(result, mapper.SearchTag, targetUrl, html)
  }

  /** Lines 54-87: the header-shape check, the header parse and the engine lookup. */
  function Respond(mappers: seq<SearchEngineMapper>, headers: Option<seq<Header>>,
                   parse: seq<Header> -> Result<ParsedHeaders, string>,
                   encode: string -> string, fetch: string -> Fetched, now: Timestamp): (o: Outcome)
    ensures o.Returned? && !o.Entity.Success ==> o.Entity.ErrorMessage.Some?
  {
    if !(headers.Some? && |headers.value| > 0 && |headers.value| == 4) then
      Returned(NewEntity.(EngineName := Some(Unspecified), ErrorMessage := Some(HeaderDataMissing)))
    else
      match parse(headers.value)
      case Failure(message) =>
        Returned(NewEntity.(EngineName := Some(Unspecified), ErrorMessage := Some(BadHeadersPrefix + message)))
      case Success(p) =>
        match FindMapper(mappers, p.EngineTypeId)
        case None =>
          Returned(NewEntity.(EngineName := EngineName(p.EngineTypeId), ErrorMessage := Some(NoMappingFound)))
        case Some(mapper) =>
          SearchResults(mapper, p.SearchString, p.TargetUrl, p.ResultsCount, encode, fetch, now)
  }

  // ---------------------------------------------------------------- what scoring guarantees

  /** The page has no usable body exactly when it is empty or lacks `"<body"`; then processing throws. */
  lemma NoBodyThrows(result: SEOSearchEntity, tag: string, targetUrl: Option<string>, html: string)
    ensures ProcessPage(result, tag, targetUrl, html) == Threw(NoHtmlBody)
            <==> html == "" || !Contains(html, BodyTag)
  {
  }

  /**
    Scoring only ever fills in the result fields: engine, name, date, keywords and
    the (raw, un-normalised) target URL are those of the record it started from.
    */
  lemma ProcessPageKeepsRequestFields(result: SEOSearchEntity, tag: string, targetUrl: Option<string>,
                                      html: string)
    requires ProcessPage(result, tag, targetUrl, html).Returned?
    ensures var e := ProcessPage(result, tag, targetUrl, html).Entity;
            e.EngineType == result.EngineType && e.EngineName == result.EngineName
            && e.SearchDate == result.SearchDate && e.SearchKeywords == result.SearchKeywords
            && e.SearchURL == result.SearchURL
  {
  }

  /**
    Once the body is there, the record reports success exactly when the truncated
    page contains the marker. An absent marker never throws: the record comes back
    unranked, with the missing-marker message.
    */
  lemma SuccessIffMarkerFound(result: SEOSearchEntity, tag: string, targetUrl: Option<string>, html: string)
    requires IsUnranked(result) && TruncateToBody(html).Success?
    ensures var body := TruncateToBody(html).value;
            var o := ProcessPage(result, tag, targetUrl, html);
            && (o.Returned? ==> (o.Entity.Success <==> Contains(body, tag)))
            && (!Contains(body, tag) ==>
                  o == Returned(result.(ErrorMessage := Some(NoTagPrefix + tag)))
                  && o.Entity.MatchCount == 0 && o.Entity.Rankings.None? && o.Entity.HighestRanking.None?)
  {
  }

  /** The error message is set exactly when no result was counted, and then it names the marker. */
  lemma ErrorMessageIffNoResults(result: SEOSearchEntity, tag: string, targetUrl: Option<string>, html: string)
    requires IsUnranked(result) && ProcessPage(result, tag, targetUrl, html).Returned?
    ensures var e := ProcessPage(result, tag, targetUrl, html).Entity;
            && (e.ResultCount == 0 <==> e.ErrorMessage.Some?)
            && (e.ResultCount == 0 ==> e.ErrorMessage == Some(NoTagPrefix + tag))
  {
  }

  /**
    On success the record counts the surviving candidates, and its rankings are the
    matching positions (`Matches`, whose meaning `MatchesSpec` states): the highest
    ranking is the first of them, the match count their number. With no match the
    rankings are the sentinel `"0"` and the match count is 1.
    */
  lemma RankedRecord(result: SEOSearchEntity, tag: string, targetUrl: Option<string>, html: string)
    requires IsUnranked(result)
    requires ProcessPage(result, tag, targetUrl, html).Returned?
    requires ProcessPage(result, tag, targetUrl, html).Entity.Success
    ensures TruncateToBody(html).Success? && |tag| > 0 && targetUrl.Some?
    ensures SurvivingCandidates(TruncateToBody(html).value, tag).Success?
    ensures var e := ProcessPage(result, tag, targetUrl, html).Entity;
            var urls := SurvivingCandidates(TruncateToBody(html).value, tag).value;
            var m := Matches(urls, NormalizeTarget(targetUrl.value));
            && e.ResultCount == |urls| && e.MatchCount >= 1
            && (m != [] ==> e.HighestRanking == Some(m[0]) && e.MatchCount == |m|
                            && e.Rankings == Some(JoinInts(", ", m)))
            && (m == [] ==> e.HighestRanking.None? && e.MatchCount == 1 && e.Rankings == Some("0"))
  {
    assert NatToString(0) == "0";
  }

  /** A successful record's highest ranking names a matching candidate with no match before it. */
  lemma HighestRankingIsFirstMatch(result: SEOSearchEntity, tag: string, targetUrl: Option<string>, html: string)
    requires IsUnranked(result)
    requires ProcessPage(result, tag, targetUrl, html).Returned?
    requires ProcessPage(result, tag, targetUrl, html).Entity.Success
    ensures TruncateToBody(html).Success? && |tag| > 0 && targetUrl.Some?
    ensures SurvivingCandidates(TruncateToBody(html).value, tag).Success?
    ensures var e := ProcessPage(result, tag, targetUrl, html).Entity;
            var urls := SurvivingCandidates(TruncateToBody(html).value, tag).value;
            var target := NormalizeTarget(targetUrl.value);
            && (e.HighestRanking.None? <==> forall i :: 0 <= i < |urls| ==> !IsMatch(urls[i], target))
            && (e.HighestRanking.Some? ==>
                  var h := e.HighestRanking.value;
                  1 <= h <= e.ResultCount && IsMatch(urls[h - 1], target)
                  && forall i :: 0 <= i < h - 1 ==> !IsMatch(urls[i], target))
  {
    RankedRecord(result, tag, targetUrl, html);
    var urls := SurvivingCandidates(TruncateToBody(html).value, tag).value;
    var target := NormalizeTarget(targetUrl.value);
    MatchesEmptyIff(urls, target);
    if Matches(urls, target) != [] {
      FirstMatchIsHighest(urls, target);
    }
  }

  /**
    Success with no results: a marker whose text trims to nothing leaves no
    candidate, so the record reports success, zero results and the missing-marker
    message at the same time.
    */
  lemma SuccessWithoutResults(result: SEOSearchEntity)
    requires IsUnranked(result)
    ensures var o := ProcessPage(result, "X", Some("a"), "<body>X> <");
            o.Returned? && o.Entity.Success && o.Entity.ResultCount == 0
            && o.Entity.ErrorMessage == Some(NoTagPrefix + "X")
  {
    BlankCandidatePage();
  }

  /** The page of `SuccessWithoutResults`: its one marker occurrence yields only blank text. */
  lemma BlankCandidatePage()
    ensures TruncateToBody("<body>X> <") == Success("<body>X> <")
    ensures Contains("<body>X> <", "X")
    ensures SurvivingCandidates("<body>X> <", "X") == Success([])
  {
    var html := "<body>X> <";
    assert OccursAt(html, BodyTag, 0) by { OccursAtSlice(html, BodyTag, 0); assert html[0..5] == BodyTag; }
    assert html[0..] == html;
    BlankCandidateOccurrences(html);
    CandidateAtDelimited(html, 6, 7, 9);
    assert html[8..9] == " ";
    BlankTrims();
    CollectAllFound(CandidateOutcomes(html, [6]), [""]);
  }

  lemma BlankCandidateOccurrences(html: string)
    requires html == "<body>X> <"
    ensures Contains(html, "X") && Occurrences(html, "X", 0) == [6] && Delimits(html, 6, 7, 9)
  {
    IndexOfCharFirst(html, 'X', 0);
    assert html[6] == 'X';
    IndexOfCharFirst(html, 'X', 7);
  }

  lemma BlankTrims()
    ensures Trim(" ") == ""
  {
    assert AllWhiteSpace(" ");
    TrimSpec(" ");
  }

  // ---------------------------------------------------------------- what a request guarantees

  /**
    A search that returns a record stamps it with the engine's name, the clock
    reading, the search text and the target URL exactly as the header gave it
    (not normalised).
    */
  lemma SearchResultsStamps(mapper: SearchEngineMapper, searchString: Option<string>, targetUrl: Option<string>,
                            resultsToCheck: int, encode: string -> string, fetch: string -> Fetched,
                            now: Timestamp)
    requires SearchResults(mapper, searchString, targetUrl, resultsToCheck, encode, fetch, now).Returned?
    ensures var e := SearchResults(mapper, searchString, targetUrl, resultsToCheck, encode, fetch, now).Entity;
            searchString.Some? && e.EngineName == EngineName(Code(mapper.Engine)) && e.SearchDate == now
            && e.SearchKeywords == searchString && e.SearchURL == targetUrl && e.EngineType == Unassigned
  {
    var u := SearchUrl(mapper, resultsToCheck, encode(searchString.value));
    var result := NewEntity.(EngineName := EngineName(Code(mapper.Engine)), SearchDate := now,
                             SearchKeywords := searchString, SearchURL := targetUrl);
    ProcessPageKeepsRequestFields(result, mapper.SearchTag, targetUrl, fetch(u).Html);
  }

  /**
    Unless there is a request with exactly four headers, `Get` answers with the
    unsuccessful "Header Data missing from request" record named `"UNSPECIFIED"`.
    */
  lemma MissingHeadersRecord(mappers: seq<SearchEngineMapper>, headers: Option<seq<Header>>,
                             parse: seq<Header> -> Result<ParsedHeaders, string>,
                             encode: string -> string, fetch: string -> Fetched, now: Timestamp)
    requires headers.None? || |headers.value| != 4
    ensures var o := Respond(mappers, headers, parse, encode, fetch, now);
            o.Returned? && !o.Entity.Success && o.Entity.EngineName == Some("UNSPECIFIED")
            && o.Entity.ErrorMessage == Some("Header Data missing from request") && IsUnranked(o.Entity.(ErrorMessage := None))
  {
  }

  /** Headers that do not parse give an unsuccessful record carrying the parse error's message. */
  lemma BadHeadersRecord(mappers: seq<SearchEngineMapper>, headers: seq<Header>,
                         parse: seq<Header> -> Result<ParsedHeaders, string>,
                         encode: string -> string, fetch: string -> Fetched, now: Timestamp)
    requires |headers| == 4 && parse(headers).Failure?
    ensures var o := Respond(mappers, Some(headers), parse, encode, fetch, now);
            o.Returned? && !o.Entity.Success && o.Entity.EngineName == Some("UNSPECIFIED")
            && o.Entity.ErrorMessage == Some(BadHeadersPrefix + parse(headers).error)
  {
  }

  /**
    With the configured table, an engine code other than 1, 2 or 3 (Unassigned, or
    no member at all) gets the unsuccessful "No Mapping for Search Engine Found"
    record, named after the code's member when there is one.
    */
  lemma UnmappedEngineRecord(headers: seq<Header>, parse: seq<Header> -> Result<ParsedHeaders, string>,
                             encode: string -> string, fetch: string -> Fetched, now: Timestamp)
    requires |headers| == 4 && parse(headers).Success? && !(1 <= parse(headers).value.EngineTypeId <= 3)
    ensures var o := Respond(DefaultEngineMappers, Some(headers), parse, encode, fetch, now);
            var id := parse(headers).value.EngineTypeId;
            o.Returned? && !o.Entity.Success && o.Entity.ErrorMessage == Some("No Mapping for Search Engine Found")
            && (id == 0 ==> o.Entity.EngineName == Some("Unassigned"))
            && (id != 0 ==> o.Entity.EngineName.None?)
  {
    DefaultEngineLookup(parse(headers).value.EngineTypeId);
  }

  /** With the configured table, codes 1, 2 and 3 search Google, Bing and Yahoo with the parsed values. */
  lemma MappedEngineSearches(headers: seq<Header>, parse: seq<Header> -> Result<ParsedHeaders, string>,
                             encode: string -> string, fetch: string -> Fetched, now: Timestamp)
    requires |headers| == 4 && parse(headers).Success? && 1 <= parse(headers).value.EngineTypeId <= 3
    ensures var p := parse(headers).value;
            var mapper := if p.EngineTypeId == 1 then GoogleMapper
                          else if p.EngineTypeId == 2 then BingMapper else YahooMapper;
            Code(mapper.Engine) == p.EngineTypeId
            && Respond(DefaultEngineMappers, Some(headers), parse, encode, fetch, now)
               == SearchResults(mapper, p.SearchString, p.TargetUrl, p.ResultsCount, encode, fetch, now)
  {
    DefaultEngineLookup(parse(headers).value.EngineTypeId);
  }

  /**
    A successful record means a search really ran: four headers, a successful
    parse, a mapper for the engine, a fetched page with a body that contains the
    marker.
    */
  lemma SuccessMeansSearched(mappers: seq<SearchEngineMapper>, headers: Option<seq<Header>>,
                             parse: seq<Header> -> Result<ParsedHeaders, string>,
                             encode: string -> string, fetch: string -> Fetched, now: Timestamp)
    requires Respond(mappers, headers, parse, encode, fetch, now).Returned?
    requires Respond(mappers, headers, parse, encode, fetch, now).Entity.Success
    ensures headers.Some? && |headers.value| == 4 && parse(headers.value).Success?
    ensures var p := parse(headers.value).value;
            FindMapper(mappers, p.EngineTypeId).Some? && p.SearchString.Some?
            && var mapper := FindMapper(mappers, p.EngineTypeId).value;
               var page := fetch(SearchUrl(mapper, p.ResultsCount, encode(p.SearchString.value)));
               page.Page? && TruncateToBody(page.Html).Success?
               && Contains(TruncateToBody(page.Html).value, mapper.SearchTag)
  {
    var p := parse(headers.value).value;
    var mapper := FindMapper(mappers, p.EngineTypeId).value;
    var page := fetch(SearchUrl(mapper, p.ResultsCount, encode(p.SearchString.value)));
    var result := NewEntity.(EngineName := EngineName(Code(mapper.Engine)), SearchDate := now,
                             SearchKeywords := p.SearchString, SearchURL := p.TargetUrl);
    SuccessIffMarkerFound(result, mapper.SearchTag, p.TargetUrl, page.Html);
  }

  /** The controller: its engine table and the two request handlers. */
  class SEOSearchController {
    var EngineMappers: seq<SearchEngineMapper>

    constructor()
      ensures EngineMappers == DefaultEngineMappers
    {
      EngineMappers := DefaultEngineMappers;
    }

    /**
      `GetSearchResults(mapper, searchString, targetUrl, resultsToCheck)`, step by
      step as the source runs it; the URL encoder, the request and the clock are
      parameters.
      */
    method GetSearchResults(mapper: SearchEngineMapper, searchString: Option<string>, targetUrl: Option<string>,
                            resultsToCheck: int, encode: string -> string, fetch: string -> Fetched,
                            now: Timestamp) returns (outcome: Outcome)
      ensures outcome == SearchResults(mapper, searchString, targetUrl, resultsToCheck, encode, fetch, now)
    {
      var result := NewEntity.(EngineName := EngineName(Code(mapper.Engine)));
      if searchString.None? {
        return Threw(NullSearchString);
      }
      var searchUrl := SearchUrl(mapper, resultsToCheck, encode(searchString.value));
      var response := fetch(searchUrl);
      if response.Failed? {
        return Threw(RequestFailed);
      }
      result := result.(SearchDate := now, SearchKeywords := searchString, SearchURL := targetUrl);
      var htmlResponse := response.Html;
      var truncated := TruncateToBody(htmlResponse);
      if truncated.Failure? {
        return Threw(truncated.error);
      }
      htmlResponse := truncated.value;
      if Contains(htmlResponse, mapper.SearchTag) {
        if mapper.SearchTag == "" {
          return Threw(Diverges);
        }
        var indexes := GetAllIndexesOf(htmlResponse, mapper.SearchTag);
        var extracted := ExtractCandidates(htmlResponse, indexes);
        if extracted.Failure? {
          return Threw(extracted.error);
        }
        var urls := NonEmpty(extracted.value);
        if targetUrl.None? {
          return Threw(NullTargetUrl);
        }
        var target := NormalizeTarget(targetUrl.value);
        result := result.(ResultCount := |urls|);
        var matchRankings, highestRanking := RankMatches(urls, target);
        result := result.(HighestRanking := highestRanking);
        if matchRankings == [] {
          matchRankings := [0];
        }
        result := result.(Rankings := Some(JoinInts(", ", matchRankings)), MatchCount := |matchRankings|,
                          Success := true);
      }
      if result.ResultCount == 0 {
        result := result.(ErrorMessage := Some(NoTagPrefix + mapper.SearchTag));
      }
      return Returned(result);
    }

    /** `Get()`: the request headers (null when there is no request) and the same parameters. */
    method Get(headers: Option<seq<Header>>, parse: seq<Header> -> Result<ParsedHeaders, string>,
               encode: string -> string, fetch: string -> Fetched, now: Timestamp) returns (outcome: Outcome)
      ensures outcome == Respond(EngineMappers, headers, parse, encode, fetch, now)
    {
      if headers.Some? && |headers.value| > 0 && |headers.value| == 4 {
        var parsed := parse(headers.value);
        if parsed.Failure? {
          return Returned(NewEntity.(EngineName := Some(Unspecified),
                                     ErrorMessage := Some(BadHeadersPrefix + parsed.error)));
        }
        var p := parsed.value;
        var mapper := FindMapper(EngineMappers, p.EngineTypeId);
        if mapper.Some? {
          outcome := GetSearchResults(mapper.value, p.SearchString, p.TargetUrl, p.ResultsCount,
                                      encode, fetch, now);
        } else {
          outcome := Returned(NewEntity.(EngineName := EngineName(p.EngineTypeId),
                                         ErrorMessage := Some(NoMappingFound)));
        }
      } else {
        outcome := Returned(NewEntity.(EngineName := Some(Unspecified), ErrorMessage := Some(HeaderDataMissing)));
      }
    }
  }
}
