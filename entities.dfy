/** The data classes of the search backend: the result record, the engine enum and the engine mapping. */
module Entities {
  import opened Wrappers

  /** The engines, in declaration order; the order fixes their integer codes. */
  datatype SearchEngineType = Unassigned | Google | Bing | Yahoo

  /** The enum's underlying integer value. */
  function Code(e: SearchEngineType): (n: int)
    ensures 0 <= n <= 3
  {
    match e
    case Unassigned => 0
    case Google => 1
    case Bing => 2
    case Yahoo => 3
  }

  /** The enum member with integer value `n`, if `n` names one. */
  function FromCode(n: int): (r: Option<SearchEngineType>)
    ensures r.Some? <==> 0 <= n <= 3
  {
    if n == 0 then Some(Unassigned)
    else if n == 1 then Some(Google)
    else if n == 2 then Some(Bing)
    else if n == 3 then Some(Yahoo)
    else None
  }

  /** Codes and members correspond one to one. */
  lemma CodeRoundTrip(e: SearchEngineType, n: int)
    ensures FromCode(Code(e)) == Some(e)
    ensures FromCode(n).Some? ==> Code(FromCode(n).value) == n
  {
  }

  /** `Enum.GetName(typeof(SearchEngineType), n)`: the member's name, or null for an undefined value. */
  function EngineName(n: int): (r: Option<string>)
    ensures r.Some? <==> FromCode(n).Some?
  {
    match FromCode(n)
    case None => None
    case Some(Unassigned) => Some("Unassigned")
    case Some(Google) => Some("Google")
    case Some(Bing) => Some("Bing")
    case Some(Yahoo) => Some("Yahoo")
  }

  /** One configured engine: the query-URL template and the marker that precedes each result. */
  datatype SearchEngineMapper = SearchEngineMapper(Engine: SearchEngineType, BaseUrl: string, SearchTag: string)

  /** A point in time, as the ticks of a `DateTime`; 0 is `DateTime.MinValue`. */
  type Timestamp = nat

  /**
    The result record. Reference-typed properties that may stay null are `Option`s;
    `HighestRanking` is C#'s `int?`.
    */
  datatype SEOSearchEntity = SEOSearchEntity(
    EngineType: SearchEngineType,
    EngineName: Option<string>,
    SearchDate: Timestamp,
    SearchKeywords: Option<string>,
    SearchURL: Option<string>,
    ResultCount: int,
    MatchCount: int,
    HighestRanking: Option<int>,
    Rankings: Option<string>,
    Success: bool,
    ErrorMessage: Option<string>)

  /** `new SEOSearchEntity()`: every property at its default value. */
  const NewEntity := SEOSearchEntity(Unassigned, None, 0, None, None, 0, 0, None, None, false, None)

  /** No property has been set since construction, except possibly name, date, keywords and URL. */
  predicate IsUnranked(e: SEOSearchEntity) {
    e.ResultCount == 0 && e.MatchCount == 0 && e.HighestRanking.None? && e.Rankings.None?
    && !e.Success && e.ErrorMessage.None?
  }
}
