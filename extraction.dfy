/**
  The scraping half of `GetSearchResults`: cut the page down to its body, take the
  text after each marker occurrence, and drop the empty ones.
  */
module Extraction {
  import opened Wrappers
  import opened DotNetStrings
  import opened Faults

  const BodyTag := "<body"

  /**
    The page from its first `"<body"` on. A page that is empty or has no
    `"<body"` throws (`NoHtmlBody`); otherwise everything before the first
    `"<body"` is discarded and nothing after it.
    */
  function TruncateToBody(html: string): (r: Result<string, Fault>)
    ensures r.Failure? <==> html == "" || !Contains(html, BodyTag)
    ensures r.Failure? ==> r.error == NoHtmlBody
    ensures r.Success? ==> |r.value| <= |html| && r.value == html[|html| - |r.value|..]
    ensures r.Success? ==> OccursAt(r.value, BodyTag, 0)
    ensures r.Success? ==> forall i :: 0 <= i < |html| - |r.value| ==> !OccursAt(html, BodyTag, i)
  {
    if html != "" && Contains(html, BodyTag) then
      var k := IndexOf(html, BodyTag, 0);
      IndexOfFirst(html, BodyTag, 0);
      OccursAtSuffix(html, BodyTag, k, k);
      Success(html[k..])
    else
      Failure(NoHtmlBody)
  }

  /**
    The text after the marker occurrence at `k` (lines 152-157): the trimmed text
    between the first `>` at or after `k` and the first `<` after that. With no `>`
    the second `IndexOf` is called with start -1 and throws; with no `<` the
    occurrence is skipped (`None`).
    */
  function CandidateAt(html: string, k: nat): (r: Result<Option<string>, Fault>)
    ensures r.Failure? ==> r.error == StartIndexOutOfRange
  {
    if k > |html| then Failure(StartIndexOutOfRange)
    else
      var startEl := IndexOf(html, ">", k);
      if startEl == -1 then Failure(StartIndexOutOfRange)
      else
        var endEl := IndexOf(html, "<", startEl);
        if endEl == -1 then Success(None)
        else
          OccursAtChar(html, '>', startEl);
          OccursAtChar(html, '<', endEl);
          Success(Some(Trim(html[startEl + 1..endEl])))
  }

  /** `a` is the first `>` at or after `k`, and `b` the first `<` after `a`. */
  predicate Delimits(html: string, k: nat, a: int, b: int) {
    && k <= a < b < |html|
    && html[a] == '>' && html[b] == '<'
    && (forall i :: k <= i < a ==> html[i] != '>')
    && (forall i :: a < i < b ==> html[i] != '<')
  }

  /** No `c` at or after position `from`. */
  predicate NoneAfter(html: string, c: char, from: nat) {
    forall i :: from <= i < |html| ==> html[i] != c
  }

  /** The first `IndexOf` of a one-character pattern, read as characters. */
  lemma IndexOfCharFirst(html: string, c: char, from: nat)
    requires from <= |html|
    ensures var r := IndexOf(html, [c], from);
            (r == -1 <==> NoneAfter(html, c, from))
            && (r != -1 ==> from <= r < |html| && html[r] == c
                            && forall i :: from <= i < r ==> html[i] != c)
  {
    var r := IndexOf(html, [c], from);
    IndexOfFirst(html, [c], from);
    if r != -1 {
      OccursAtChar(html, c, r);
      forall i | from <= i < r ensures html[i] != c { OccursAtChar(html, c, i); }
    } else {
      forall i | from <= i < |html| ensures html[i] != c { OccursAtChar(html, c, i); }
    }
  }

  /**
    The three outcomes of `CandidateAt`, stated without `IndexOf`: it throws exactly
    when no `>` follows `k`, skips exactly when no `<` follows that `>`, and
    otherwise yields the trimmed text between the two.
    */
  lemma CandidateAtCases(html: string, k: nat)
    ensures CandidateAt(html, k).Failure? <==> NoneAfter(html, '>', k)
    ensures CandidateAt(html, k) == Success(None) <==>
              exists a :: k <= a < |html| && html[a] == '>' && NoneAfter(html, '<', a)
                          && forall i :: k <= i < a ==> html[i] != '>'
    ensures CandidateAt(html, k).Success? && CandidateAt(html, k).value.Some? ==>
              exists a, b :: Delimits(html, k, a, b)
                             && CandidateAt(html, k).value.value == Trim(html[a + 1..b])
  {
    if k <= |html| {
      IndexOfCharFirst(html, '>', k);
      var a := IndexOf(html, ">", k);
      if a != -1 {
        IndexOfCharFirst(html, '<', a);
        var b := IndexOf(html, "<", a);
        if b != -1 {
          assert Delimits(html, k, a, b);
        } else {
          forall a' | k <= a' < |html| && html[a'] == '>' && NoneAfter(html, '<', a')
                      && (forall i :: k <= i < a' ==> html[i] != '>')
            ensures a' == a
          {
          }
        }
      }
    }
  }

  /** Conversely, any delimiting pair gives exactly its trimmed text. */
  lemma CandidateAtDelimited(html: string, k: nat, a: int, b: int)
    requires Delimits(html, k, a, b)
    ensures CandidateAt(html, k) == Success(Some(Trim(html[a + 1..b])))
  {
    IndexOfCharFirst(html, '>', k);
    IndexOfCharFirst(html, '<', a);
  }

  /** A candidate never contains `<`: it ends before the first `<` after its `>`. */
  lemma CandidateHasNoOpenAngle(html: string, k: nat)
    requires CandidateAt(html, k).Success? && CandidateAt(html, k).value.Some?
    ensures '<' !in CandidateAt(html, k).value.value
  {
    CandidateAtCases(html, k);
    var a, b :| Delimits(html, k, a, b)
                && CandidateAt(html, k).value.value == Trim(html[a + 1..b]);
    var between := html[a + 1..b];
    assert '<' !in between by {
      forall i | 0 <= i < |between| ensures between[i] != '<' {
        assert between[i] == html[a + 1 + i];
      }
    }
    TrimKeepsCharacters(between);
  }

  /** `t` is the trimmed text between the first `>` at or after `k` and the next `<`. */
  ghost predicate DelimitedText(html: string, k: nat, t: string) {
    exists a, b :: Delimits(html, k, a, b) && t == Trim(html[a + 1..b])
  }

  function OptionToSeq(c: Option<string>): seq<string> {
    if c.Some? then [c.value] else []
  }

  /**
    Runs through the per-occurrence outcomes in order, appending each text that
    was found; the first exception ends the run.
    */
  function Collect(rs: seq<Result<Option<string>, Fault>>): (r: Result<seq<string>, Fault>)
    ensures r.Failure? ==> exists j :: 0 <= j < |rs| && rs[j] == Failure(r.error)
    ensures r.Success? ==> |r.value| <= |rs|
    decreases |rs|
  {
    if rs == [] then Success([])
    else
      var n := |rs| - 1;
      match Collect(rs[..n])
      case Failure(e) => Failure(e)
      case Success(prev) =>
        match rs[n]
        case Failure(e) => Failure(e)
        case Success(c) => Success(prev + OptionToSeq(c))
  }

  /** The run throws exactly when some outcome is an exception. */
  lemma {:induction false} CollectFailIff(rs: seq<Result<Option<string>, Fault>>)
    ensures Collect(rs).Failure? <==> exists j :: 0 <= j < |rs| && rs[j].Failure?
    decreases |rs|
  {
    if rs != [] {
      var n := |rs| - 1;
      CollectFailIff(rs[..n]);
      if Collect(rs[..n]).Failure? {
        var j :| 0 <= j < n && rs[..n][j].Failure?;
        assert rs[j] == rs[..n][j];
      }
      if exists j :: 0 <= j < |rs| && rs[j].Failure? {
        var j :| 0 <= j < |rs| && rs[j].Failure?;
        if j < n { assert rs[..n][j] == rs[j]; }
      }
    }
  }

  /** Two runs one after the other give the first run's texts followed by the second's. */
  lemma {:induction false} CollectAppend(rs1: seq<Result<Option<string>, Fault>>,
                                         rs2: seq<Result<Option<string>, Fault>>)
    requires Collect(rs1).Success? && Collect(rs2).Success?
    ensures Collect(rs1 + rs2) == Success(Collect(rs1).value + Collect(rs2).value)
    decreases |rs2|
  {
    if rs2 == [] {
      assert rs1 + rs2 == rs1;
      assert Collect(rs1).value + [] == Collect(rs1).value;
    } else {
      var n := |rs2| - 1;
      assert (rs1 + rs2)[..|rs1 + rs2| - 1] == rs1 + rs2[..n];
      assert (rs1 + rs2)[|rs1 + rs2| - 1] == rs2[n];
      assert Collect(rs2[..n]).Success?;
      CollectAppend(rs1, rs2[..n]);
      var a, b, c := Collect(rs1).value, Collect(rs2[..n]).value, OptionToSeq(rs2[n].value);
      assert a + b + c == a + (b + c);
    }
  }

  /** When every outcome is a found text, the run yields exactly those texts, in order. */
  lemma {:induction false} CollectAllFound(rs: seq<Result<Option<string>, Fault>>, texts: seq<string>)
    requires |texts| == |rs|
    requires forall j :: 0 <= j < |rs| ==> rs[j] == Success(Some(texts[j]))
    ensures Collect(rs) == Success(texts)
    decreases |rs|
  {
    if rs != [] {
      var n := |rs| - 1;
      CollectAllFound(rs[..n], texts[..n]);
      assert texts == texts[..n] + [texts[n]];
    }
  }

  /** The outcome of `CandidateAt` for each occurrence position, in order. */
  function CandidateOutcomes(html: string, idx: seq<nat>): (rs: seq<Result<Option<string>, Fault>>)
    ensures |rs| == |idx|
    ensures forall j :: 0 <= j < |idx| ==> rs[j] == CandidateAt(html, idx[j])
  {
    seq(|idx|, j requires 0 <= j < |idx| => CandidateAt(html, idx[j]))
  }

  /**
    The `urls` list the loop at lines 150-158 builds from the occurrence positions
    `idx`, in their order, or the exception the first bad occurrence throws.
    */
  function Candidates(html: string, idx: seq<nat>): (r: Result<seq<string>, Fault>)
    ensures r.Failure? ==> r.error == StartIndexOutOfRange
    ensures r.Success? ==> |r.value| <= |idx|
  {
    Collect(CandidateOutcomes(html, idx))
  }

  /** The loop throws exactly when some occurrence has no `>` at or after it. */
  lemma CandidatesFailIff(html: string, idx: seq<nat>)
    ensures Candidates(html, idx).Failure? <==>
              exists j :: 0 <= j < |idx| && NoneAfter(html, '>', idx[j])
  {
    var rs := CandidateOutcomes(html, idx);
    CollectFailIff(rs);
    forall j | 0 <= j < |idx| ensures rs[j].Failure? <==> NoneAfter(html, '>', idx[j]) {
      CandidateAtCases(html, idx[j]);
    }
  }

  /**
    Document order: the candidates of two runs of positions, one after the other,
    are the candidates of the first run followed by those of the second.
    */
  lemma CandidatesAppend(html: string, idx1: seq<nat>, idx2: seq<nat>)
    requires Candidates(html, idx1).Success? && Candidates(html, idx2).Success?
    ensures Candidates(html, idx1 + idx2)
            == Success(Candidates(html, idx1).value + Candidates(html, idx2).value)
  {
    var rs1, rs2 := CandidateOutcomes(html, idx1), CandidateOutcomes(html, idx2);
    var rs := CandidateOutcomes(html, idx1 + idx2);
    forall j | 0 <= j < |rs| ensures rs[j] == (rs1 + rs2)[j] {
      if j < |idx1| {
        assert (idx1 + idx2)[j] == idx1[j];
      } else {
        assert (idx1 + idx2)[j] == idx2[j - |idx1|];
      }
    }
    assert rs == rs1 + rs2;
    CollectAppend(rs1, rs2);
  }

  /**
    When every occurrence is well formed (a `>` and then a `<` follow it), there is
    exactly one candidate per occurrence, in order; `NonEmptyUnchanged` then keeps
    them all when none trims to empty.
    */
  lemma CandidatesAllDelimited(html: string, idx: seq<nat>, texts: seq<string>)
    requires |texts| == |idx|
    requires forall j :: 0 <= j < |idx| ==> DelimitedText(html, idx[j], texts[j])
    ensures Candidates(html, idx) == Success(texts)
  {
    var rs := CandidateOutcomes(html, idx);
    forall j | 0 <= j < |idx| ensures rs[j] == Success(Some(texts[j])) {
      var a, b :| Delimits(html, idx[j], a, b) && texts[j] == Trim(html[a + 1..b]);
      CandidateAtDelimited(html, idx[j], a, b);
    }
    CollectAllFound(rs, texts);
  }

  /**
    The loop at lines 150-158, in the source's own form: for each position, in
    order, find `>` and then `<`, and append the trimmed text between them.
    */
  method ExtractCandidates(html: string, idx: seq<nat>) returns (r: Result<seq<string>, Fault>)
    ensures r == Candidates(html, idx)
  {
    ghost var rs := CandidateOutcomes(html, idx);
    var urls: seq<string> := [];
    var i := 0;
    while i < |idx|
      invariant 0 <= i <= |idx|
      invariant Collect(rs[..i]) == Success(urls)
    {
      var k := idx[i];
      assert rs[..i + 1][..i] == rs[..i] && rs[..i + 1][i] == CandidateAt(html, k);
      if k > |html| {
        CollectFailIff(rs);
        return Failure(StartIndexOutOfRange);
      }
      var startEl := IndexOf(html, ">", k);
      if startEl == -1 {
        CollectFailIff(rs);
        return Failure(StartIndexOutOfRange);
      }
      var endEl := IndexOf(html, "<", startEl);
      if endEl != -1 {
        OccursAtChar(html, '>', startEl);
        OccursAtChar(html, '<', endEl);
        assert rs[i] == Success(Some(Trim(html[startEl + 1..endEl])));
        urls := urls + [Trim(html[startEl + 1..endEl])];
      } else {
        assert rs[i] == Success(None);
        assert urls + [] == urls;
      }
      i := i + 1;
    }
    assert rs[..i] == rs;
    r := Success(urls);
  }

  /** The `Where(u => !String.IsNullOrEmpty(u))` filter (line 160). */
  function NonEmpty(urls: seq<string>): (r: seq<string>)
    ensures |r| <= |urls|
    ensures forall j :: 0 <= j < |r| ==> r[j] != ""
  {
    if urls == [] then []
    else (if urls[0] == "" then [] else [urls[0]]) + NonEmpty(urls[1..])
  }

  /** The filter keeps exactly the non-empty strings. */
  lemma {:induction false} NonEmptyMembers(urls: seq<string>, u: string)
    ensures u in NonEmpty(urls) <==> u in urls && u != ""
  {
    if urls != [] {
      NonEmptyMembers(urls[1..], u);
      assert urls == [urls[0]] + urls[1..];
    }
  }

  /** The filter keeps document order: it works piece by piece. */
  lemma {:induction false} NonEmptyAppend(a: seq<string>, b: seq<string>)
    ensures NonEmpty(a + b) == NonEmpty(a) + NonEmpty(b)
  {
    if a != [] {
      NonEmptyAppend(a[1..], b);
      assert (a + b)[1..] == a[1..] + b;
    } else {
      assert a + b == b;
    }
  }

  /** A list with no empty string passes the filter unchanged. */
  lemma {:induction false} NonEmptyUnchanged(urls: seq<string>)
    requires forall j :: 0 <= j < |urls| ==> urls[j] != ""
    ensures NonEmpty(urls) == urls
  {
    if urls != [] {
      NonEmptyUnchanged(urls[1..]);
      assert urls == [urls[0]] + urls[1..];
    }
  }
}
