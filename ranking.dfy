/** The matching half of `GetSearchResults`: normalise the target URL and rank the candidates. */
module Ranking {
  import opened Wrappers
  import opened DotNetStrings
  import opened Scanning

  /**
    Line 164: lower-case the target, then remove every `"http://"`, then every
    `"https://"`, then every `"www."`, wherever they stand in the string.
    */
  function NormalizeTarget(targetUrl: string): string {
    Replace(Replace(Replace(ToLower(targetUrl), "http://", ""), "https://", ""), "www.", "")
  }

  /** The normalised target has no upper-case letter left. */
  lemma NormalizeTargetIsLowerCase(targetUrl: string)
    ensures HasNoUpper(NormalizeTarget(targetUrl))
  {
    var a := ToLower(targetUrl);
    var b := Replace(a, "http://", "");
    var c := Replace(b, "https://", "");
    var r := NormalizeTarget(targetUrl);
    forall i | 0 <= i < |r| ensures !('A' <= r[i] <= 'Z') {
      RemoveKeepsCharacters(c, "www.", 0, r[i]);
      RemoveKeepsCharacters(b, "https://", 0, r[i]);
      RemoveKeepsCharacters(a, "http://", 0, r[i]);
      assert a[0..] == a;
    }
  }

  /** A target that is already lower case and holds none of the three patterns is kept as it is. */
  lemma NormalizeTargetKeepsClean(targetUrl: string)
    requires HasNoUpper(targetUrl)
    requires !Contains(targetUrl, "http://") && !Contains(targetUrl, "https://")
             && !Contains(targetUrl, "www.")
    ensures NormalizeTarget(targetUrl) == targetUrl
  {
    ToLowerOfLower(targetUrl);
    IndexOfFirst(targetUrl, "http://", 0);
    IndexOfFirst(targetUrl, "https://", 0);
    IndexOfFirst(targetUrl, "www.", 0);
    ReplaceWithoutOccurrence(targetUrl, "http://", "", 0);
    ReplaceWithoutOccurrence(targetUrl, "https://", "", 0);
    ReplaceWithoutOccurrence(targetUrl, "www.", "", 0);
  }

  /**
    On a lower-case target without any `'h'` neither scheme can occur, so only the
    `"www."` removal has any effect.
    */
  lemma NormalizeTargetWithoutScheme(targetUrl: string)
    requires HasNoUpper(targetUrl) && 'h' !in targetUrl
    ensures NormalizeTarget(targetUrl) == Replace(targetUrl, "www.", "")
  {
    ToLowerOfLower(targetUrl);
    forall i | 0 <= i
      ensures !OccursAt(targetUrl, "http://", i) && !OccursAt(targetUrl, "https://", i)
    {
      NoOccurrenceAtOtherChar(targetUrl, "http://", i);
      NoOccurrenceAtOtherChar(targetUrl, "https://", i);
    }
    ReplaceWithoutOccurrence(targetUrl, "http://", "", 0);
    ReplaceWithoutOccurrence(targetUrl, "https://", "", 0);
    assert targetUrl[0..] == targetUrl;
  }

  /**
    Removal is not repeated on its own output, so normalising twice can remove
    more: `"wwwww.w."` loses the `"www."` at index 2 and leaves a new `"www."`,
    which a second pass removes.
    */
  lemma NormalizeTargetNotIdempotent()
    ensures NormalizeTarget("wwwww.w.") == "www."
    ensures NormalizeTarget(NormalizeTarget("wwwww.w.")) == ""
  {
    var s := "wwwww.w.";
    assert HasNoUpper(s) && 'h' !in s;
    NormalizeTargetWithoutScheme(s);
    RemoveWwwExample();
    var t := "www.";
    assert HasNoUpper(t) && 'h' !in t;
    NormalizeTargetWithoutScheme(t);
    assert OccursAt(t, "www.", 0) by {
      OccursAtSlice(t, "www.", 0);
      assert t[0..4] == t;
    }
  }

  lemma RemoveWwwExample()
    ensures Replace("wwwww.w.", "www.", "") == "www."
  {
    var s := "wwwww.w.";
    assert !OccursAt(s, "www.", 0) && !OccursAt(s, "www.", 1) by {
      OccursAtSlice(s, "www.", 0);
      OccursAtSlice(s, "www.", 1);
      assert s[0..4][3] != "www."[3];
      assert s[1..5][3] != "www."[3];
    }
    ReplaceSkips(s, "www.", "", 0, 2);
    assert OccursAt(s, "www.", 2) by {
      OccursAtSlice(s, "www.", 2);
      assert s[2..6] == "www.";
    }
    ReplaceWithoutOccurrence(s, "www.", "", 6);
  }

  /**
    The 1-based positions, in increasing order, of the candidates whose
    lower-cased text contains the target (the `if` at line 172).
    */
  function Matches(urls: seq<string>, target: string): seq<int>
    decreases |urls|
  {
    if urls == [] then []
    else
      var n := |urls| - 1;
      var prev := Matches(urls[..n], target);
      if Contains(ToLower(urls[n]), target) then prev + [n + 1] else prev
  }

  /** `Contains(ToLower(url), target)`: the loose, case-insensitive test of line 172. */
  predicate IsMatch(url: string, target: string) {
    Contains(ToLower(url), target)
  }

  /** Every listed position is a rank (between 1 and the number of candidates). */
  predicate AreRanks(r: seq<int>, count: nat) {
    forall j :: 0 <= j < |r| ==> 1 <= r[j] <= count
  }

  predicate StrictlyIncreasing(r: seq<int>) {
    forall j, k :: 0 <= j < k < |r| ==> r[j] < r[k]
  }

  /**
    The rank list is exactly the matching positions: a position is listed if and
    only if its candidate matches, and the list is ascending.
    */
  lemma {:induction false} MatchesSpec(urls: seq<string>, target: string)
    ensures AreRanks(Matches(urls, target), |urls|)
    ensures StrictlyIncreasing(Matches(urls, target))
    ensures forall i :: 0 <= i < |urls| ==>
              (i + 1 in Matches(urls, target) <==> IsMatch(urls[i], target))
    decreases |urls|
  {
    if urls != [] {
      var n := |urls| - 1;
      var p := urls[..n];
      MatchesSpec(p, target);
      forall i | 0 <= i < n ensures urls[i] == p[i] { }
    }
  }

  /**
    The first listed position is the highest ranking: its candidate matches and no
    candidate before it does.
    */
  lemma FirstMatchIsHighest(urls: seq<string>, target: string)
    requires Matches(urls, target) != []
    ensures var h := Matches(urls, target)[0];
            1 <= h <= |urls| && IsMatch(urls[h - 1], target)
            && forall i :: 0 <= i < h - 1 ==> !IsMatch(urls[i], target)
  {
    MatchesSpec(urls, target);
    var m := Matches(urls, target);
    assert forall j :: 0 <= j < |m| ==> m[0] <= m[j];
    forall i | 0 <= i < m[0] - 1 ensures !IsMatch(urls[i], target) {
      assert i + 1 !in m;
    }
  }

  /** No match at all exactly when no candidate contains the target. */
  lemma MatchesEmptyIff(urls: seq<string>, target: string)
    ensures Matches(urls, target) == [] <==> forall i :: 0 <= i < |urls| ==> !IsMatch(urls[i], target)
  {
    MatchesSpec(urls, target);
    var m := Matches(urls, target);
    if m != [] {
      assert IsMatch(urls[m[0] - 1], target);
    }
  }

  /**
    An empty target (what `"www."` or `"https://"` normalises to) is contained in
    every candidate, so every position is listed.
    */
  lemma {:induction false} EmptyTargetMatchesAll(urls: seq<string>)
    ensures Matches(urls, "") == seq(|urls|, i => i + 1)
    decreases |urls|
  {
    if urls != [] {
      var n := |urls| - 1;
      EmptyTargetMatchesAll(urls[..n]);
      EmptyPatternFoundAtCursor(ToLower(urls[n]), 0);
      assert seq(|urls|, i => i + 1) == seq(n, i => i + 1) + [n + 1];
    }
  }

  /**
    The loop at lines 168-180: walk the candidates in order, record the first
    matching position as the highest ranking (never overwritten afterwards) and
    append every matching position.
    */
  method RankMatches(urls: seq<string>, target: string)
    returns (matchRankings: seq<int>, highestRanking: Option<int>)
    ensures matchRankings == Matches(urls, target)
    ensures highestRanking == if matchRankings == [] then None else Some(matchRankings[0])
  {
    matchRankings, highestRanking := [], None;
    for i := 0 to |urls|
      invariant matchRankings == Matches(urls[..i], target)
      invariant highestRanking == if matchRankings == [] then None else Some(matchRankings[0])
    {
      assert urls[..i + 1][..i] == urls[..i];
      if Contains(ToLower(urls[i]), target) {
        if highestRanking.None? {
          highestRanking := Some(i + 1);
        }
        matchRankings := matchRankings + [i + 1];
      }
    }
    assert urls[..|urls|] == urls;
  }
}
