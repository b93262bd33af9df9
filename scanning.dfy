/** `GetAllIndexesOf`: greedy, left-to-right, non-overlapping marker occurrences. */
module Scanning {
  import opened DotNetStrings

  /**
    The positions `GetAllIndexesOf` reports once its cursor stands at `from`:
    the first occurrence at or after the cursor, then the same again with the
    cursor moved just past that occurrence.
    */
  function Occurrences(s: string, v: string, from: nat): seq<nat>
    requires |v| > 0 && from <= |s|
    decreases |s| - from
  {
    var k := IndexOf(s, v, from);
    if k == -1 then [] else [k] + Occurrences(s, v, k + |v|)
  }

  /** Every position in `r` is an occurrence of `v` in `s` at or after `from`. */
  predicate AllOccurAtOrAfter(s: string, v: string, from: nat, r: seq<nat>) {
    forall j :: 0 <= j < |r| ==> from <= r[j] && OccursAt(s, v, r[j])
  }

  /** Each position in `r` lies at least `width` after the one before it. */
  predicate NonOverlapping(width: nat, r: seq<nat>) {
    forall j :: 0 <= j < |r| - 1 ==> r[j] + width <= r[j + 1]
  }

  /**
    Every reported position is a true occurrence at or after the cursor, and the
    positions increase by at least the marker's length: no two reported
    occurrences overlap.
    */
  lemma {:induction false} OccurrencesSound(s: string, v: string, from: nat)
    requires |v| > 0 && from <= |s|
    ensures AllOccurAtOrAfter(s, v, from, Occurrences(s, v, from))
    ensures NonOverlapping(|v|, Occurrences(s, v, from))
    decreases |s| - from
  {
    var k := IndexOf(s, v, from);
    if k != -1 {
      OccurrencesSound(s, v, k + |v|);
      var r := Occurrences(s, v, from);
      var t := Occurrences(s, v, k + |v|);
      assert r == [k] + t;
      forall j | 0 <= j < |r| ensures from <= r[j] && OccursAt(s, v, r[j]) {
        if j > 0 { assert r[j] == t[j - 1]; }
      }
      forall j | 0 <= j < |r| - 1 ensures r[j] + |v| <= r[j + 1] {
        assert r[j + 1] == t[j];
        if j > 0 { assert r[j] == t[j - 1]; }
      }
    }
  }

  /**
    After each position in `r`, the next one is what `IndexOf` finds once the
    cursor has moved past the marker; after the last one it finds nothing.
    */
  predicate EachNextIsFirst(s: string, v: string, r: seq<nat>) {
    && (forall j :: 0 <= j < |r| - 1 ==> NextIsFirst(s, v, r, j))
    && (r != [] ==> r[|r| - 1] + |v| <= |s| && IndexOf(s, v, r[|r| - 1] + |v|) == -1)
  }

  /** `r[j + 1]` is the first occurrence at or after `r[j] + |v|`. */
  predicate NextIsFirst(s: string, v: string, r: seq<nat>, j: nat)
    requires j + 1 < |r|
  {
    r[j] + |v| <= |s| && r[j + 1] == IndexOf(s, v, r[j] + |v|)
  }

  /**
    Each reported position is the first occurrence at or after the previous one
    plus the marker's length (the first one: at or after the cursor), and the
    list ends exactly where that search finds nothing more.
    */
  lemma {:induction false} OccurrencesStep(s: string, v: string, from: nat)
    requires |v| > 0 && from <= |s|
    ensures Occurrences(s, v, from) == [] <==> IndexOf(s, v, from) == -1
    ensures Occurrences(s, v, from) != [] ==> Occurrences(s, v, from)[0] == IndexOf(s, v, from)
    ensures EachNextIsFirst(s, v, Occurrences(s, v, from))
    decreases |s| - from
  {
    var k := IndexOf(s, v, from);
    if k != -1 {
      OccurrencesStep(s, v, k + |v|);
      var t := Occurrences(s, v, k + |v|);
      assert Occurrences(s, v, from) == [k] + t;
      EachNextIsFirstCons(s, v, k, t);
    }
  }

  /** Putting `k` in front keeps `EachNextIsFirst` when the old head is the first occurrence after `k`. */
  lemma EachNextIsFirstCons(s: string, v: string, k: nat, t: seq<nat>)
    requires k + |v| <= |s| && EachNextIsFirst(s, v, t)
    requires t == [] ==> IndexOf(s, v, k + |v|) == -1
    requires t != [] ==> t[0] == IndexOf(s, v, k + |v|)
    ensures EachNextIsFirst(s, v, [k] + t)
  {
    var r := [k] + t;
    forall j | 0 <= j < |r| - 1 ensures NextIsFirst(s, v, r, j) {
      if j > 0 { assert NextIsFirst(s, v, t, j - 1); }
    }
    if t != [] { assert r[|r| - 1] == t[|t| - 1]; }
  }

  /** The occurrence at `p` is in `r` or overlaps one in `r` that starts before it. */
  predicate Covered(width: nat, r: seq<nat>, p: nat) {
    p in r || exists j :: 0 <= j < |r| && r[j] < p < r[j] + width
  }

  /**
    Nothing is missed: every occurrence at or after the cursor is reported, unless
    it overlaps a reported one that starts before it.
    */
  lemma {:induction false} OccurrencesComplete(s: string, v: string, from: nat, p: nat)
    requires |v| > 0 && from <= |s|
    requires from <= p && OccursAt(s, v, p)
    ensures Covered(|v|, Occurrences(s, v, from), p)
    decreases |s| - from
  {
    IndexOfFirst(s, v, from);
    var k := IndexOf(s, v, from);
    assert k != -1 && k <= p;
    var r := Occurrences(s, v, from);
    var t := Occurrences(s, v, k + |v|);
    assert r == [k] + t;
    if p >= k + |v| {
      OccurrencesComplete(s, v, k + |v|, p);
      if p !in t {
        var j :| 0 <= j < |t| && t[j] < p < t[j] + |v|;
        assert r[j + 1] == t[j];
      }
    } else if p != k {
      assert r[0] == k && k < p < k + |v|;
    }
  }

  /**
    `Replace` replaces exactly the occurrences `GetAllIndexesOf` reports (see
    `ReplaceAtReportedPositions`), so the text grows by `|rep| - |pat|` for each
    of them.
    */
  lemma {:induction false} ReplaceCountsOccurrences(s: string, pat: string, rep: string, from: nat)
    requires |pat| > 0 && from <= |s|
    ensures |ReplaceFrom(s, pat, rep, from)|
            == |s| - from + (|rep| - |pat|) * |Occurrences(s, pat, from)|
    decreases |s| - from
  {
    ReplaceAtReportedPositions(s, pat, rep, from);
    var o := Occurrences(s, pat, from);
    if o != [] {
      var k := o[0];
      ReplaceCountsOccurrences(s, pat, rep, k + |pat|);
      ScaleStep(|rep| - |pat|, |o| - 1);
    }
  }

  /**
    `Replace` rewrites exactly where `GetAllIndexesOf` reports: up to the first
    reported position it copies the text, there it puts `rep`, and it carries on
    just past that occurrence, where the rest of the report starts; with nothing
    reported it copies everything.
    */
  lemma ReplaceAtReportedPositions(s: string, pat: string, rep: string, from: nat)
    requires |pat| > 0 && from <= |s|
    ensures var o := Occurrences(s, pat, from);
            && (o == [] ==> ReplaceFrom(s, pat, rep, from) == s[from..])
            && (o != [] ==>
                  && from <= o[0] && o[0] + |pat| <= |s|
                  && o[1..] == Occurrences(s, pat, o[0] + |pat|)
                  && ReplaceFrom(s, pat, rep, from)
                     == s[from..o[0]] + rep + ReplaceFrom(s, pat, rep, o[0] + |pat|))
  {
    ReplaceAtFirst(s, pat, rep, from);
    var k := IndexOf(s, pat, from);
    if k != -1 {
      assert Occurrences(s, pat, from) == [k] + Occurrences(s, pat, k + |pat|);
    }
  }

  lemma ScaleStep(d: int, n: nat)
    ensures d * (n + 1) == d + d * n
  {
  }

  /** The marker occurs at all exactly when at least one position is reported. */
  lemma OccurrencesEmptyIff(s: string, v: string)
    requires |v| > 0
    ensures Occurrences(s, v, 0) == [] <==> !Contains(s, v)
  {
  }

  /**
    `GetAllIndexesOf(str, value)`. An empty `str` gives no positions, whatever
    `value` is. Otherwise the loop ends only for a non-empty `value` (for an empty
    one `IndexOf` finds the cursor itself and the cursor never moves on, see
    `EmptyPatternFoundAtCursor`), and then it reports exactly `Occurrences`.
    */
  method GetAllIndexesOf(str: string, value: string) returns (indexes: seq<nat>)
    requires |str| == 0 || |value| > 0
    ensures |str| == 0 ==> indexes == []
    ensures |value| > 0 ==> indexes == Occurrences(str, value, 0)
  {
    indexes := [];
    if |str| == 0 {
      return;
    }
    assert |value| > 0;
    var index := 0;
    while true
      invariant 0 <= index <= |str|
      invariant indexes + Occurrences(str, value, index) == Occurrences(str, value, 0)
      decreases |str| - index
    {
      var found := IndexOf(str, value, index);
      if found == -1 {
        assert indexes == Occurrences(str, value, 0);
        return;
      }
      ghost var rest := Occurrences(str, value, found + |value|);
      assert Occurrences(str, value, index) == [found] + rest;
      assert indexes + [found] + rest == indexes + ([found] + rest);
      indexes := indexes + [found];
      index := found + |value|;
    }
  }
}
