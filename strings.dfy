/**
  The few members of .NET's `System.String` that the search controller relies on,
  all with ordinal (culture-independent) semantics.
  */
module DotNetStrings {

  /**
    `v` occurs in `s` starting at position `i`. The comparison is written
    character by character, which keeps the cost of reasoning about many
    candidate positions low; `OccursAtSlice` gives the slice reading.
    */
  predicate OccursAt(s: string, v: string, i: int) {
    0 <= i && i + |v| <= |s| && MatchesFrom(s, v, i, 0)
  }

  /** The characters `v[t..]` stand in `s` from position `i + t` on. */
  predicate MatchesFrom(s: string, v: string, i: nat, t: nat)
    requires i + |v| <= |s|
    decreases |v| - t
  {
    t >= |v| || (s[i + t] == v[t] && MatchesFrom(s, v, i, t + 1))
  }

  lemma {:induction false} MatchesFromSlice(s: string, v: string, i: nat, t: nat)
    requires i + |v| <= |s| && t <= |v|
    ensures MatchesFrom(s, v, i, t) <==> s[i + t..i + |v|] == v[t..]
    decreases |v| - t
  {
    if t < |v| {
      MatchesFromSlice(s, v, i, t + 1);
      assert s[i + t..i + |v|] == [s[i + t]] + s[i + t + 1..i + |v|];
      assert v[t..] == [v[t]] + v[t + 1..];
    }
  }

  /** The slice reading of an occurrence. */
  lemma OccursAtSlice(s: string, v: string, i: int)
    ensures OccursAt(s, v, i) <==> 0 <= i && i + |v| <= |s| && s[i..i + |v|] == v
  {
    if 0 <= i && i + |v| <= |s| {
      MatchesFromSlice(s, v, i, 0);
    }
  }

  /** An occurrence at or after `k` is an occurrence in the suffix that starts at `k`. */
  lemma OccursAtSuffix(s: string, v: string, k: nat, i: int)
    requires k <= |s| && k <= i
    ensures OccursAt(s, v, i) <==> OccursAt(s[k..], v, i - k)
  {
    OccursAtSlice(s, v, i);
    OccursAtSlice(s[k..], v, i - k);
    if i + |v| <= |s| {
      assert s[k..][i - k..i - k + |v|] == s[i..i + |v|];
    }
  }

  /** A one-character pattern occurs exactly where that character stands. */
  lemma OccursAtChar(s: string, c: char, i: int)
    ensures OccursAt(s, [c], i) <==> 0 <= i < |s| && s[i] == c
  {
    if 0 <= i < |s| {
      assert MatchesFrom(s, [c], i, 1);
    }
  }

  /**
    `s.IndexOf(v, from)`: the first position at or after `from` where `v` occurs,
    or -1 when there is none. .NET throws for `from` outside `0..|s|`; callers
    model that case themselves.
    */
  function IndexOf(s: string, v: string, from: nat): (r: int)
    requires from <= |s|
    ensures r == -1 || (from <= r && OccursAt(s, v, r))
    decreases |s| - from
  {
    if OccursAt(s, v, from) then from
    else if from == |s| then -1
    else IndexOf(s, v, from + 1)
  }

  /** IndexOf finds the FIRST occurrence: none lies between the start and the answer, and none at all when it answers -1. */
  lemma {:induction false} IndexOfFirst(s: string, v: string, from: nat)
    requires from <= |s|
    ensures var r := IndexOf(s, v, from);
            (r != -1 ==> forall i :: from <= i < r ==> !OccursAt(s, v, i))
            && (r == -1 ==> forall i :: from <= i ==> !OccursAt(s, v, i))
    decreases |s| - from
  {
    if !OccursAt(s, v, from) && from < |s| {
      IndexOfFirst(s, v, from + 1);
    }
  }

  /** `s.Contains(v)`. */
  predicate Contains(s: string, v: string) {
    IndexOf(s, v, 0) != -1
  }

  lemma ContainsMeansOccurs(s: string, v: string)
    ensures Contains(s, v) <==> exists i :: OccursAt(s, v, i)
  {
    IndexOfFirst(s, v, 0);
    if Contains(s, v) {
      assert OccursAt(s, v, IndexOf(s, v, 0));
    }
  }

  /** For any position, an empty pattern is found right there: a search for it never moves on. */
  lemma EmptyPatternFoundAtCursor(s: string, from: nat)
    requires from <= |s|
    ensures IndexOf(s, "", from) == from
  {
    assert OccursAt(s, "", from);
  }

  // ---------------------------------------------------------------- Trim

  /** `char.IsWhiteSpace`: the Unicode separators (Zs, Zl, Zp), U+0009..U+000D and U+0085. */
  predicate IsWhiteSpace(c: char) {
    var n := c as int;
    (0x09 <= n <= 0x0D) || n == 0x20 || n == 0x85 || n == 0xA0 || n == 0x1680
    || (0x2000 <= n <= 0x200A) || n == 0x2028 || n == 0x2029 || n == 0x202F
    || n == 0x205F || n == 0x3000
  }

  predicate AllWhiteSpace(s: string) {
    forall i :: 0 <= i < |s| ==> IsWhiteSpace(s[i])
  }

  /** The length of the longest all-whitespace prefix of `s`. */
  function LeadingWhiteSpace(s: string): (n: nat)
    ensures n <= |s|
  {
    if |s| > 0 && IsWhiteSpace(s[0]) then 1 + LeadingWhiteSpace(s[1..]) else 0
  }

  lemma {:induction false} LeadingWhiteSpaceIsLongest(s: string)
    ensures var n := LeadingWhiteSpace(s);
            AllWhiteSpace(s[..n]) && (n < |s| ==> !IsWhiteSpace(s[n]))
  {
    if |s| > 0 && IsWhiteSpace(s[0]) {
      LeadingWhiteSpaceIsLongest(s[1..]);
      var n := LeadingWhiteSpace(s);
      assert s[..n] == [s[0]] + s[1..][..n - 1];
    }
  }

  /** The length of the longest all-whitespace suffix of `s`. */
  function TrailingWhiteSpace(s: string): (n: nat)
    ensures n <= |s|
  {
    if |s| > 0 && IsWhiteSpace(s[|s| - 1]) then 1 + TrailingWhiteSpace(s[..|s| - 1]) else 0
  }

  lemma {:induction false} TrailingWhiteSpaceIsLongest(s: string)
    ensures var n := TrailingWhiteSpace(s);
            AllWhiteSpace(s[|s| - n..]) && (n < |s| ==> !IsWhiteSpace(s[|s| - n - 1]))
  {
    if |s| > 0 && IsWhiteSpace(s[|s| - 1]) {
      var p := s[..|s| - 1];
      TrailingWhiteSpaceIsLongest(p);
      var n := TrailingWhiteSpace(s);
      assert n == 1 + TrailingWhiteSpace(p);
      assert s[|s| - n..] == p[|p| - (n - 1)..] + [s[|s| - 1]];
      if n < |s| {
        assert s[|s| - n - 1] == p[|p| - (n - 1) - 1];
      }
    }
  }

  /** `s.Trim()`: `s` without its leading and trailing whitespace (see `TrimSpec`). */
  function Trim(s: string): (r: string)
    ensures |r| <= |s|
  {
    var a := LeadingWhiteSpace(s);
    if a == |s| then ""
    else
      var b := TrailingWhiteSpace(s);
      LeadingWhiteSpaceIsLongest(s);
      TrailingWhiteSpaceIsLongest(s);
      assert |s| - b > a;
      s[a..|s| - b]
  }

  /**
    What `Trim` promises: the result is empty exactly when `s` is all whitespace,
    and otherwise neither starts nor ends with whitespace; it is the part of `s`
    after its leading whitespace, and what follows it is whitespace too.
    */
  lemma TrimSpec(s: string)
    ensures Trim(s) == "" <==> AllWhiteSpace(s)
    ensures Trim(s) != "" ==> !IsWhiteSpace(Trim(s)[0]) && !IsWhiteSpace(Trim(s)[|Trim(s)| - 1])
    ensures var a := LeadingWhiteSpace(s);
            a + |Trim(s)| <= |s| && Trim(s) == s[a..a + |Trim(s)|]
            && AllWhiteSpace(s[..a]) && AllWhiteSpace(s[a + |Trim(s)|..])
  {
    var a := LeadingWhiteSpace(s);
    if a == |s| {
      TrimAllWhiteSpace(s);
    } else {
      TrimNotAllWhiteSpace(s);
    }
  }

  lemma TrimAllWhiteSpace(s: string)
    requires LeadingWhiteSpace(s) == |s|
    ensures Trim(s) == "" && AllWhiteSpace(s)
    ensures AllWhiteSpace(s[..LeadingWhiteSpace(s)]) && AllWhiteSpace(s[|s|..])
  {
    LeadingWhiteSpaceIsLongest(s);
    assert s[..|s|] == s;
  }

  lemma TrimNotAllWhiteSpace(s: string)
    requires LeadingWhiteSpace(s) < |s|
    ensures var a := LeadingWhiteSpace(s);
            var r := Trim(s);
            r != "" && !AllWhiteSpace(s)
            && !IsWhiteSpace(r[0]) && !IsWhiteSpace(r[|r| - 1])
            && a + |r| <= |s| && r == s[a..a + |r|]
            && AllWhiteSpace(s[..a]) && AllWhiteSpace(s[a + |r|..])
  {
    TrimIsMiddle(s);
    var a := LeadingWhiteSpace(s);
    var b := TrailingWhiteSpace(s);
    var r := Trim(s);
    assert r[0] == s[a];
    assert r[|r| - 1] == s[|s| - b - 1];
    assert a + |r| == |s| - b;
  }

  /** Past all-whitespace ends on both sides, what `Trim` keeps starts and ends with non-whitespace. */
  lemma TrimIsMiddle(s: string)
    requires LeadingWhiteSpace(s) < |s|
    ensures var a := LeadingWhiteSpace(s);
            var b := TrailingWhiteSpace(s);
            && a < |s| - b && Trim(s) == s[a..|s| - b]
            && !IsWhiteSpace(s[a]) && !IsWhiteSpace(s[|s| - b - 1])
            && AllWhiteSpace(s[..a]) && AllWhiteSpace(s[|s| - b..])
  {
    LeadingWhiteSpaceIsLongest(s);
    TrailingWhiteSpaceIsLongest(s);
  }

  /** Trimming keeps characters of `s` only. */
  lemma TrimKeepsCharacters(s: string)
    ensures forall c :: c in Trim(s) ==> c in s
  {
    TrimSpec(s);
  }

  // ---------------------------------------------------------------- ToLower

  /**
    Lower-casing of one character: no capital is left, a letter stays the same
    letter of the alphabet in small form, and every other character is kept.
    */
  function LowerChar(c: char): (d: char)
    ensures !('A' <= d <= 'Z')
    ensures ('a' <= d <= 'z') <==> ('a' <= c <= 'z' || 'A' <= c <= 'Z')
    ensures 'A' <= c <= 'Z' ==> d as int - 'a' as int == c as int - 'A' as int
    ensures !('A' <= c <= 'Z') ==> d == c
  {
    if 'A' <= c <= 'Z' then (c as int + 32) as char else c
  }

  /** Lower-casing a lower-cased character changes nothing more. */
  lemma LowerCharIdempotent(c: char)
    ensures LowerChar(LowerChar(c)) == LowerChar(c)
  {
  }

  predicate HasNoUpper(s: string) {
    forall i :: 0 <= i < |s| ==> !('A' <= s[i] <= 'Z')
  }

  /** `s.ToLower()`: same length, every character lower-cased, and no upper-case letter left. */
  function ToLower(s: string): (r: string)
    ensures |r| == |s| && HasNoUpper(r)
    ensures forall i :: 0 <= i < |s| ==> r[i] == LowerChar(s[i])
  {
    seq(|s|, i requires 0 <= i < |s| => LowerChar(s[i]))
  }

  lemma ToLowerOfLower(s: string)
    requires HasNoUpper(s)
    ensures ToLower(s) == s
  {
  }

  /** Lower-casing twice is lower-casing once. */
  lemma ToLowerIdempotent(s: string)
    ensures ToLower(ToLower(s)) == ToLower(s)
  {
    ToLowerOfLower(ToLower(s));
  }

  // ---------------------------------------------------------------- Replace

  /**
    `s[from..].Replace(pat, rep)`: scanning left to right from `from`, every
    occurrence of `pat` that does not overlap an earlier replaced one is replaced
    by `rep`; the replacement text is never rescanned. .NET rejects an empty `pat`.
    */
  function ReplaceFrom(s: string, pat: string, rep: string, from: nat): string
    requires |pat| > 0 && from <= |s|
    decreases |s| - from
  {
    if from == |s| then ""
    else if OccursAt(s, pat, from) then rep + ReplaceFrom(s, pat, rep, from + |pat|)
    else [s[from]] + ReplaceFrom(s, pat, rep, from + 1)
  }

  /** `s.Replace(pat, rep)`. */
  function Replace(s: string, pat: string, rep: string): string
    requires |pat| > 0
  {
    ReplaceFrom(s, pat, rep, 0)
  }

  /** Removing occurrences (rep = "") only ever drops characters. */
  lemma {:induction false} RemoveKeepsCharacters(s: string, pat: string, from: nat, c: char)
    requires |pat| > 0 && from <= |s|
    requires c in ReplaceFrom(s, pat, "", from)
    ensures c in s[from..]
    decreases |s| - from
  {
    if OccursAt(s, pat, from) {
      RemoveKeepsCharacters(s, pat, from + |pat|, c);
      assert s[from + |pat|..] == s[from..][|pat|..];
    } else if c != s[from] {
      RemoveKeepsCharacters(s, pat, from + 1, c);
      assert s[from + 1..] == s[from..][1..];
    }
  }

  /** Where `pat` no longer occurs, Replace leaves the text as it is. */
  lemma {:induction false} ReplaceWithoutOccurrence(s: string, pat: string, rep: string, from: nat)
    requires |pat| > 0 && from <= |s|
    requires forall i :: from <= i ==> !OccursAt(s, pat, i)
    ensures ReplaceFrom(s, pat, rep, from) == s[from..]
    decreases |s| - from
  {
    if from < |s| {
      ReplaceWithoutOccurrence(s, pat, rep, from + 1);
      assert s[from..] == [s[from]] + s[from + 1..];
    }
  }

  /** Replace copies the stretch `s[from..k]` unchanged when no occurrence starts inside it. */
  lemma {:induction false} ReplaceSkips(s: string, pat: string, rep: string, from: nat, k: nat)
    requires |pat| > 0 && from <= k <= |s|
    requires forall i :: from <= i < k ==> !OccursAt(s, pat, i)
    ensures ReplaceFrom(s, pat, rep, from) == s[from..k] + ReplaceFrom(s, pat, rep, k)
    decreases k - from
  {
    if from < k {
      ReplaceSkips(s, pat, rep, from + 1, k);
      assert !OccursAt(s, pat, from);
      assert ReplaceFrom(s, pat, rep, from) == [s[from]] + ReplaceFrom(s, pat, rep, from + 1);
      assert s[from..k] == [s[from]] + s[from + 1..k];
    } else {
      assert s[from..k] == [];
    }
  }

  /**
    Replace copies the text up to the first occurrence at or after `from`, puts
    `rep` in its place and carries on just past it; with no occurrence it copies
    everything.
    */
  lemma ReplaceAtFirst(s: string, pat: string, rep: string, from: nat)
    requires |pat| > 0 && from <= |s|
    ensures var k := IndexOf(s, pat, from);
            && (k == -1 ==> ReplaceFrom(s, pat, rep, from) == s[from..])
            && (k != -1 ==> k + |pat| <= |s|
                            && ReplaceFrom(s, pat, rep, from)
                               == s[from..k] + rep + ReplaceFrom(s, pat, rep, k + |pat|))
  {
    IndexOfFirst(s, pat, from);
    var k := IndexOf(s, pat, from);
    if k == -1 {
      ReplaceWithoutOccurrence(s, pat, rep, from);
    } else {
      ReplaceSkips(s, pat, rep, from, k);
      assert ReplaceFrom(s, pat, rep, k) == rep + ReplaceFrom(s, pat, rep, k + |pat|);
    }
  }

  /** An occurrence needs its first character: a position holding another character starts none. */
  lemma NoOccurrenceAtOtherChar(s: string, v: string, i: int)
    requires |v| > 0 && (0 <= i < |s| ==> s[i] != v[0])
    ensures !OccursAt(s, v, i)
  {
  }

  /** A position where some character of the pattern differs from the text starts no occurrence. */
  lemma NoOccurrenceAtMismatch(s: string, v: string, i: nat, t: nat)
    requires t < |v| && i + t < |s| && s[i + t] != v[t]
    ensures !OccursAt(s, v, i)
  {
    OccursAtSlice(s, v, i);
    if i + |v| <= |s| {
      assert s[i..i + |v|][t] == s[i + t];
    }
  }

  /** With a single occurrence at `k`, Replace swaps exactly that stretch for `rep`. */
  lemma ReplaceOnce(s: string, pat: string, rep: string, k: nat)
    requires |pat| > 0 && OccursAt(s, pat, k)
    requires forall i :: 0 <= i < k ==> !OccursAt(s, pat, i)
    requires forall i :: k + |pat| <= i ==> !OccursAt(s, pat, i)
    ensures Replace(s, pat, rep) == s[..k] + rep + s[k + |pat|..]
  {
    ReplaceSkips(s, pat, rep, 0, k);
    ReplaceWithoutOccurrence(s, pat, rep, k + |pat|);
    assert s[0..k] == s[..k];
  }

  /**
    Replace on `pre + pat + post`, where `pre` never holds the pattern's first
    character and `post` holds no occurrence, swaps just the middle for `rep`.
    */
  lemma ReplaceInConcat(pre: string, pat: string, post: string, rep: string)
    requires |pat| > 0
    requires forall i :: 0 <= i < |pre| ==> pre[i] != pat[0]
    requires forall i :: 0 <= i ==> !OccursAt(post, pat, i)
    ensures Replace(pre + pat + post, pat, rep) == pre + rep + post
  {
    var s := pre + pat + post;
    var k := |pre|;
    forall i | 0 <= i < k ensures !OccursAt(s, pat, i) {
      assert s[i] == pre[i];
      NoOccurrenceAtOtherChar(s, pat, i);
    }
    assert s[k..k + |pat|] == pat;
    OccursAtSlice(s, pat, k);
    assert s[k + |pat|..] == post;
    forall i | k + |pat| <= i ensures !OccursAt(s, pat, i) {
      OccursAtSuffix(s, pat, k + |pat|, i);
    }
    ReplaceOnce(s, pat, rep, k);
    assert s[..k] == pre;
  }

  /** A text without the pattern's first character holds no occurrence of it. */
  lemma NoOccurrenceWithoutHead(s: string, v: string)
    requires |v| > 0 && forall i :: 0 <= i < |s| ==> s[i] != v[0]
    ensures forall i :: 0 <= i ==> !OccursAt(s, v, i)
  {
    forall i | 0 <= i ensures !OccursAt(s, v, i) {
      NoOccurrenceAtOtherChar(s, v, i);
    }
  }

  // ---------------------------------------------------------------- ToString and Join

  function DigitChar(d: nat): (c: char)
    requires d < 10
    ensures '0' <= c <= '9' && c as int - '0' as int == d
  {
    ('0' as int + d) as char
  }

  /** The decimal rendering of a natural number, most significant digit first. */
  function NatToString(n: nat): (s: string)
    ensures |s| > 0
    ensures forall i :: 0 <= i < |s| ==> '0' <= s[i] <= '9'
  {
    if n < 10 then [DigitChar(n)] else NatToString(n / 10) + [DigitChar(n % 10)]
  }

  /** `int.ToString()` in the invariant culture: digits, after a `'-'` when negative. */
  function IntToString(i: int): (s: string)
    ensures |s| > 0
    ensures forall j :: 0 <= j < |s| ==> s[j] == '-' || '0' <= s[j] <= '9'
  {
    if i < 0 then "-" + NatToString(-i) else NatToString(i)
  }

  /** The value of a string of decimal digits. */
  function DecimalValue(s: string): nat
    requires forall i :: 0 <= i < |s| ==> '0' <= s[i] <= '9'
  {
    if s == [] then 0
    else DecimalValue(s[..|s| - 1]) * 10 + (s[|s| - 1] as int - '0' as int)
  }

  /** Reading the rendered digits back gives the number: the rendering loses nothing. */
  lemma {:induction false} NatToStringRoundTrip(n: nat)
    ensures DecimalValue(NatToString(n)) == n
  {
    var s := NatToString(n);
    if n >= 10 {
      NatToStringRoundTrip(n / 10);
      assert s[..|s| - 1] == NatToString(n / 10);
    } else {
      assert s[..|s| - 1] == [];
    }
  }

  /** `String.Join(sep, xs)` over integers: empty exactly for an empty list. */
  function JoinInts(sep: string, xs: seq<int>): (r: string)
    ensures r == "" <==> xs == []
  {
    if xs == [] then ""
    else if |xs| == 1 then IntToString(xs[0])
    else IntToString(xs[0]) + sep + JoinInts(sep, xs[1..])
  }

  /** Joining one more number appends the separator and that number's rendering. */
  lemma {:induction false} JoinIntsAppend(sep: string, xs: seq<int>, x: int)
    requires xs != []
    ensures JoinInts(sep, xs + [x]) == JoinInts(sep, xs) + sep + IntToString(x)
    decreases |xs|
  {
    if |xs| == 1 {
      assert (xs + [x])[1..] == [x];
    } else {
      JoinIntsAppend(sep, xs[1..], x);
      assert (xs + [x])[1..] == xs[1..] + [x];
    }
  }
}
