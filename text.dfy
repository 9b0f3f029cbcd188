/** Substring helpers shared by the formatter and the command-line rules.
    Strings are sequences of Unicode scalar values (`string` is `seq<char>`). */
module Text {

  /** `pat` appears in `s` starting at index `i`. */
  predicate OccursAt(s: string, pat: string, i: nat)
  {
    i + |pat| <= |s| && MatchesFrom(s, pat, i, 0)
  }

  /** Character-by-character comparison of `pat[k..]` with `s` from `i + k` on. */
  predicate MatchesFrom(s: string, pat: string, i: nat, k: nat)
    requires i + |pat| <= |s|
    decreases |pat| - k
  {
    k >= |pat| || (s[i + k] == pat[k] && MatchesFrom(s, pat, i, k + 1))
  }

  lemma {:induction false} MatchesFromAll(s: string, pat: string, i: nat, k: nat)
    requires i + |pat| <= |s|
    ensures MatchesFrom(s, pat, i, k) <==> forall q :: k <= q < |pat| ==> s[i + q] == pat[q]
    decreases |pat| - k
  {
    if k < |pat| {
      MatchesFromAll(s, pat, i, k + 1);
    }
  }

  /** An occurrence is an agreement of every character of the pattern. */
  lemma {:induction false} OccursAtChars(s: string, pat: string, i: nat)
    ensures OccursAt(s, pat, i) <==> i + |pat| <= |s| && forall q :: 0 <= q < |pat| ==> s[i + q] == pat[q]
  {
    if i + |pat| <= |s| {
      MatchesFromAll(s, pat, i, 0);
    }
  }

  /** An occurrence is an equal slice. */
  lemma {:induction false} OccursAtSlice(s: string, pat: string, i: nat)
    ensures OccursAt(s, pat, i) <==> i + |pat| <= |s| && s[i..i + |pat|] == pat
  {
    OccursAtChars(s, pat, i);
    if i + |pat| <= |s| && OccursAt(s, pat, i) {
      assert s[i..i + |pat|] == pat;
    }
  }

  /** Dropping the first element of `s` shifts every occurrence one place to the left. */
  lemma {:induction false} OccursAtTail(s: string, pat: string, i: nat)
    requires |s| > 0
    ensures OccursAt(s[1..], pat, i) <==> OccursAt(s, pat, i + 1)
  {
    OccursAtChars(s[1..], pat, i);
    OccursAtChars(s, pat, i + 1);
    if i + 1 + |pat| <= |s| {
      assert forall q :: 0 <= q < |pat| ==> (s[1..][i + q] == pat[q] <==> s[i + 1 + q] == pat[q]);
    }
  }

  /** `d` holds the elements of `s` from index `k` on (the suffix `s[k..]`,
      stated element-wise so that proofs about `d` need no slicing). */
  predicate IsShift(d: string, s: string, k: nat)
  {
    k <= |s| && |d| == |s| - k && forall p :: 0 <= p < |d| ==> d[p] == s[p + k]
  }

  lemma {:induction false} DropIsShift(s: string, k: nat)
    requires k <= |s|
    ensures IsShift(s[k..], s, k)
  {
  }

  /** Occurrences in a suffix are the occurrences in the whole, shifted by `k`. */
  lemma {:induction false} OccursAtShift(d: string, s: string, k: nat, pat: string, i: nat, i2: nat)
    requires IsShift(d, s, k) && i == i2 + k
    ensures OccursAt(d, pat, i2) <==> OccursAt(s, pat, i)
  {
    OccursAtChars(d, pat, i2);
    OccursAtChars(s, pat, i);
    if i2 + |pat| <= |d| {
      assert forall q :: 0 <= q < |pat| ==> (d[i2 + q] == pat[q] <==> s[i + q] == pat[q]);
    }
  }

  /** An occurrence that lies inside `s` is unaffected by what follows `s`. */
  lemma {:induction false} OccursAtPrefix(s: string, extra: string, pat: string, i: nat)
    requires i + |pat| <= |s|
    ensures OccursAt(s + extra, pat, i) <==> OccursAt(s, pat, i)
  {
    OccursAtChars(s + extra, pat, i);
    OccursAtChars(s, pat, i);
  }

  /** No element of `s` is `ch`. */
  predicate Lacks(s: string, ch: char)
  {
    forall i :: 0 <= i < |s| ==> s[i] != ch
  }

  lemma {:induction false} LacksConcat(a: string, b: string, ch: char)
    requires Lacks(a, ch) && Lacks(b, ch)
    ensures Lacks(a + b, ch)
  {
    forall i | 0 <= i < |a + b| ensures (a + b)[i] != ch {
      if i < |a| { assert (a + b)[i] == a[i]; } else { assert (a + b)[i] == b[i - |a|]; }
    }
  }

  /** Substring search, as `str::contains` with a string pattern: true when
      `pat` occurs somewhere in `s` (the empty pattern occurs everywhere). */
  function Contains(s: string, pat: string): (r: bool)
    ensures r <==> exists i: nat :: OccursAt(s, pat, i)
    decreases |s|
  {
    if |s| < |pat| then false
    else if OccursAt(s, pat, 0) then
      true
    else
      var rest := Contains(s[1..], pat);
      if rest then
        var k: nat :| OccursAt(s[1..], pat, k);
        OccursAtTail(s, pat, k);
        rest
      else
        assert forall i: nat :: !OccursAt(s, pat, i) by {
          forall i: nat ensures !OccursAt(s, pat, i) {
            if i > 0 { OccursAtTail(s, pat, i - 1); }
          }
        }
        rest
  }
}
