/**
 * Counting how many nodes hold a colour.
 *
 * The search keeps one running counter per colour (`color_count`); these
 * functions give the value that counter is meant to hold, so that the
 * search can be proved to keep it exact.
 */
module Counting {

  /** Number of positions of `s` that hold `c`. */
  function Occurrences(s: seq<int>, c: int): (r: nat)
    ensures r <= |s|
    ensures r == 0 <==> c !in s
  {
    if |s| == 0 then 0
    else Occurrences(s[..|s| - 1], c) + (if s[|s| - 1] == c then 1 else 0)
  }

  /** Overwriting one position moves one occurrence from the old value to the new one. */
  lemma {:induction false} OccurrencesAfterUpdate(s: seq<int>, i: int, x: int, c: int)
    requires 0 <= i < |s|
    ensures Occurrences(s[i := x], c)
            == Occurrences(s, c) - (if s[i] == c then 1 else 0) + (if x == c then 1 else 0)
  {
    var n := |s|;
    if i < n - 1 {
      assert s[i := x][..n - 1] == s[..n - 1][i := x];
      OccurrencesAfterUpdate(s[..n - 1], i, x, c);
    } else {
      assert s[i := x][..n - 1] == s[..n - 1];
    }
  }

  /** If every `c` of `a` is still a `c` in `b`, then `b` holds at least as many. */
  lemma {:induction false} OccurrencesMonotone(a: seq<int>, b: seq<int>, c: int)
    requires |a| == |b|
    requires forall i :: 0 <= i < |a| && a[i] == c ==> b[i] == c
    ensures Occurrences(a, c) <= Occurrences(b, c)
  {
    if |a| > 0 {
      OccurrencesMonotone(a[..|a| - 1], b[..|b| - 1], c);
    }
  }

  /** ... and strictly more when `b` turned one further position into `c`. */
  lemma {:induction false} OccurrencesStrictlyGrow(a: seq<int>, b: seq<int>, c: int, v: int)
    requires |a| == |b|
    requires forall i :: 0 <= i < |a| && a[i] == c ==> b[i] == c
    requires 0 <= v < |a| && a[v] != c && b[v] == c
    ensures Occurrences(a, c) < Occurrences(b, c)
  {
    var n := |a|;
    if v == n - 1 {
      OccurrencesMonotone(a[..n - 1], b[..n - 1], c);
    } else {
      OccurrencesStrictlyGrow(a[..n - 1], b[..n - 1], c, v);
    }
  }

  /** Sum of `Occurrences(s, c)` over the colours `0 <= c < k`. */
  function Tally(s: seq<int>, k: nat): nat
  {
    if k == 0 then 0 else Tally(s, k - 1) + Occurrences(s, k - 1)
  }

  lemma {:induction false} TallyAppend(s: seq<int>, x: int, k: nat)
    ensures Tally(s + [x], k) == Tally(s, k) + (if 0 <= x < k then 1 else 0)
  {
    assert (s + [x])[..|s|] == s;
    if k > 0 {
      TallyAppend(s, x, k - 1);
    }
  }

  /** When every entry is one of the colours `0 .. k-1`, the per-colour counts add up to the length. */
  lemma {:induction false} TallyOfColours(s: seq<int>, k: nat)
    requires forall i :: 0 <= i < |s| ==> 0 <= s[i] < k
    ensures Tally(s, k) == |s|
  {
    if |s| > 0 {
      var init, last := s[..|s| - 1], s[|s| - 1];
      assert init + [last] == s;
      TallyOfColours(init, k);
      TallyAppend(init, last, k);
    } else {
      TallyOfEmpty(k);
    }
  }

  lemma {:induction false} TallyOfEmpty(k: nat)
    ensures Tally([], k) == 0
  {
    if k > 0 {
      TallyOfEmpty(k - 1);
    }
  }

  /** How many nodes a limit admits: a negative limit admits none. */
  function Allowance(limit: int): (r: nat)
    ensures r <= limit || limit < 0
  {
    if limit < 0 then 0 else limit
  }

  /** Sum of the allowances of the first `k` limits. */
  function TotalAllowance(limits: seq<int>, k: nat): nat
    requires k <= |limits|
  {
    if k == 0 then 0 else TotalAllowance(limits, k - 1) + Allowance(limits[k - 1])
  }

  /** Per-colour bounds add up: the first `k` counts never exceed the first `k` allowances. */
  lemma {:induction false} TallyWithinAllowance(s: seq<int>, limits: seq<int>, k: nat)
    requires k <= |limits|
    requires forall c :: 0 <= c < k ==> Occurrences(s, c) <= Allowance(limits[c])
    ensures Tally(s, k) <= TotalAllowance(limits, k)
  {
    if k > 0 {
      TallyWithinAllowance(s, limits, k - 1);
    }
  }
}
