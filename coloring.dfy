/**
 * Capacity-constrained backtracking graph colouring.
 *
 * Nodes are the indices `0 .. n-1`; the graph is given by its adjacency
 * `adj`, where `adj[v]` is the set of neighbours of `v`. A colour is an index
 * `0 .. k-1`, and `limits[c]` is the largest number of nodes colour `c` may
 * receive. The search state is the `assignment` array (`Unassigned` for a
 * node without a colour) and the `count` array of running per-colour counts;
 * both are changed in place by `GraphColoring` and restored on backtracking.
 */
module Coloring {
  import opened Counting

  /** Marker for a node that holds no colour yet. */
  const Unassigned: int := -1

  /** What the script reports after the search. */
  datatype Outcome = Colored(assignment: seq<int>) | NoValidColoring

  // ---------------------------------------------------------------------------
  // The graph and the colourings it admits
  // ---------------------------------------------------------------------------

  /**
   * `adj` describes a simple undirected graph on `0 .. |adj|-1`: neighbours
   * are nodes, adjacency is symmetric, and there are no self-loops.
   */
  ghost predicate SimpleGraph(adj: seq<set<int>>)
  {
    forall v, m {:trigger m in adj[v]} :: 0 <= v < |adj| && m in adj[v] ==> 0 <= m < |adj| && m != v && v in adj[m]
  }

  /** `order` lists every node `0 .. n-1` exactly once. */
  ghost predicate IsNodeOrder(order: seq<int>, n: nat)
  {
    |order| == n &&
    (forall i :: 0 <= i < n ==> 0 <= order[i] < n) &&
    (forall i, j :: 0 <= i < j < n ==> order[i] != order[j]) &&
    (forall v :: 0 <= v < n ==> v in order)
  }

  /** No two adjacent nodes that both hold a colour hold the same one. */
  ghost predicate Proper(adj: seq<set<int>>, a: seq<int>)
  {
    forall v, m {:trigger m in adj[v]} ::
      0 <= v < |a| && v < |adj| && m in adj[v] && 0 <= m < |a| && a[v] != Unassigned ==> a[m] != a[v]
  }

  /** `used` nodes of a colour respect its limit (a negative limit admits no node). */
  predicate WithinLimit(used: int, limit: int)
  {
    used == 0 || used <= limit
  }

  /**
   * `sol` is a complete valid colouring: every node holds one of the colours
   * `0 .. |limits|-1`, adjacent nodes differ, and no colour is used more often
   * than its limit allows.
   */
  ghost predicate IsColoring(adj: seq<set<int>>, limits: seq<int>, sol: seq<int>)
  {
    |sol| == |adj| &&
    (forall v :: 0 <= v < |sol| ==> 0 <= sol[v] < |limits|) &&
    Proper(adj, sol) &&
    (forall c :: 0 <= c < |limits| ==> WithinLimit(Occurrences(sol, c), limits[c]))
  }

  /** `sol` keeps the colour of every node that `partial` has already coloured. */
  ghost predicate Agrees(partial: seq<int>, sol: seq<int>)
  {
    |sol| == |partial| &&
    forall v :: 0 <= v < |partial| && partial[v] != Unassigned ==> sol[v] == partial[v]
  }

  /**
   * Reading the colours of `x` and `y` node by node along `order`, from
   * position `i` on, `x` is lexicographically no larger than `y`.
   */
  ghost predicate LexLeqFrom(x: seq<int>, y: seq<int>, order: seq<int>, i: nat)
    decreases |order| - i
  {
    i >= |order| ||
    (0 <= order[i] < |x| && 0 <= order[i] < |y| &&
     (x[order[i]] < y[order[i]] ||
      (x[order[i]] == y[order[i]] && LexLeqFrom(x, y, order, i + 1))))
  }

  /**
   * The state of the search when it is about to colour `order[index]`: the
   * nodes before `index` in `order` hold colours, the rest are unassigned, the
   * partial colouring is proper, every counter equals the number of nodes
   * holding its colour, and that number is within the colour's limit.
   */
  ghost predicate SearchState(adj: seq<set<int>>, limits: seq<int>, order: seq<int>,
                              a: seq<int>, cnt: seq<int>, index: int)
  {
    SimpleGraph(adj) && IsNodeOrder(order, |adj|) &&
    |a| == |adj| && |cnt| == |limits| && 0 <= index <= |order| &&
    (forall j :: 0 <= j < index ==> 0 <= a[order[j]] < |limits|) &&
    (forall j :: index <= j < |order| ==> a[order[j]] == Unassigned) &&
    Proper(adj, a) &&
    (forall c {:trigger Occurrences(a, c)} :: 0 <= c < |limits| ==> cnt[c] == Occurrences(a, c) && WithinLimit(cnt[c], limits[c]))
  }

  /** `sol` is a valid colouring that keeps the colours already given in `a`. */
  ghost predicate Completes(adj: seq<set<int>>, limits: seq<int>, a: seq<int>, sol: seq<int>)
  {
    Agrees(a, sol) && IsColoring(adj, limits, sol)
  }

  /** No valid colouring keeps the colours already given in `a`. */
  ghost predicate NoCompletion(adj: seq<set<int>>, limits: seq<int>, a: seq<int>)
  {
    forall sol {:trigger Completes(adj, limits, a, sol)} :: !Completes(adj, limits, a, sol)
  }

  /**
   * `r` is a valid colouring that keeps the colours given in `a`, and along
   * `order` from position `index` on it is lexicographically no larger than
   * any other such colouring.
   */
  ghost predicate IsLeastCompletion(adj: seq<set<int>>, limits: seq<int>, order: seq<int>,
                                    a: seq<int>, r: seq<int>, index: nat)
  {
    Completes(adj, limits, a, r) &&
    forall sol {:trigger Completes(adj, limits, a, sol)} ::
      Completes(adj, limits, a, sol) ==> LexLeqFrom(r, sol, order, index)
  }

  /** Every valid colouring that keeps the colours of `a` gives node `v` a colour of at least `c`. */
  ghost predicate CompletionsAvoidBelow(adj: seq<set<int>>, limits: seq<int>, a: seq<int>, v: int, c: int)
  {
    forall sol {:trigger Completes(adj, limits, a, sol)} ::
      Completes(adj, limits, a, sol) && 0 <= v < |sol| ==> sol[v] >= c
  }

  // ---------------------------------------------------------------------------
  // Facts about the search state
  // ---------------------------------------------------------------------------

  /** The state built before the search starts: every node unassigned, every counter zero. */
  lemma InitialSearchState(adj: seq<set<int>>, limits: seq<int>, order: seq<int>)
    requires SimpleGraph(adj) && IsNodeOrder(order, |adj|)
    ensures SearchState(adj, limits, order, seq(|adj|, _ => Unassigned), seq(|limits|, _ => 0), 0)
    ensures forall sol :: |sol| == |adj| ==> Agrees(seq(|adj|, _ => Unassigned), sol)
  {
    var a, cnt := seq(|adj|, _ => Unassigned), seq(|limits|, _ => 0);
    forall c | 0 <= c < |limits|
      ensures cnt[c] == Occurrences(a, c) && WithinLimit(cnt[c], limits[c])
    {
      assert c !in a;
    }
    assert Proper(adj, a);
  }

  /** Once every node in `order` is coloured, the assignment is a complete valid colouring. */
  lemma CompleteStateIsColoring(adj: seq<set<int>>, limits: seq<int>, order: seq<int>, a: seq<int>, cnt: seq<int>)
    requires SearchState(adj, limits, order, a, cnt, |order|)
    ensures IsColoring(adj, limits, a)
  {
    forall v | 0 <= v < |a|
      ensures 0 <= a[v] < |limits|
    {
      assert v in order;
      var j :| 0 <= j < |order| && order[j] == v;
    }
  }

  /**
   * Giving the next node a safe colour (no neighbour holds it, its counter is
   * below its limit) and incrementing that colour's counter yields the search
   * state one node further on.
   */
  lemma SafeAssignmentAdvances(adj: seq<set<int>>, limits: seq<int>, order: seq<int>,
                               a: seq<int>, cnt: seq<int>, index: int, c: int)
    requires SearchState(adj, limits, order, a, cnt, index) && index < |order|
    requires 0 <= c < |limits|
    requires forall m :: m in adj[order[index]] ==> a[m] != c
    requires cnt[c] < limits[c]
    ensures SearchState(adj, limits, order, a[order[index] := c], cnt[c := cnt[c] + 1], index + 1)
  {
    var v := order[index];
    var a', cnt' := a[v := c], cnt[c := cnt[c] + 1];
    forall j | 0 <= j < index + 1
      ensures 0 <= a'[order[j]] < |limits|
    {
      if j < index {
        assert order[j] != v;
      }
    }
    forall j | index + 1 <= j < |order|
      ensures a'[order[j]] == Unassigned
    {
      assert order[j] != v;
    }
    forall d | 0 <= d < |limits|
      ensures cnt'[d] == Occurrences(a', d) && WithinLimit(cnt'[d], limits[d])
    {
      OccurrencesAfterUpdate(a, v, c, d);
    }
    forall u, m | 0 <= u < |a'| && u < |adj| && m in adj[u] && 0 <= m < |a'| && a'[u] != Unassigned
      ensures a'[m] != a'[u]
    {
      if u != v && m == v {
        assert u in adj[v];
      }
    }
    assert Proper(adj, a');
  }

  /**
   * Whatever colour a valid completion of the current state gives the next
   * node is a safe colour for it in the current state.
   */
  lemma CompletionChoiceIsSafe(adj: seq<set<int>>, limits: seq<int>, order: seq<int>,
                               a: seq<int>, cnt: seq<int>, index: int, sol: seq<int>)
    requires SearchState(adj, limits, order, a, cnt, index) && index < |order|
    requires Completes(adj, limits, a, sol)
    ensures 0 <= sol[order[index]] < |limits|
    ensures forall m :: m in adj[order[index]] ==> a[m] != sol[order[index]]
    ensures cnt[sol[order[index]]] < limits[sol[order[index]]]
  {
    var v := order[index];
    var c := sol[v];
    assert a[v] == Unassigned;
    forall m | m in adj[v]
      ensures a[m] != c
    {
      if a[m] != Unassigned {
        assert sol[m] == a[m];
      }
    }
    OccurrencesStrictlyGrow(a, sol, c, v);
  }

  /** A colour that is not safe for the next node is given to it by no valid completion. */
  lemma UnsafeColourSkipped(adj: seq<set<int>>, limits: seq<int>, order: seq<int>,
                            a: seq<int>, cnt: seq<int>, index: int, c: int)
    requires SearchState(adj, limits, order, a, cnt, index) && index < |order|
    requires 0 <= c < |limits|
    requires !((forall m :: m in adj[order[index]] ==> a[m] != c) && cnt[c] < limits[c])
    requires CompletionsAvoidBelow(adj, limits, a, order[index], c)
    ensures CompletionsAvoidBelow(adj, limits, a, order[index], c + 1)
  {
    forall sol | Completes(adj, limits, a, sol)
      ensures sol[order[index]] != c
    {
      CompletionChoiceIsSafe(adj, limits, order, a, cnt, index, sol);
    }
  }

  /** A colour whose tentative assignment has no completion is given to the node by no valid completion. */
  lemma FailedColourSkipped(adj: seq<set<int>>, limits: seq<int>, a: seq<int>, v: int, c: int)
    requires 0 <= v < |a| && a[v] == Unassigned && c != Unassigned
    requires CompletionsAvoidBelow(adj, limits, a, v, c)
    requires NoCompletion(adj, limits, a[v := c])
    ensures CompletionsAvoidBelow(adj, limits, a, v, c + 1)
  {
    forall sol | Completes(adj, limits, a, sol)
      ensures sol[v] != c
    {
      AssignKeepsCompletion(adj, limits, a, v, c, sol);
    }
  }

  /** When every colour has been ruled out for the next node, the current state has no completion. */
  lemma AllColoursSkipped(adj: seq<set<int>>, limits: seq<int>, a: seq<int>, v: int)
    requires 0 <= v < |a|
    requires CompletionsAvoidBelow(adj, limits, a, v, |limits|)
    ensures NoCompletion(adj, limits, a)
  {
  }

  /** A completion that gives unassigned node `v` the colour `c` is a completion of the state with `v` coloured `c`. */
  lemma AssignKeepsCompletion(adj: seq<set<int>>, limits: seq<int>, a: seq<int>, v: int, c: int, sol: seq<int>)
    requires 0 <= v < |a| && a[v] == Unassigned
    ensures Completes(adj, limits, a, sol) && sol[v] == c ==> Completes(adj, limits, a[v := c], sol)
  {
  }

  /**
   * If the colours below `c` are ruled out for node `order[index]` and `r` is
   * the least completion once that node takes `c`, then `r` is the least
   * completion of the current state.
   */
  lemma FirstSuccessIsLeast(adj: seq<set<int>>, limits: seq<int>, order: seq<int>,
                            a: seq<int>, index: nat, c: int, r: seq<int>)
    requires index < |order| && 0 <= order[index] < |a| && a[order[index]] == Unassigned && c != Unassigned
    requires CompletionsAvoidBelow(adj, limits, a, order[index], c)
    requires IsLeastCompletion(adj, limits, order, a[order[index] := c], r, index + 1)
    ensures IsLeastCompletion(adj, limits, order, a, r, index)
  {
    var v := order[index];
    forall sol | Completes(adj, limits, a, sol)
      ensures LexLeqFrom(r, sol, order, index)
    {
      AssignKeepsCompletion(adj, limits, a, v, c, sol);
    }
  }

  /** A state in which every node is coloured is its own least completion. */
  lemma CompleteStateIsLeast(adj: seq<set<int>>, limits: seq<int>, order: seq<int>, a: seq<int>, cnt: seq<int>)
    requires SearchState(adj, limits, order, a, cnt, |order|)
    ensures IsLeastCompletion(adj, limits, order, a, a, |order|)
  {
    CompleteStateIsColoring(adj, limits, order, a, cnt);
  }

  /** Writing a position and then writing its old value back leaves a sequence as it was. */
  lemma UpdateUndone(s: seq<int>, i: int, x: int)
    requires 0 <= i < |s|
    ensures s[i := x][i := s[i]] == s
  {
  }

  /** Two colourings that are each lexicographically no larger than the other along a node order are equal. */
  lemma {:induction false} LexLeqAntisymmetric(x: seq<int>, y: seq<int>, order: seq<int>, i: nat)
    requires LexLeqFrom(x, y, order, i) && LexLeqFrom(y, x, order, i)
    decreases |order| - i
    ensures forall j :: i <= j < |order| ==> 0 <= order[j] < |x| && 0 <= order[j] < |y| && x[order[j]] == y[order[j]]
  {
    if i < |order| {
      LexLeqAntisymmetric(x, y, order, i + 1);
    }
  }

  /**
   * Determinism: there is at most one colouring that is lexicographically
   * least along a node order, so the search, which returns that one, gives
   * the same answer on the same input.
   */
  lemma LeastColoringIsUnique(adj: seq<set<int>>, limits: seq<int>, order: seq<int>, x: seq<int>, y: seq<int>)
    requires IsNodeOrder(order, |adj|)
    requires IsColoring(adj, limits, x) && IsColoring(adj, limits, y)
    requires LexLeqFrom(x, y, order, 0) && LexLeqFrom(y, x, order, 0)
    ensures x == y
  {
    LexLeqAntisymmetric(x, y, order, 0);
    forall v | 0 <= v < |x|
      ensures x[v] == y[v]
    {
      assert v in order;
      var j :| 0 <= j < |order| && order[j] == v;
    }
  }

  /**
   * A valid colouring needs enough capacity: if the limits together admit
   * fewer nodes than the graph has, no colouring exists.
   */
  lemma InsufficientCapacityIsInfeasible(adj: seq<set<int>>, limits: seq<int>, sol: seq<int>)
    requires TotalAllowance(limits, |limits|) < |adj|
    ensures !IsColoring(adj, limits, sol)
  {
    if IsColoring(adj, limits, sol) {
      forall c | 0 <= c < |limits|
        ensures Occurrences(sol, c) <= Allowance(limits[c])
      {
        assert WithinLimit(Occurrences(sol, c), limits[c]);
      }
      TallyOfColours(sol, |limits|);
      TallyWithinAllowance(sol, limits, |limits|);
    }
  }

  // ---------------------------------------------------------------------------
  // The search
  // ---------------------------------------------------------------------------

  /** A set of nodes with no member is empty. */
  lemma EmptyWithoutMembers(s: set<int>)
    ensures (forall x :: x !in s) ==> s == {}
  {
    if forall x :: x !in s {
      assert s <= {};
    }
  }

  /**
   * `is_safe`: colour `color` may go to `node` when no neighbour already
   * holds it and its running count is strictly below its limit. Reads the
   * state and changes nothing.
   */
  method IsSafe(node: int, color: int, assignment: array<int>, adj: seq<set<int>>,
                limits: seq<int>, count: array<int>) returns (safe: bool)
    requires 0 <= node < |adj|
    requires forall m :: m in adj[node] ==> 0 <= m < assignment.Length
    requires 0 <= color < count.Length && color < |limits|
    ensures safe <==> (forall m :: m in adj[node] ==> assignment[m] != color) && count[color] < limits[color]
  {
    var rest := adj[node];
    while rest != {}
      invariant rest <= adj[node]
      invariant forall m :: m in adj[node] && m !in rest ==> assignment[m] != color
      decreases rest
    {
      EmptyWithoutMembers(rest);
      var neighbor :| neighbor in rest;
      if assignment[neighbor] == color {
        return false;
      }
      rest := rest - {neighbor};
    }
    if count[color] >= limits[color] {
      return false;
    }
    return true;
  }

  /**
   * `graph_coloring`: depth-first search over `order` from position `index`.
   * Each colour `0 .. numColors-1` is tried in ascending order; a safe one is
   * assigned and counted, the search recurses, and on failure both changes
   * are undone before the next colour is tried.
   *
   * On success the assignment is a complete valid colouring, the counters
   * equal the per-colour node counts, every colour already given is kept,
   * and the result is the lexicographically least such colouring along
   * `order`. On failure nothing has changed and no valid colouring keeps the
   * colours already given.
   */
  method GraphColoring(adj: seq<set<int>>, assignment: array<int>, count: array<int>,
                       limits: seq<int>, numColors: int, order: seq<int>, index: nat)
    returns (found: bool)
    requires assignment != count
    requires numColors == |limits|
    requires SearchState(adj, limits, order, assignment[..], count[..], index)
    modifies assignment, count
    decreases |order| - index
    ensures index == |order| ==> found && assignment[..] == old(assignment[..]) && count[..] == old(count[..])
    ensures found ==> SearchState(adj, limits, order, assignment[..], count[..], |order|)
    ensures found ==> IsLeastCompletion(adj, limits, order, old(assignment[..]), assignment[..], index)
    ensures !found ==> assignment[..] == old(assignment[..]) && count[..] == old(count[..])
    ensures !found ==> NoCompletion(adj, limits, old(assignment[..]))
  {
    if index == |order| {
      CompleteStateIsLeast(adj, limits, order, assignment[..], count[..]);
      return true;
    }
    var node := order[index];
    ghost var entry, entryCount := assignment[..], count[..];
    assert entry[node] == Unassigned;
    for color := 0 to numColors
      invariant assignment[..] == entry && count[..] == entryCount
      invariant CompletionsAvoidBelow(adj, limits, entry, node, color)
    {
      var safe := IsSafe(node, color, assignment, adj, limits, count);
      if !safe {
        UnsafeColourSkipped(adj, limits, order, entry, entryCount, index, color);
      } else {
        ghost var stepped, steppedCount := entry[node := color], entryCount[color := entryCount[color] + 1];
        assignment[node] := color;
        assert assignment[..] == stepped;
        count[color] := count[color] + 1;
        assert count[..] == steppedCount;
        SafeAssignmentAdvances(adj, limits, order, entry, entryCount, index, color);
        found := GraphColoring(adj, assignment, count, limits, numColors, order, index + 1);
        if found {
          FirstSuccessIsLeast(adj, limits, order, entry, index, color, assignment[..]);
          return;
        }
        UpdateUndone(entry, node, color);
        UpdateUndone(entryCount, color, entryCount[color] + 1);
        assignment[node] := Unassigned;
        assert assignment[..] == stepped[node := entry[node]];
        count[color] := count[color] - 1;
        assert count[..] == steppedCount[color := entryCount[color]];
        FailedColourSkipped(adj, limits, entry, node, color);
      }
    }
    AllColoursSkipped(adj, limits, entry, node);
    found := false;
  }

  /**
   * Number of colours the script's search tries when `k` colours are
   * requested: the palette it builds has `k` entries when `k > 1` and a
   * single entry otherwise, and the search loops over the palette.
   */
  function PaletteSize(k: int): nat
  {
    if k > 1 then k else 1
  }

  /**
   * As written, the palette and the counter list `[0] * k` have the same
   * length for every `k >= 1`, but for `k == 0` the palette still has one
   * entry while there is no counter, so colour 0 is tried against a counter
   * and a limit that do not exist.
   */
  lemma PaletteOutrunsCountersWhenNoColours(k: nat)
    ensures PaletteSize(k) == |seq(k, _ => 0)| <==> k >= 1
    ensures k == 0 ==> 0 < PaletteSize(k) && 0 >= |seq(k, _ => 0)|
  {
  }

  /**
   * The script's driver: every node starts unassigned and every counter at
   * zero, the search runs from the first node, and a failed search is
   * reported as "no valid coloring exists". The number of colours tried is
   * the number of limits.
   */
  method Solve(adj: seq<set<int>>, limits: seq<int>, order: seq<int>) returns (outcome: Outcome)
    requires SimpleGraph(adj) && IsNodeOrder(order, |adj|)
    ensures outcome.Colored? ==> IsColoring(adj, limits, outcome.assignment)
    ensures outcome.Colored? ==> forall sol :: IsColoring(adj, limits, sol) ==>
                                   LexLeqFrom(outcome.assignment, sol, order, 0)
    ensures outcome.NoValidColoring? ==> forall sol :: !IsColoring(adj, limits, sol)
  {
    var assignment := new int[|adj|](_ => Unassigned);
    var count := new int[|limits|](_ => 0);
    ghost var start := seq(|adj|, _ => Unassigned);
    InitialSearchState(adj, limits, order);
    assert assignment[..] == start;
    assert count[..] == seq(|limits|, _ => 0);
    var found := GraphColoring(adj, assignment, count, limits, |limits|, order, 0);
    if !found {
      forall sol
        ensures !IsColoring(adj, limits, sol)
      {
        assert !Completes(adj, limits, start, sol);
      }
      return NoValidColoring;
    }
    forall sol | IsColoring(adj, limits, sol)
      ensures LexLeqFrom(assignment[..], sol, order, 0)
    {
      assert Completes(adj, limits, start, sol);
    }
    return Colored(assignment[..]);
  }
}
