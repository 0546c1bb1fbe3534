# Capacity-constrained graph colouring, modelled in Dafny

This project models the search at the heart of `gragh_coloring.py`. The script
colours an undirected simple graph with `k` colours, and each colour `c` may be
given to at most `color_limits[c]` nodes. Adjacent nodes must get different
colours. If no such colouring exists, the script says so.

The model has two parts:

- `is_safe` becomes `Coloring.IsSafe`. It is a read-only method whose loop
  walks the neighbours of a node and stops early, as the source does.
- `graph_coloring` becomes `Coloring.GraphColoring`. It is a recursive method
  that changes two arrays in place:
  - `assignment` plays the role of `color_assignment`, with `-1`
    (`Unassigned`) for a node that has no colour yet;
  - `count` plays the role of `color_count`.

  For each node it tries colours `0 .. k-1` in ascending order. It assigns and
  counts a safe colour, recurses, and on failure undoes both changes.
- The script's set-up and its handling of the result become `Coloring.Solve`.
  The set-up makes every node `-1` and every counter `0`, then runs the search
  from position 0. `Solve` reports a failed search as `NoValidColoring`
  instead of raising `ValueError`.

Nodes are the indices `0 .. n-1`, and the graph is a sequence of neighbour sets
`adj`. `SimpleGraph` says that this adjacency is symmetric and has no
self-loops. The script guarantees both: it skips self-loops when it reads edges
(line 151), and a networkx `Graph` stores undirected adjacency.

`node_list` is a permutation of the nodes (`IsNodeOrder`). The limits are a
sequence because the search only reads them. `colors` matters only through its
length, which the search receives as `numColors`.

The specification side is made of ghost predicates:

- `IsColoring` is a complete valid colouring. Every node holds a colour in
  `[0, k)`, adjacent nodes differ, and no colour is used by more nodes than its
  limit allows.
- `SearchState` is the search state on entry to a call at position `index`.
  The nodes before `index` in `node_list` hold colours and the rest are `-1`.
  The partial colouring is proper. Every counter equals the number of nodes
  holding its colour (`Counting.Occurrences`), and that number is within the
  limit.
- `Completes`, `NoCompletion` and `IsLeastCompletion` relate a partial
  assignment to the complete colourings that extend it.
- `LexLeqFrom` compares two colourings lexicographically, reading their
  colours node by node in `node_list` order.

The script never checks the limits, and a limit may be negative. Such a colour
can never pass `is_safe`, so it is never used. Its counter stays at `0`, which
is *above* the limit. Validity is therefore stated as "a used colour is used at
most `limit` times" (`WithinLimit`). For non-negative limits this is the same
as `count <= limit`.

The script also does none of the configuration checks that a caller might
expect: `k >= 1`, non-negative limits, a well-formed node order. The model
follows the code and adds none of them.

## Model

| member | source | states |
|---|---|---|
| `Coloring.IsSafe` | gragh_coloring.py:54-63 | Returns true exactly when no neighbour of `node` holds `color` and `color_count[color]` is strictly below `color_limits[color]`. It has no `modifies` clause, so it changes nothing. |
| `Coloring.GraphColoring` | gragh_coloring.py:65-86 | At `index == len(node_list)` it returns true and changes nothing. On true: the assignment is a complete valid colouring, every counter equals its colour's node count, the colours given before `index` are kept, and the result is the lexicographically least valid completion along `node_list`. On false: assignment and counters equal their entry values, and no valid colouring extends the entry assignment. |
| `Coloring.Solve` | gragh_coloring.py:170-179 | Starting from all nodes at `-1` and all counters at `0`: a `Colored` result is a valid colouring and is lexicographically least among all valid colourings along `node_list`; `NoValidColoring` means no valid colouring exists. |
| `Coloring.InitialSearchState` | gragh_coloring.py:170-175 | The initial state (every node `-1`, every counter `0`) is a consistent search state at position 0, and every full-length colouring extends it. |
| `Coloring.SafeAssignmentAdvances` | gragh_coloring.py:73-79 | Assigning a colour that passes `is_safe` and incrementing its counter gives a consistent search state one node further on: still proper, counters still exact, limits still respected. |
| `Coloring.CompletionChoiceIsSafe` | gragh_coloring.py:54-63 | The colour that any valid completion gives the next node passes `is_safe` in the current state. No valid choice is wrongly rejected. |
| `Coloring.UnsafeColourSkipped` | gragh_coloring.py:72-73 | Skipping a colour that fails `is_safe` loses no valid completion. |
| `Coloring.FailedColourSkipped` | gragh_coloring.py:79-84 | Undoing a colour whose recursive search failed loses no valid completion. |
| `Coloring.AllColoursSkipped` | gragh_coloring.py:72-86 | Once every colour has been ruled out for the current node, returning false is correct: no valid completion exists. |
| `Coloring.FirstSuccessIsLeast` | gragh_coloring.py:72-80 | When lower colours are ruled out and the recursive call returns the least completion, returning that success immediately yields the least completion of the current state. |
| `Coloring.CompleteStateIsColoring` | gragh_coloring.py:67-68 | When every node in `node_list` is coloured, the consistent search state is a complete valid colouring. |
| `Coloring.CompleteStateIsLeast` | gragh_coloring.py:67-68 | At the base case the current assignment is its own least completion. |
| `Coloring.LeastColoringIsUnique` | gragh_coloring.py:72-86 | Determinism: at most one valid colouring is lexicographically least along `node_list`, so identical inputs always produce the same colouring. |
| `Coloring.LexLeqAntisymmetric` | gragh_coloring.py:72 | If two colourings are each lexicographically no larger than the other along `node_list`, they agree on every node from that position on. |
| `Coloring.InsufficientCapacityIsInfeasible` | gragh_coloring.py:61-62 | If the limits together admit fewer nodes than the graph has, no valid colouring exists. Negative limits count as zero. |
| `Coloring.PaletteOutrunsCountersWhenNoColours` | gragh_coloring.py:165-172 | As written, the number of colours tried equals the number of counters exactly when `k >= 1`. For `k == 0`, colour 0 is tried although there is no counter. |
| `Counting.OccurrencesAfterUpdate` | gragh_coloring.py:75-76 | Overwriting one node's colour moves exactly one occurrence from the old colour to the new one. This is why `+= 1` on assign and `-= 1` on undo keep `color_count` exact. |
| `Counting.OccurrencesStrictlyGrow` | gragh_coloring.py:61-62 | A completion that colours one more node `c` uses `c` strictly more often than the partial assignment. This is why a colour that a valid completion uses is below its limit now. |

## Findings

| source | as written | input that shows it | evidently intended | confidence | as-written member | corrected member |
|---|---|---|---|---|---|---|
| gragh_coloring.py:165-172 | For `k <= 1` the palette is `[color_map(0)]`, one entry, while `color_count` and `color_limits` have `k` entries. With `k = 0`, `graph_coloring` tries colour 0, and `is_safe` indexes `color_count[0]` in an empty list. | `k = 0` (empty colour-name line, empty limit list) and a graph with at least one node: `IndexError` at line 61 instead of "No valid coloring exists" | Try exactly `k` colours, so `k = 0` with at least one node reports that no colouring exists | not executed; high (an empty colour-name line splits to an empty list, which is accepted for `k = 0`) | `Coloring.PaletteOutrunsCountersWhenNoColours` | `Coloring.Solve` (tries as many colours as there are limits; with no colours and at least one node, `InsufficientCapacityIsInfeasible` shows no colouring exists, so it returns `NoValidColoring`) |

## Left out

- Interactive input (`get_integer`, `get_node_input`, `get_edge_input`, `get_color_limits`, `get_color_names`, lines 9-52 and 88-99): terminal I/O and retry loops. The graph, node order and limits are parameters instead.
- Graph simplification (`is_multigraph`, `remove_loops`, `remove_multiple_edges`, `convert_to_simple_graph`, lines 102-129) and the networkx `Graph` object: the graph is an already-simple, symmetric adjacency (`SimpleGraph`).
- Node identifiers and labels: nodes are renumbered `0 .. n-1`, and labels play no part in the search.
- The RGBA palette values (lines 162-168): floating point and matplotlib. Only the palette's length is modelled (`PaletteSize`).
- Drawing and saving the picture (lines 181-207): presentation and file I/O.
- Neighbour iteration order: `IsSafe` visits the neighbours in an arbitrary order, while networkx uses insertion order. The result does not depend on the order, because the check stops at any neighbour holding the colour.
- Python's recursion limit: the script recurses once per node, so large graphs would raise `RecursionError`. The model's recursion is unbounded.
- `color_assignment.get(neighbor)` returning `None` for a missing key: every node is a key from line 171 on, so the case never arises.
