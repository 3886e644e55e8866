# Graph colouring by simulated annealing: the domain logic

This project models the graph-colouring side of a simulated-annealing
colourer, in Dafny, and proves what it promises. The annealer itself is an
external library. The colourer hands it three things: an initial colouring,
a neighbour move and an objective. It also reads graphs in the DIMACS `.col`
format and checks the final colouring. Those are the parts modelled here:

- `Coloring` (`coloring.dfy`): a graph is an n-by-n adjacency matrix of
  integers, where a 1 marks an edge. A colouring is a sequence of integers,
  one per vertex. The module holds the proper-colouring predicate, the
  initial all-distinct colouring and `VerifySolution`. That check is a
  nested loop that stops at the first conflicting pair.
- `Dimacs` (`dimacs.dfy`): `ParseGraph` reads a file given as a sequence of
  already-classified lines (comment, `p` header, `e` edge, other). It keeps
  the last header's vertex count and collects the edges. It then fills both
  cells of every edge in a zero matrix. The result is proved square,
  symmetric and entry-for-entry equal to the edge list.
- `Moves` (`moves.dfy`): `FreeColours` computes the colours in
  `[0, max colour]` that no neighbour of a vertex wears. `RecolourVertex` is
  the neighbour move. The move's two random draws (the vertex, then the
  colour) are nondeterministic choices, so its contract covers every
  outcome the random source could produce.
- `Objectives` (`objectives.dfy`): the number of distinct colours, and
  minus the sum of the squared colour-class sizes. The second is computed
  through a dictionary of counts. Its keys are modelled in insertion order,
  as a Python dict keeps them.

A tempting property of the move, that it never adds a colour not already in
use, is false: the code draws from every colour in `[0, max colour]`,
including ones no vertex wears. `Moves.MoveCanAddColour` exhibits a move
that the move's contract admits and that raises the colour count from 2
to 3.
`Moves.MoveKeepsMaxBound` proves what does hold: the largest colour never
grows.

The documentation of `objective_color_class_square_sum` (gcp.py:169-171,
gcp.py:183-184) says the objective encourages a balanced distribution of
colours, and that a lower value means a more balanced one. The code does
not do that. A lower value means a larger sum of squared class sizes, that
is, a more lopsided split. `Objectives.UnevenScoresLower` shows two
colourings of four vertices with two colours each. The even split
`[0, 0, 1, 1]` scores -8 and the uneven `[0, 0, 0, 1]` scores -10.
The value does not follow the number of colours either.
`Objectives.MoreColoursScoreLower` shows that `[0, 0, 0, 0, 0, 1, 2]`, with
3 colours, scores -27. That is below `[0, 0, 0, 0, 1, 1, 1]`, with 2
colours, at -25. At the extremes, `Objectives.InitialSquareSum` shows that
the all-distinct colouring scores -n, the highest value.
`Objectives.SingleClassSquareSum` shows that one colour on every vertex
scores -(n*n), the lowest. The program never passes this objective to the
annealer: `objective_gcp` (gcp.py:220-221) returns the number of colours
used. The code and its documentation disagree, and the model follows the
code.

## Model

| member | source | states |
|---|---|---|
| `Coloring.Max` | gcp.py:101 | the maximum of a non-empty colouring is one of its colours and bounds every colour |
| `Coloring.InitialColouring` | gcp.py:53-64 | the initial colouring has one entry per vertex, and vertex i has colour i |
| `Coloring.InitialIsProper` | gcp.py:64 | on any square matrix without self-loops, the initial colouring passes the validity check |
| `Coloring.VerifySolution` | gcp.py:67-85 | the nested scan answers true exactly when no pair (i, j) with a 1 in the matrix has equal colours |
| `Dimacs.ParseGraph` | gcp.py:4-38 | the matrix is n-by-n for the last header's n; cell [a][b] is 1 exactly when some edge line joins a+1 and b+1 in either order, and 0 otherwise; so it is symmetric, and it has no self-loop exactly when no edge line repeats an endpoint |
| `Dimacs.IgnoredLineHasNoEffect` | gcp.py:19-21 | inserting a comment line, or any line that is not a header or an edge, anywhere in the file changes neither the edge list nor the vertex count |
| `Dimacs.LastHeaderWins` | gcp.py:22-25 | a later header overrides an earlier one: the vertex count is that of the last header |
| `Dimacs.JoinedStep` | gcp.py:34-36 | writing one more edge joins exactly the pairs joined before plus the two ends of that edge |
| `Moves.FreeColours` | gcp.py:88-112 | the result is strictly increasing, and c is in it exactly when 0 <= c <= max colour and no neighbour of the vertex has colour c |
| `Moves.Without` | gcp.py:141-142 | the filtered list holds exactly the colours of the input other than the current one |
| `Moves.RecolourVertex` | gcp.py:120-150 | for some drawn vertex v the result has the input's length and agrees with it everywhere except at v; v gets a free colour different from its own when one exists, and keeps its colour otherwise; the maximum colour does not grow; on a symmetric graph a proper colouring stays proper |
| `Moves.MoveKeepsMaxBound` | gcp.py:138-147 | after any move the largest colour is at most the largest colour before |
| `Moves.MoveKeepsProper` | gcp.py:138-147 | on a symmetric graph, a move from a proper colouring gives a proper colouring |
| `Moves.MoveIsIdleIffStuck` | gcp.py:142-150 | the move returns its input unchanged exactly when no colour other than the vertex's own is free |
| `Moves.MoveCanAddColour` | gcp.py:109-110 | with no edges, the move relation that bounds every outcome of `RecolourVertex` admits a move from [0, 2, 2] to [0, 1, 2], which raises the number of colours used from 2 to 3 |
| `Objectives.Distinct` | gcp.py:189-193 | the list holds exactly the colours of the input, each once, and there are at most as many as vertices and at least one when there is a vertex |
| `Objectives.ColoursUsed` | gcp.py:153-165 | the set size equals the number of distinct colours, between 1 and the number of vertices when there is a vertex |
| `Objectives.InitialUsesAllColours` | gcp.py:164-165 | the initial colouring of n vertices uses exactly n colours |
| `Objectives.CountClasses` | gcp.py:186-193 | the dictionary maps exactly the colours of the colouring, each to the number of vertices of that colour, and its keys in insertion order are the colours in first-appearance order |
| `Objectives.ClassSizesAddUp` | gcp.py:186-193 | the colour-class sizes add up to the number of vertices |
| `Objectives.SquareSumBounds` | gcp.py:195-196 | the sum of squared class sizes lies between the number of vertices and its square |
| `Objectives.ClassSquareSum` | gcp.py:167-197 | the result is minus the sum, over the distinct colours, of the squared number of vertices of that colour, and lies between -(n*n) and -n for n vertices |
| `Objectives.InitialSquareSum` | gcp.py:186-197 | the all-distinct initial colouring of n vertices has squared class sizes adding up to n, so the objective gives it -n, the top of its range |
| `Objectives.SingleClassSquareSum` | gcp.py:186-197 | a colouring of n > 0 vertices with one colour has squared class sizes adding up to n*n, so the objective gives it -(n*n), the bottom of its range |
| `Objectives.UnevenScoresLower` | gcp.py:183-197 | of two colourings of four vertices with two colours each, the even [0, 0, 1, 1] scores -8 and the uneven [0, 0, 0, 1] scores -10, so a lower value does not mean a more balanced distribution |
| `Objectives.MoreColoursScoreLower` | gcp.py:167-197 | [0, 0, 0, 0, 0, 1, 2] uses 3 colours and scores -27, below [0, 0, 0, 0, 1, 1, 1], which uses 2 colours and scores -25, so the objective does not order colourings by the number of colours |

## Left out

- The annealing engine, its cooling schedule, its acceptance rule and its
  best-state tracking (gcp.py:224-232): they live in an external library
  and work on floating-point temperatures.
- Reading the graph file at load time (gcp.py:41-47) and printing the
  result (gcp.py:235-239): input and output.
- The random draws `random.randint` and `random.choice` (gcp.py:135,
  gcp.py:145): modelled as nondeterministic choices, not as a
  pseudo-random generator.
- The wrappers `initial_solution`, `recolor_one_vertex` and
  `objective_gcp` (gcp.py:204-221): each only calls a modelled function,
  the first two with the global matrix (or its size), the last with the
  colouring alone.
- Dimacs.ParseGraph: works on lines already split into fields, with
  numbers already converted. Splitting on whitespace and `int()`
  conversion, with the errors they raise on malformed lines, are not
  modelled. Neither are an endpoint of 0 or above n, which Python turns
  into a negative index or an index error, nor a negative vertex count;
  the model requires every endpoint in 1..n.
- The edge count of the header is carried in `Dimacs.Line` but, as in the
  source, never used.
- A colouring is required to have exactly one colour per vertex, and the
  matrix to be square. On a colouring that is too short, the source may
  raise an IndexError when an edge or the random vertex draw reaches past
  its end, or, for an empty colouring of a non-empty graph, a ValueError
  from `max` (gcp.py:101, reached from gcp.py:138); otherwise it accepts
  it. A longer one is accepted by the source, and its surplus entries
  still count in `max(solution)` and in both objectives.
- `Moves.RecolourVertex` requires at least one vertex. On an empty graph
  the source's vertex draw raises an error.
