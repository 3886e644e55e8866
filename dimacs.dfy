/** Reading a graph in the DIMACS colouring format (.col): comment lines,
    a "p <format> <vertices> <edges>" header and "e <u> <v>" edge lines
    with 1-based endpoints, into a symmetric 0/1 adjacency matrix. */
module Dimacs {
  import opened Coloring

  /** One line of the file, classified by its first character and with its
      numeric fields already converted. */
  datatype Line =
    | Comment                            // starts with 'c'
    | Problem(vertices: nat, edges: nat) // starts with 'p'; the edge count is never used
    | Edge(u: int, v: int)               // starts with 'e'
    | Other                              // any other line, the empty one included

  /** The vertex count of the last header line; 0 when there is none. */
  function VertexCount(lines: seq<Line>): nat
  {
    if lines == [] then 0
    else match lines[|lines| - 1]
      case Problem(n, _) => n
      case _ => VertexCount(lines[..|lines| - 1])
  }

  /** The endpoint pairs of the edge lines, in file order. */
  function EdgeList(lines: seq<Line>): seq<(int, int)>
  {
    if lines == [] then []
    else
      EdgeList(lines[..|lines| - 1]) +
        match lines[|lines| - 1]
        case Edge(u, v) => [(u, v)]
        case _ => []
  }

  /** Every endpoint names one of the vertices 1..n. */
  predicate InRange(edges: seq<(int, int)>, n: nat)
  {
    forall k :: 0 <= k < |edges| ==> 1 <= edges[k].0 <= n && 1 <= edges[k].1 <= n
  }

  /** No edge line joins a vertex to itself. */
  predicate NoSelfEdge(edges: seq<(int, int)>)
  {
    forall k :: 0 <= k < |edges| ==> edges[k].0 != edges[k].1
  }

  /** Vertices a and b (0-based) are the two ends of some listed edge, in
      either order. */
  predicate Joined(edges: seq<(int, int)>, a: int, b: int)
  {
    exists k :: 0 <= k < |edges| &&
      ((edges[k].0 == a + 1 && edges[k].1 == b + 1) || (edges[k].0 == b + 1 && edges[k].1 == a + 1))
  }

  /** The edges of the first k + 1 pairs join what the first k join, plus
      the ends of pair k. */
  lemma JoinedStep(edges: seq<(int, int)>, k: nat, a: int, b: int)
    requires k < |edges|
    ensures Joined(edges[..k + 1], a, b) <==>
      (Joined(edges[..k], a, b) ||
       (edges[k].0 == a + 1 && edges[k].1 == b + 1) || (edges[k].0 == b + 1 && edges[k].1 == a + 1))
  {
  }

  /** parse_graph: a first pass over the lines keeps the last header's
      vertex count and collects the edges; then an n-by-n zero matrix gets a
      1 in both cells of every edge. */
  method ParseGraph(lines: seq<Line>) returns (m: Matrix)
    requires InRange(EdgeList(lines), VertexCount(lines))
    ensures |m| == VertexCount(lines) && Square(m)
    ensures forall a, b :: 0 <= a < |m| && 0 <= b < |m| ==>
      m[a][b] == if Joined(EdgeList(lines), a, b) then 1 else 0
    ensures Symmetric(m)
    ensures Loopless(m) <==> NoSelfEdge(EdgeList(lines))
  {
    var edges: seq<(int, int)> := [];
    var n: nat := 0;
    var i := 0;
    while i < |lines|
      invariant 0 <= i <= |lines|
      invariant edges == EdgeList(lines[..i])
      invariant n == VertexCount(lines[..i])
    {
      assert lines[..i + 1][..i] == lines[..i];
      match lines[i] {
        case Comment =>
        case Problem(vertices, _) =>
          n := vertices;
        case Edge(u, v) =>
          edges := edges + [(u, v)];
        case Other =>
      }
      i := i + 1;
    }
    assert lines[..|lines|] == lines;

    m := seq(n, _ => seq(n, _ => 0));
    var k := 0;
    while k < |edges|
      invariant 0 <= k <= |edges|
      invariant |m| == n && Square(m)
      invariant forall a, b :: 0 <= a < n && 0 <= b < n ==>
        m[a][b] == if Joined(edges[..k], a, b) then 1 else 0
    {
      var (u, v) := edges[k];
      m := m[u - 1 := m[u - 1][v - 1 := 1]];
      m := m[v - 1 := m[v - 1][u - 1 := 1]];
      forall a, b | 0 <= a < n && 0 <= b < n
        ensures m[a][b] == if Joined(edges[..k + 1], a, b) then 1 else 0
      {
        JoinedStep(edges, k, a, b);
      }
      k := k + 1;
    }
    assert edges[..|edges|] == edges;
    if !NoSelfEdge(edges) {
      var j :| 0 <= j < |edges| && edges[j].0 == edges[j].1;
      var a := edges[j].0 - 1;
      assert Joined(edges, a, a);
    }
  }

  /** A line that is neither a header nor an edge has no effect on the
      graph, wherever it stands. */
  lemma {:induction false} IgnoredLineHasNoEffect(before: seq<Line>, x: Line, after: seq<Line>)
    requires x.Comment? || x.Other?
    ensures EdgeList(before + [x] + after) == EdgeList(before + after)
    ensures VertexCount(before + [x] + after) == VertexCount(before + after)
  {
    var w := before + [x] + after;
    var w' := before + after;
    if after == [] {
      assert w[..|w| - 1] == before && w[|w| - 1] == x;
      assert w' == before;
    } else {
      var p := after[..|after| - 1];
      var y := after[|after| - 1];
      IgnoredLineHasNoEffect(before, x, p);
      assert w[..|w| - 1] == before + [x] + p && w[|w| - 1] == y;
      assert w'[..|w'| - 1] == before + p && w'[|w'| - 1] == y;
    }
  }

  /** The last header wins: a header followed by no other header fixes the
      vertex count. */
  lemma {:induction false} LastHeaderWins(before: seq<Line>, n: nat, e: nat, after: seq<Line>)
    requires forall k :: 0 <= k < |after| ==> !after[k].Problem?
    ensures VertexCount(before + [Problem(n, e)] + after) == n
  {
    if after == [] {
    } else {
      var p := after[..|after| - 1];
      assert after == p + [after[|after| - 1]];
      LastHeaderWins(before, n, e, p);
      assert (before + [Problem(n, e)] + after)[..|before + [Problem(n, e)] + after| - 1] ==
        before + [Problem(n, e)] + p;
    }
  }
}
