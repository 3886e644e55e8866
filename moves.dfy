/** The annealer's neighbour move: pick a vertex and give it another colour,
    taken from [0, max colour], that none of its neighbours wears. */
module Moves {
  import opened Coloring
  import opened Objectives

  /** Colour c may go to vertex v: it lies in [0, Max(s)] and no neighbour
      of v wears it. */
  predicate IsFree(m: Matrix, s: Colouring, v: nat, c: int)
    requires Fits(m, s) && v < |m|
  {
    0 <= c <= Max(s) && forall i :: 0 <= i < |m| && m[v][i] == 1 ==> s[i] != c
  }

  /** Strictly increasing: sorted and without repeats. */
  predicate Increasing(xs: seq<int>)
  {
    forall a, b :: 0 <= a < b < |xs| ==> xs[a] < xs[b]
  }

  /** free_colors_for_vertex: collects the colours of v's neighbours into a
      set, then lists the colours 0, 1, ..., max(s) that are not in it. */
  method FreeColours(m: Matrix, s: Colouring, v: nat) returns (avail: seq<int>)
    requires Fits(m, s) && v < |m|
    ensures Increasing(avail)
    ensures forall c :: c in avail <==> IsFree(m, s, v, c)
  {
    var n := |m|;
    var maxColour := Max(s);
    var used: set<int> := {};
    var i := 0;
    while i < n
      invariant 0 <= i <= n
      invariant used == set j | 0 <= j < i && m[v][j] == 1 :: s[j]
    {
      if m[v][i] == 1 {
        used := used + {s[i]};
      }
      i := i + 1;
    }
    avail := [];
    var c := 0;
    while c <= maxColour
      invariant 0 <= c && (c == 0 || c <= maxColour + 1)
      invariant Increasing(avail)
      invariant forall a :: 0 <= a < |avail| ==> avail[a] < c
      invariant forall x :: x in avail <==> 0 <= x < c && x !in used
    {
      if c !in used {
        avail := avail + [c];
      }
      c := c + 1;
    }
    forall x
      ensures x in avail <==> IsFree(m, s, v, x)
    {
      if x in used {
        var j :| 0 <= j < n && m[v][j] == 1 && s[j] == x;
      }
    }
  }

  /** The list without the colour x: the filter that drops the vertex's
      current colour from its free colours. */
  function Without(xs: seq<int>, x: int): (r: seq<int>)
    ensures forall y :: y in r <==> y in xs && y != x
    ensures |r| <= |xs|
  {
    if xs == [] then []
    else if xs[0] == x then Without(xs[1..], x)
    else [xs[0]] + Without(xs[1..], x)
  }

  /** Some colour other than its own is free for v. */
  ghost predicate HasAlternative(m: Matrix, s: Colouring, v: nat)
    requires Fits(m, s) && v < |m|
  {
    exists c :: c != s[v] && IsFree(m, s, v, c)
  }

  /** r is a colouring recolor_vertex may return once it has drawn vertex v:
      a copy of s in which only v may differ; v gets a free colour other
      than its own when there is one, and keeps its colour otherwise. */
  ghost predicate IsMove(m: Matrix, s: Colouring, r: Colouring, v: nat)
    requires Fits(m, s) && v < |m|
  {
    && |r| == |s|
    && (forall i :: 0 <= i < |s| && i != v ==> r[i] == s[i])
    && (if HasAlternative(m, s, v) then r[v] != s[v] && IsFree(m, s, v, r[v])
        else r[v] == s[v])
  }

  /** recolor_vertex: copies s, draws a vertex, and when some free colour
      differs from the vertex's own draws one of those for it. Both draws
      are left to the caller's random source, so any vertex and any such
      colour may be chosen. */
  method RecolourVertex(m: Matrix, s: Colouring) returns (r: Colouring)
    requires Fits(m, s) && |m| > 0
    ensures exists v :: 0 <= v < |m| && IsMove(m, s, r, v)
    ensures |r| == |s| && Max(r) <= Max(s)
    ensures Symmetric(m) && IsProper(m, s) ==> IsProper(m, r)
  {
    var n := |m|;
    r := s;
    var vertex :| 0 <= vertex < n;
    var avail := FreeColours(m, s, vertex);
    var current := s[vertex];
    avail := Without(avail, current);
    if |avail| > 0 {
      var k :| 0 <= k < |avail|;
      r := r[vertex := avail[k]];
      assert avail[k] in avail;
    }
    assert IsMove(m, s, r, vertex);
    MoveKeepsMaxBound(m, s, r, vertex);
    if Symmetric(m) && IsProper(m, s) {
      MoveKeepsProper(m, s, r, vertex);
    }
  }

  /** The move only ever picks colours up to the current maximum, so the
      maximum colour never rises. */
  lemma MoveKeepsMaxBound(m: Matrix, s: Colouring, r: Colouring, v: nat)
    requires Fits(m, s) && v < |m|
    requires IsMove(m, s, r, v)
    ensures |r| > 0 && Max(r) <= Max(s)
  {
  }

  /** On a symmetric graph the move keeps a proper colouring proper: the new
      colour is worn by no neighbour of v. */
  lemma MoveKeepsProper(m: Matrix, s: Colouring, r: Colouring, v: nat)
    requires Fits(m, s) && v < |m| && Symmetric(m)
    requires IsProper(m, s)
    requires IsMove(m, s, r, v)
    ensures Fits(m, r) && IsProper(m, r)
  {
  }

  /** The move leaves the colouring as it was exactly when v has no
      alternative colour. */
  lemma MoveIsIdleIffStuck(m: Matrix, s: Colouring, r: Colouring, v: nat)
    requires Fits(m, s) && v < |m|
    requires IsMove(m, s, r, v)
    ensures r == s <==> !HasAlternative(m, s, v)
  {
  }

  /** The move can raise the number of colours in use: with no edges, the
      move relation admits giving vertex 1 of [0, 2, 2] the colour 1, which
      no vertex wore. */
  lemma MoveCanAddColour()
    ensures var m := [[0, 0, 0], [0, 0, 0], [0, 0, 0]];
            var s := [0, 2, 2];
            var r := [0, 1, 2];
            && Fits(m, s) && IsMove(m, s, r, 1)
            && ColoursUsed(s) == 2 && ColoursUsed(r) == 3
  {
    var m := [[0, 0, 0], [0, 0, 0], [0, 0, 0]];
    var s := [0, 2, 2];
    var r := [0, 1, 2];
    assert Max(s) == 2 by {
      assert Max(s[2..]) == 2;
      assert Max(s[1..]) == 2;
    }
    assert IsFree(m, s, 1, 1);
    assert HasAlternative(m, s, 1);
    assert (set c | c in s) == {0, 2};
    assert (set c | c in r) == {0, 1, 2};
  }
}
