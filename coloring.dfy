/** Graphs as 0/1 adjacency matrices and colourings as sequences of colour
    numbers, indexed by vertex; the trivial all-distinct colouring and the
    validity check run on the annealer's answer. */
module Coloring {

  /** Row i, column j holds 1 exactly when vertices i and j are joined. */
  type Matrix = seq<seq<int>>

  /** Entry v is the colour of vertex v. */
  type Colouring = seq<int>

  /** Every row is as long as the matrix is high: an n-by-n matrix. */
  predicate Square(m: Matrix)
  {
    forall i :: 0 <= i < |m| ==> |m[i]| == |m|
  }

  predicate Symmetric(m: Matrix)
    requires Square(m)
  {
    forall i, j :: 0 <= i < |m| && 0 <= j < |m| ==> m[i][j] == m[j][i]
  }

  /** No vertex is joined to itself. */
  predicate Loopless(m: Matrix)
    requires Square(m)
  {
    forall i :: 0 <= i < |m| ==> m[i][i] != 1
  }

  /** A colouring of a graph: one colour per vertex. */
  predicate Fits(m: Matrix, s: Colouring)
  {
    Square(m) && |s| == |m|
  }

  /** A proper colouring: no edge joins two vertices of the same colour. */
  predicate IsProper(m: Matrix, s: Colouring)
    requires Fits(m, s)
  {
    forall i, j :: 0 <= i < |m| && 0 <= j < |m| && m[i][j] == 1 ==> s[i] != s[j]
  }

  /** The largest colour in use (Python's built-in max, which needs a
      non-empty list). */
  function Max(s: Colouring): (r: int)
    requires |s| > 0
    ensures r in s
    ensures forall i :: 0 <= i < |s| ==> s[i] <= r
  {
    if |s| == 1 then s[0]
    else
      var rest := Max(s[1..]);
      assert s[1..][0] == s[1];
      if s[0] >= rest then s[0] else rest
  }

  /** create_initial_solution: vertex i gets colour i. */
  function InitialColouring(n: nat): (r: Colouring)
    ensures |r| == n
    ensures forall i :: 0 <= i < n ==> r[i] == i
  {
    seq(n, i => i)
  }

  /** The initial colouring is proper on every loopless graph: two distinct
      vertices never share a colour. */
  lemma InitialIsProper(m: Matrix)
    requires Square(m) && Loopless(m)
    ensures Fits(m, InitialColouring(|m|))
    ensures IsProper(m, InitialColouring(|m|))
  {
  }

  /** verify_solution: scans every ordered pair (i, j) row by row and
      answers false at the first joined pair with equal colours. */
  method VerifySolution(m: Matrix, s: Colouring) returns (ok: bool)
    requires Fits(m, s)
    ensures ok <==> IsProper(m, s)
  {
    var n := |m|;
    var i := 0;
    while i < n
      invariant 0 <= i <= n
      invariant forall a, b :: 0 <= a < i && 0 <= b < n && m[a][b] == 1 ==> s[a] != s[b]
    {
      var j := 0;
      while j < n
        invariant 0 <= j <= n
        invariant forall a, b :: 0 <= a < i && 0 <= b < n && m[a][b] == 1 ==> s[a] != s[b]
        invariant forall b :: 0 <= b < j && m[i][b] == 1 ==> s[i] != s[b]
      {
        if m[i][j] == 1 {
          if s[i] == s[j] {
            return false;
          }
        }
        j := j + 1;
      }
      i := i + 1;
    }
    return true;
  }
}
