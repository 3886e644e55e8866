/** The two objectives offered to the annealer: the number of distinct colours,
    and minus the sum of the squared colour-class sizes. */
module Objectives {
  import opened Coloring

  /** No colour is listed twice. */
  predicate NoDuplicates(d: seq<int>)
  {
    forall a, b :: 0 <= a < b < |d| ==> d[a] != d[b]
  }

  /** The colours of s, each once, in the order of their first appearance
      (the key order of a Python dict filled by scanning s). */
  function Distinct(s: Colouring): (d: seq<int>)
    ensures forall c :: c in d <==> c in s
    ensures NoDuplicates(d)
    ensures |d| <= |s|
    ensures |s| > 0 ==> |d| > 0
  {
    if s == [] then []
    else
      var p := s[..|s| - 1];
      assert s == p + [s[|s| - 1]];
      var dp := Distinct(p);
      if s[|s| - 1] in dp then dp else dp + [s[|s| - 1]]
  }

  /** A list without duplicates has as many elements as its set. */
  lemma {:induction false} CardOfNoDuplicates(d: seq<int>)
    requires NoDuplicates(d)
    ensures |set c | c in d| == |d|
  {
    if d != [] {
      var p := d[..|d| - 1];
      var x := d[|d| - 1];
      assert d == p + [x];
      CardOfNoDuplicates(p);
      assert (set c | c in d) == (set c | c in p) + {x};
      assert x !in p;
    }
  }

  /** objective_colors_used: the size of the set of colours in s. It equals
      the number of distinct colours, so it lies between 1 and |s| when s is
      not empty. */
  function ColoursUsed(s: Colouring): (r: nat)
    ensures r == |Distinct(s)|
    ensures |s| > 0 ==> 1 <= r <= |s|
  {
    var d := Distinct(s);
    assert (set c | c in s) == (set c | c in d);
    CardOfNoDuplicates(d);
    |set c | c in s|
  }

  /** The initial colouring uses exactly n colours. */
  lemma InitialUsesAllColours(n: nat)
    ensures ColoursUsed(InitialColouring(n)) == n
  {
    var s := InitialColouring(n);
    assert NoDuplicates(s);
    CardOfNoDuplicates(s);
    assert (set c | c in s) == (set c | c in Distinct(s));
    CardOfNoDuplicates(Distinct(s));
  }

  /** The size of the colour class of c: how many vertices wear c. */
  function ClassSize(s: Colouring, c: int): nat
  {
    multiset(s)[c]
  }

  /** Sum of the class sizes of the listed colours. */
  function SizeSum(colours: seq<int>, s: Colouring): nat
  {
    if colours == [] then 0
    else SizeSum(colours[..|colours| - 1], s) + ClassSize(s, colours[|colours| - 1])
  }

  /** Sum of the squared class sizes of the listed colours. */
  function SquareSum(colours: seq<int>, s: Colouring): nat
  {
    if colours == [] then 0
    else
      var k := ClassSize(s, colours[|colours| - 1]);
      SquareSum(colours[..|colours| - 1], s) + k * k
  }

  /** Appending one vertex of colour x adds one to the size sum of any list
      of distinct colours that holds x, and nothing to one that does not. */
  lemma {:induction false} SizeSumGrows(colours: seq<int>, s: Colouring, x: int)
    requires NoDuplicates(colours)
    ensures SizeSum(colours, s + [x]) == SizeSum(colours, s) + (if x in colours then 1 else 0)
  {
    if colours != [] {
      var p := colours[..|colours| - 1];
      assert colours == p + [colours[|colours| - 1]];
      SizeSumGrows(p, s, x);
      assert multiset(s + [x]) == multiset(s) + multiset{x};
    }
  }

  /** The colour classes partition the vertices: their sizes add up to |s|. */
  lemma {:induction false} ClassSizesAddUp(s: Colouring)
    ensures SizeSum(Distinct(s), s) == |s|
  {
    if s != [] {
      var p := s[..|s| - 1];
      var x := s[|s| - 1];
      assert s == p + [x];
      ClassSizesAddUp(p);
      var dp := Distinct(p);
      SizeSumGrows(dp, p, x);
      if x !in dp {
        assert Distinct(s) == dp + [x];
        assert (dp + [x])[..|dp|] == dp;
        assert multiset(s) == multiset(p) + multiset{x};
        assert x !in multiset(p);
      }
    }
  }

  lemma SquareBetween(k: nat, b: nat)
    requires 1 <= k <= b
    ensures k <= k * k <= b * k
  {
  }

  lemma MulAdd(b: nat, x: nat, y: nat)
    ensures b * (x + y) == b * x + b * y
  {
  }

  /** Each class of a listed colour has between 1 and b vertices, so its
      square lies between its size and b times its size. */
  lemma {:induction false} SquareSumBetween(colours: seq<int>, s: Colouring, b: nat)
    requires forall c :: c in colours ==> 1 <= ClassSize(s, c) <= b
    ensures SizeSum(colours, s) <= SquareSum(colours, s) <= b * SizeSum(colours, s)
  {
    if colours != [] {
      var p := colours[..|colours| - 1];
      var x := colours[|colours| - 1];
      assert colours == p + [x];
      var k := ClassSize(s, x);
      SquareSumBetween(p, s, b);
      SquareBetween(k, b);
      var a := SizeSum(p, s);
      assert SizeSum(colours, s) == a + k;
      assert SquareSum(colours, s) == SquareSum(p, s) + k * k;
      MulAdd(b, a, k);
    }
  }

  /** The squared class sizes of a colouring add up to between |s| (all
      classes singletons) and |s|^2 (one class). */
  lemma SquareSumBounds(s: Colouring)
    ensures |s| <= SquareSum(Distinct(s), s) <= |s| * |s|
  {
    var d := Distinct(s);
    forall c | c in d
      ensures 1 <= ClassSize(s, c) <= |s|
    {
      assert c in multiset(s);
      assert multiset(s)[c] <= |multiset(s)|;
    }
    SquareSumBetween(d, s, |s|);
    ClassSizesAddUp(s);
  }

  /** Summing one more listed colour adds its squared class size. */
  lemma SquareSumStep(colours: seq<int>, s: Colouring, k: nat)
    requires k < |colours|
    ensures SquareSum(colours[..k + 1], s) ==
      SquareSum(colours[..k], s) + ClassSize(s, colours[k]) * ClassSize(s, colours[k])
  {
    assert colours[..k + 1][..k] == colours[..k];
  }

  /** Appending a vertex of colour x lists x last if it is new. */
  lemma DistinctSnoc(p: Colouring, x: int)
    ensures Distinct(p + [x]) == if x in Distinct(p) then Distinct(p) else Distinct(p) + [x]
  {
  }

  /** Appending a vertex of colour x grows the class of x by one. */
  lemma ClassSizeSnoc(p: Colouring, x: int, c: int)
    ensures ClassSize(p + [x], c) == ClassSize(p, c) + (if c == x then 1 else 0)
  {
  }

  /** The dictionary holds, for each colour of p and no other, the size of
      its class. */
  ghost predicate Counts(sizes: map<int, nat>, p: Colouring)
  {
    && (forall c :: c in sizes <==> c in p)
    && (forall c :: c in sizes ==> sizes[c] == ClassSize(p, c))
  }

  /** One step of the counting loop: bumping the count of x, or entering x
      with count 1, keeps the dictionary exact for p + [x]. */
  lemma CountsStep(sizes: map<int, nat>, keys: seq<int>, s: Colouring, i: nat)
    requires i < |s|
    requires Counts(sizes, s[..i]) && keys == Distinct(s[..i])
    ensures s[i] in sizes ==>
      Distinct(s[..i + 1]) == keys && Counts(sizes[s[i] := sizes[s[i]] + 1], s[..i + 1])
    ensures s[i] !in sizes ==>
      Distinct(s[..i + 1]) == keys + [s[i]] && Counts(sizes[s[i] := 1], s[..i + 1])
  {
    assert s[..i + 1] == s[..i] + [s[i]];
    DistinctSnoc(s[..i], s[i]);
    if s[i] in sizes {
      CountsBump(sizes, s[..i], s[i]);
    } else {
      CountsEnter(sizes, s[..i], s[i]);
    }
  }

  /** A colour already in the dictionary gets its count raised by one. */
  lemma CountsBump(sizes: map<int, nat>, p: Colouring, x: int)
    requires Counts(sizes, p) && x in sizes
    ensures Counts(sizes[x := sizes[x] + 1], p + [x])
  {
    forall c | c in sizes
      ensures sizes[x := sizes[x] + 1][c] == ClassSize(p + [x], c)
    {
      ClassSizeSnoc(p, x, c);
    }
  }

  /** A colour not yet in the dictionary enters it with count 1. */
  lemma CountsEnter(sizes: map<int, nat>, p: Colouring, x: int)
    requires Counts(sizes, p) && x !in sizes
    ensures Counts(sizes[x := 1], p + [x])
  {
    forall c | c in sizes[x := 1]
      ensures sizes[x := 1][c] == ClassSize(p + [x], c)
    {
      ClassSizeSnoc(p, x, c);
    }
  }

  /** The counting loop of objective_color_class_square_sum: a dictionary
      from each colour to the size of its class, with its keys in insertion
      order. */
  method CountClasses(s: Colouring) returns (sizes: map<int, nat>, keys: seq<int>)
    ensures keys == Distinct(s)
    ensures Counts(sizes, s)
  {
    sizes := map[];
    keys := [];
    var i := 0;
    while i < |s|
      invariant 0 <= i <= |s|
      invariant keys == Distinct(s[..i])
      invariant Counts(sizes, s[..i])
    {
      var c := s[i];
      CountsStep(sizes, keys, s, i);
      if c in sizes {
        sizes := sizes[c := sizes[c] + 1];
      } else {
        sizes := sizes[c := 1];
        keys := keys + [c];
      }
      i := i + 1;
    }
    assert s[..|s|] == s;
  }

  /** objective_color_class_square_sum: counts the vertices of each colour
      into a dictionary, then returns minus the sum of the squared counts. */
  method ClassSquareSum(s: Colouring) returns (r: int)
    ensures r == -(SquareSum(Distinct(s), s) as int)
    ensures -(|s| * |s|) <= r <= -|s|
  {
    var sizes, keys := CountClasses(s);
    var total: int := 0;
    var k: nat := 0;
    while k < |keys|
      invariant 0 <= k <= |keys|
      invariant total == SquareSum(keys[..k], s)
    {
      assert keys[k] in s;
      var size := sizes[keys[k]];
      SquareSumStep(keys, s, k);
      total := total + size * size;
      k := k + 1;
    }
    assert keys[..|keys|] == keys;
    SquareSumBounds(s);
    r := -1 * total;
  }

  /** A colour occurs at most once in a list without duplicates. */
  lemma {:induction false} CountInNoDuplicates(d: seq<int>, c: int)
    requires NoDuplicates(d)
    ensures multiset(d)[c] <= 1
  {
    if d != [] {
      var p := d[..|d| - 1];
      var x := d[|d| - 1];
      assert d == p + [x];
      CountInNoDuplicates(p, c);
      assert multiset(d) == multiset(p) + multiset{x};
      if c == x {
        assert x !in p;
      }
    }
  }

  /** The all-distinct colouring reaches the lower bound of SquareSumBounds:
      its squared class sizes add up to n, so the objective is -n, the
      highest value any colouring of n vertices gets. */
  lemma InitialSquareSum(n: nat)
    ensures SquareSum(Distinct(InitialColouring(n)), InitialColouring(n)) == n
  {
    var s := InitialColouring(n);
    var d := Distinct(s);
    assert NoDuplicates(s);
    forall c | c in d
      ensures 1 <= ClassSize(s, c) <= 1
    {
      CountInNoDuplicates(s, c);
      assert c in multiset(s);
    }
    SquareSumBetween(d, s, 1);
    ClassSizesAddUp(s);
  }

  /** A colouring that uses one colour c lists c as its only colour. */
  lemma {:induction false} DistinctOfOneColour(s: Colouring, c: int)
    requires |s| > 0
    requires forall i :: 0 <= i < |s| ==> s[i] == c
    ensures Distinct(s) == [c]
  {
    var p := s[..|s| - 1];
    assert s == p + [c];
    if p == [] {
      assert Distinct(p) == [];
    } else {
      DistinctOfOneColour(p, c);
    }
    DistinctSnoc(p, c);
  }

  /** A colouring with a single colour reaches the upper bound of
      SquareSumBounds: one class of n vertices, so the objective is -(n*n),
      the lowest value any colouring of n vertices gets. */
  lemma SingleClassSquareSum(n: nat, c: int)
    requires n > 0
    ensures SquareSum(Distinct(seq(n, _ => c)), seq(n, _ => c)) == n * n
  {
    var s := seq(n, _ => c);
    DistinctOfOneColour(s, c);
    ClassSizesAddUp(s);
    assert [c][..0] == [];
    var k := ClassSize(s, c);
    assert SizeSum([c], s) == k == n;
    assert SquareSum([c], s) == k * k;
  }

  /** The objective prefers the lopsided split: of two colourings of four
      vertices with two colours each, the even one [0, 0, 1, 1] scores -8 and
      the uneven one [0, 0, 0, 1] scores -10, which is lower. */
  lemma UnevenScoresLower()
    ensures ColoursUsed([0, 0, 1, 1]) == ColoursUsed([0, 0, 0, 1]) == 2
    ensures SquareSum(Distinct([0, 0, 1, 1]), [0, 0, 1, 1]) == 8
    ensures SquareSum(Distinct([0, 0, 0, 1]), [0, 0, 0, 1]) == 10
  {
    TwoTwo();
    ThreeOne();
  }

  /** [0, 0, 1, 1]: two classes of 2 vertices. */
  lemma TwoTwo()
    ensures ColoursUsed([0, 0, 1, 1]) == 2
    ensures SquareSum(Distinct([0, 0, 1, 1]), [0, 0, 1, 1]) == 8
  {
    TwoBlocks(2, 2);
    assert seq(2, _ => 0) + seq(2, _ => 1) == [0, 0, 1, 1];
  }

  /** [0, 0, 0, 1]: classes of 3 and 1 vertices. */
  lemma ThreeOne()
    ensures ColoursUsed([0, 0, 0, 1]) == 2
    ensures SquareSum(Distinct([0, 0, 0, 1]), [0, 0, 0, 1]) == 10
  {
    TwoBlocks(3, 1);
    assert seq(3, _ => 0) + seq(1, _ => 1) == [0, 0, 0, 1];
  }

  /** The objective does not follow the number of colours: [0, 0, 0, 0, 0, 1, 2]
      uses three colours and scores -27, below [0, 0, 0, 0, 1, 1, 1], which
      uses two and scores -25. */
  lemma MoreColoursScoreLower()
    ensures ColoursUsed([0, 0, 0, 0, 0, 1, 2]) == 3
    ensures ColoursUsed([0, 0, 0, 0, 1, 1, 1]) == 2
    ensures SquareSum(Distinct([0, 0, 0, 0, 0, 1, 2]), [0, 0, 0, 0, 0, 1, 2]) == 27
    ensures SquareSum(Distinct([0, 0, 0, 0, 1, 1, 1]), [0, 0, 0, 0, 1, 1, 1]) == 25
  {
    FiveOneOne();
    FourThree();
  }

  /** [0, 0, 0, 0, 0, 1, 2]: classes of 5, 1 and 1 vertices. */
  lemma FiveOneOne()
    ensures ColoursUsed([0, 0, 0, 0, 0, 1, 2]) == 3
    ensures SquareSum(Distinct([0, 0, 0, 0, 0, 1, 2]), [0, 0, 0, 0, 0, 1, 2]) == 27
  {
    BlockThenTwo(5);
    assert seq(5, _ => 0) + [1, 2] == [0, 0, 0, 0, 0, 1, 2];
  }

  /** [0, 0, 0, 0, 1, 1, 1]: classes of 4 and 3 vertices. */
  lemma FourThree()
    ensures ColoursUsed([0, 0, 0, 0, 1, 1, 1]) == 2
    ensures SquareSum(Distinct([0, 0, 0, 0, 1, 1, 1]), [0, 0, 0, 0, 1, 1, 1]) == 25
  {
    TwoBlocks(4, 3);
    assert seq(4, _ => 0) + seq(3, _ => 1) == [0, 0, 0, 0, 1, 1, 1];
  }

  /** n vertices of colour c form one class of size n; other classes are
      empty. */
  lemma ClassSizeOfBlock(n: nat, c: int, x: int)
    ensures ClassSize(seq(n, _ => c), x) == if x == c then n else 0
  {
    var s := seq(n, _ => c);
    if x != c {
      assert x !in s;
    } else if n > 0 {
      DistinctOfOneColour(s, c);
      ClassSizesAddUp(s);
      assert [c][..0] == [];
    }
  }

  /** Appending vertices whose colours are already listed keeps the list. */
  lemma {:induction false} DistinctKeepsOld(p: Colouring, ys: Colouring)
    requires forall i :: 0 <= i < |ys| ==> ys[i] in p
    ensures Distinct(p + ys) == Distinct(p)
  {
    if ys == [] {
      assert p + ys == p;
    } else {
      var q := ys[..|ys| - 1];
      var y := ys[|ys| - 1];
      DistinctKeepsOld(p, q);
      assert p + ys == (p + q) + [y];
      assert y in p;
      assert y in Distinct(p + q);
      DistinctSnoc(p + q, y);
    }
  }

  /** The squared class sizes of colours 0 and 1, given the sizes. */
  lemma TwoColourSquareSum(s: Colouring, a: nat, b: nat)
    requires ClassSize(s, 0) == a && ClassSize(s, 1) == b
    ensures SquareSum([0, 1], s) == a * a + b * b
  {
    assert [0, 1][..1] == [0] && [0][..0] == [];
    assert SquareSum([0], s) == a * a;
    assert SquareSum([0, 1], s) == SquareSum([0], s) + b * b;
  }

  /** a vertices of colour 0 followed by b of colour 1: two classes, of
      sizes a and b. */
  lemma TwoBlocks(a: nat, b: nat)
    requires a > 0 && b > 0
    ensures Distinct(seq(a, _ => 0) + seq(b, _ => 1)) == [0, 1]
    ensures ClassSize(seq(a, _ => 0) + seq(b, _ => 1), 0) == a
    ensures ClassSize(seq(a, _ => 0) + seq(b, _ => 1), 1) == b
    ensures SquareSum([0, 1], seq(a, _ => 0) + seq(b, _ => 1)) == a * a + b * b
  {
    var zeros := seq(a, _ => 0);
    var ones := seq(b, _ => 1);
    var s := zeros + ones;
    DistinctOfOneColour(zeros, 0);
    DistinctSnoc(zeros, 1);
    assert s == (zeros + [1]) + ones[1..];
    DistinctKeepsOld(zeros + [1], ones[1..]);
    assert multiset(s) == multiset(zeros) + multiset(ones);
    ClassSizeOfBlock(a, 0, 0);
    ClassSizeOfBlock(a, 0, 1);
    ClassSizeOfBlock(b, 1, 0);
    ClassSizeOfBlock(b, 1, 1);
    TwoColourSquareSum(s, a, b);
  }

  /** a vertices of colour 0 followed by one of colour 1 and one of colour
      2: classes of sizes a, 1 and 1. */
  lemma BlockThenTwo(a: nat)
    requires a > 0
    ensures Distinct(seq(a, _ => 0) + [1, 2]) == [0, 1, 2]
    ensures SquareSum([0, 1, 2], seq(a, _ => 0) + [1, 2]) == a * a + 2
  {
    var p := seq(a, _ => 0) + seq(1, _ => 1);
    var s := p + [2];
    assert s == seq(a, _ => 0) + [1, 2];
    TwoBlocks(a, 1);
    DistinctSnoc(p, 2);
    ClassSizeSnoc(p, 2, 0);
    ClassSizeSnoc(p, 2, 1);
    ClassSizeSnoc(p, 2, 2);
    assert 2 !in multiset(p);
    TwoColourSquareSum(s, a, 1);
    assert [0, 1, 2][..2] == [0, 1];
    assert SquareSum([0, 1, 2], s) == SquareSum([0, 1], s) + ClassSize(s, 2) * ClassSize(s, 2);
  }
}
