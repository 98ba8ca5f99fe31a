/** initSets and updatePS (code/inferAdjProb.c): every adjacency observed in a leaf
    genome, or given as a join hint for an outgroup, is marked in that leaf's P matrix
    and in the shared DPPI matrix, each together with its reverse complement; the
    leaf's `there` flags record which block ends have a known predecessor. */
module CompatSets {
  import opened AdjacencyIndex

  /** A signed block id of a genome with t blocks. */
  predicate BlockId(t: nat, e: int)
  {
    1 <= e <= t || -(t as int) <= e <= -1
  }

  /** One side of a join: a block id or the chromosome end 0. */
  predicate JoinEnd(t: nat, x: int)
  {
    x == 0 || BlockId(t, x)
  }

  /** updatePS: the `there` flags it raises. */
  function UpdatePS(t: nat, i: int, j: int): set<int>
  {
    var j' := Canon(t, j);
    var i' := Canon(t, i);
    if i' == 0 then {j'}
    else if j' == Z(t) then {Map(t, i')}
    else {j', Map(t, i')}
  }

  /** The (i, j) arguments of the two Set calls made for the join x -> y (0 standing
      for a chromosome end): the join itself and its reverse complement.  A `0 0` join
      makes no call. */
  function JoinArgs(t: nat, x: int, y: int): seq<(int, int)>
  {
    if x == 0 && y != 0 then [(0, y), (-y, Z(t))]
    else if x != 0 && y == 0 then [(x, Z(t)), (0, -x)]
    else if x != 0 && y != 0 then [(x, y), (-y, -x)]
    else []
  }

  /** The cells marked for the join x -> y. */
  function JoinCells(t: nat, x: int, y: int): set<(int, int)>
  {
    var args := JoinArgs(t, x, y);
    if |args| == 0 then {} else {Target(t, args[0].0, args[0].1), Target(t, args[1].0, args[1].1)}
  }

  /** The `there` flags raised for the join x -> y. */
  function JoinThere(t: nat, x: int, y: int): set<int>
  {
    if x == 0 && y != 0 then UpdatePS(t, 0, y)
    else if x != 0 && y == 0 then UpdatePS(t, x, Z(t))
    else if x != 0 && y != 0 then UpdatePS(t, x, y)
    else {}
  }

  /** Every marked cell comes with its reverse complement (map(j), map(i)). */
  lemma JoinCellsClosed(t: nat, x: int, y: int)
    requires JoinEnd(t, x) && JoinEnd(t, y)
    ensures forall p :: p in JoinCells(t, x, y) ==> (Map(t, p.1), Map(t, p.0)) in JoinCells(t, x, y)
  {
    if x != 0 {
      CanonOfBlock(t, x);
    }
    if y != 0 {
      CanonOfBlock(t, y);
    }
  }

  /** The columns of a cell set other than Z. */
  function Columns(t: nat, cells: set<(int, int)>): set<int>
  {
    set p | p in cells && p.1 != Z(t) :: p.1
  }

  lemma ColumnsPair(t: nat, a: (int, int), b: (int, int))
    ensures Columns(t, {a, b}) == (if a.1 != Z(t) then {a.1} else {}) + (if b.1 != Z(t) then {b.1} else {})
  {
    assert a in {a, b} && b in {a, b};
  }

  lemma ColumnsUnion(t: nat, c1: set<(int, int)>, c2: set<(int, int)>)
    ensures Columns(t, c1 + c2) == Columns(t, c1) + Columns(t, c2)
  {
    forall v | v in Columns(t, c1 + c2)
      ensures v in Columns(t, c1) + Columns(t, c2)
    {
      var p :| p in c1 + c2 && p.1 != Z(t) && p.1 == v;
      assert p in c1 || p in c2;
    }
  }

  /** `there` holds exactly the non-Z columns of the marked cells: the block ends that
      have a marked predecessor. */
  lemma JoinThereIsColumns(t: nat, x: int, y: int)
    requires JoinEnd(t, x) && JoinEnd(t, y)
    ensures JoinThere(t, x, y) == Columns(t, JoinCells(t, x, y))
  {
    if x != 0 {
      CanonOfBlock(t, x);
    }
    if y != 0 {
      CanonOfBlock(t, y);
    }
    var args := JoinArgs(t, x, y);
    if |args| != 0 {
      ColumnsPair(t, Target(t, args[0].0, args[0].1), Target(t, args[1].0, args[1].1));
    }
  }

  predicate JoinsIn(t: nat, js: seq<(int, int)>)
  {
    forall k :: 0 <= k < |js| ==> JoinEnd(t, js[k].0) && JoinEnd(t, js[k].1)
  }

  function JoinsCells(t: nat, js: seq<(int, int)>): set<(int, int)>
  {
    if |js| == 0 then {}
    else JoinsCells(t, js[..|js| - 1]) + JoinCells(t, js[|js| - 1].0, js[|js| - 1].1)
  }

  function JoinsThere(t: nat, js: seq<(int, int)>): set<int>
  {
    if |js| == 0 then {}
    else JoinsThere(t, js[..|js| - 1]) + JoinThere(t, js[|js| - 1].0, js[|js| - 1].1)
  }

  lemma {:induction false} JoinsCellsMember(t: nat, js: seq<(int, int)>, p: (int, int))
    ensures p in JoinsCells(t, js) <==> exists k :: 0 <= k < |js| && p in JoinCells(t, js[k].0, js[k].1)
  {
    if |js| > 0 {
      var init := js[..|js| - 1];
      JoinsCellsMember(t, init, p);
      if p in JoinsCells(t, init) {
        var k :| 0 <= k < |init| && p in JoinCells(t, init[k].0, init[k].1);
        assert js[k] == init[k];
      }
      forall k | 0 <= k < |init|
        ensures js[k] == init[k]
      {
      }
    }
  }

  lemma {:induction false} JoinsCellsClosed(t: nat, js: seq<(int, int)>)
    requires JoinsIn(t, js)
    ensures forall p :: p in JoinsCells(t, js) ==> (Map(t, p.1), Map(t, p.0)) in JoinsCells(t, js)
  {
    if |js| > 0 {
      var init := js[..|js| - 1];
      JoinsCellsClosed(t, init);
      JoinCellsClosed(t, js[|js| - 1].0, js[|js| - 1].1);
    }
  }

  lemma {:induction false} JoinsThereIsColumns(t: nat, js: seq<(int, int)>)
    requires JoinsIn(t, js)
    ensures JoinsThere(t, js) == Columns(t, JoinsCells(t, js))
  {
    if |js| > 0 {
      var init := js[..|js| - 1];
      var last := js[|js| - 1];
      JoinsThereIsColumns(t, init);
      JoinThereIsColumns(t, last.0, last.1);
      ColumnsUnion(t, JoinsCells(t, init), JoinCells(t, last.0, last.1));
    }
  }

  // ---------------------------------------------------------------------------
  // Chromosomes as join lists

  predicate Chromosome(t: nat, c: seq<int>)
  {
    |c| > 0 && forall k :: 0 <= k < |c| ==> BlockId(t, c[k])
  }

  /** The joins of one chromosome: (A, first), each consecutive pair, (last, Z).  An
      empty chromosome, which the source would read past, contributes none. */
  function ChromJoins(c: seq<int>): (js: seq<(int, int)>)
    ensures |c| > 0 ==> |js| == |c| + 1
  {
    if |c| == 0 then [] else [(0, c[0])] + Links(c) + [(c[|c| - 1], 0)]
  }

  /** The consecutive pairs of a chromosome, in order. */
  function Links(c: seq<int>): (js: seq<(int, int)>)
    ensures |c| > 0 ==> |js| == |c| - 1
  {
    if |c| < 2 then [] else Links(c[..|c| - 1]) + [(c[|c| - 2], c[|c| - 1])]
  }

  lemma {:induction false} LinksAt(c: seq<int>, k: int)
    requires 0 <= k < |c| - 1
    ensures Links(c)[k] == (c[k], c[k + 1])
  {
    var init := c[..|c| - 1];
    if k < |c| - 2 {
      LinksAt(init, k);
    }
  }

  function GenomeJoins(g: seq<seq<int>>): seq<(int, int)>
  {
    if |g| == 0 then [] else GenomeJoins(g[..|g| - 1]) + ChromJoins(g[|g| - 1])
  }

  /** Inside, a chromosome's joins are its consecutive pairs. */
  lemma ChromJoinsAt(c: seq<int>, k: int)
    requires 0 < k < |c|
    ensures ChromJoins(c)[k] == (c[k - 1], c[k])
  {
    LinksAt(c, k - 1);
  }

  lemma ChromJoinsIn(t: nat, c: seq<int>)
    requires Chromosome(t, c)
    ensures JoinsIn(t, ChromJoins(c))
  {
    var js := ChromJoins(c);
    forall k | 0 <= k < |js|
      ensures JoinEnd(t, js[k].0) && JoinEnd(t, js[k].1)
    {
      if 0 < k < |c| {
        ChromJoinsAt(c, k);
      }
    }
  }

  lemma {:induction false} GenomeJoinsIn(t: nat, g: seq<seq<int>>)
    requires forall k :: 0 <= k < |g| ==> Chromosome(t, g[k])
    ensures JoinsIn(t, GenomeJoins(g))
  {
    if |g| > 0 {
      GenomeJoinsIn(t, g[..|g| - 1]);
      ChromJoinsIn(t, g[|g| - 1]);
      JoinsInConcat(t, GenomeJoins(g[..|g| - 1]), ChromJoins(g[|g| - 1]));
    }
  }

  lemma JoinsInConcat(t: nat, a: seq<(int, int)>, b: seq<(int, int)>)
    requires JoinsIn(t, a) && JoinsIn(t, b)
    ensures JoinsIn(t, a + b)
  {
    forall k | 0 <= k < |a + b|
      ensures JoinEnd(t, (a + b)[k].0) && JoinEnd(t, (a + b)[k].1)
    {
      if k < |a| {
        assert (a + b)[k] == a[k];
      } else {
        assert (a + b)[k] == b[k - |a|];
      }
    }
  }

  /** A chromosome marks (A, first), (last, Z) and each consecutive pair. */
  lemma ChromosomeMarks(t: nat, c: seq<int>)
    requires Chromosome(t, c)
    ensures Target(t, 0, c[0]) in JoinsCells(t, ChromJoins(c))
    ensures Target(t, c[|c| - 1], Z(t)) in JoinsCells(t, ChromJoins(c))
    ensures forall k :: 0 <= k < |c| - 1 ==> Target(t, c[k], c[k + 1]) in JoinsCells(t, ChromJoins(c))
  {
    var js := ChromJoins(c);
    JoinsCellsMember(t, js, Target(t, 0, c[0]));
    assert Target(t, 0, c[0]) in JoinCells(t, js[0].0, js[0].1);
    JoinsCellsMember(t, js, Target(t, c[|c| - 1], Z(t)));
    assert Target(t, c[|c| - 1], Z(t)) in JoinCells(t, js[|c|].0, js[|c|].1);
    forall k | 0 <= k < |c| - 1
      ensures Target(t, c[k], c[k + 1]) in JoinsCells(t, js)
    {
      ChromJoinsAt(c, k + 1);
      JoinsCellsMember(t, js, Target(t, c[k], c[k + 1]));
      assert Target(t, c[k], c[k + 1]) in JoinCells(t, c[k], c[k + 1]);
    }
  }

  // ---------------------------------------------------------------------------
  // The marking loops

  predicate Apart(p: BitMatrix, q: BitMatrix)
  {
    p != q && p.bytes != q.bytes
  }

  /** One join: Set on the leaf matrix and on DPPI for the join and for its reverse
      complement, then updatePS. */
  method MarkJoin(p: BitMatrix, dppi: BitMatrix, x: int, y: int) returns (there: set<int>)
    requires p.Valid() && dppi.Valid() && p.t == dppi.t && Apart(p, dppi)
    requires JoinEnd(p.t, x) && JoinEnd(p.t, y)
    modifies p, p.bytes, dppi, dppi.bytes
    ensures p.Valid() && dppi.Valid()
    ensures p.cells == old(p.cells) + JoinCells(p.t, x, y)
    ensures dppi.cells == old(dppi.cells) + JoinCells(p.t, x, y)
    ensures there == JoinThere(p.t, x, y)
  {
    var t := p.t;
    var args := JoinArgs(t, x, y);
    if |args| == 0 {
      return {};
    }
    var (i1, j1) := args[0];
    var (i2, j2) := args[1];
    p.Set(i1, j1, 1);
    p.Set(i2, j2, 1);
    dppi.Set(i1, j1, 1);
    dppi.Set(i2, j2, 1);
    there := UpdatePS(t, i1, j1);
  }

  /** Marks a whole join list, in order, raising `there` flags on top of `there0`. */
  method MarkJoins(p: BitMatrix, dppi: BitMatrix, js: seq<(int, int)>, there0: set<int>)
    returns (there: set<int>)
    requires p.Valid() && dppi.Valid() && p.t == dppi.t && Apart(p, dppi)
    requires JoinsIn(p.t, js)
    modifies p, p.bytes, dppi, dppi.bytes
    ensures p.Valid() && dppi.Valid()
    ensures p.cells == old(p.cells) + JoinsCells(p.t, js)
    ensures dppi.cells == old(dppi.cells) + JoinsCells(p.t, js)
    ensures there == there0 + JoinsThere(p.t, js)
  {
    there := there0;
    var k := 0;
    while k < |js|
      invariant 0 <= k <= |js|
      invariant p.Valid() && dppi.Valid()
      invariant p.cells == old(p.cells) + JoinsCells(p.t, js[..k])
      invariant dppi.cells == old(dppi.cells) + JoinsCells(p.t, js[..k])
      invariant there == there0 + JoinsThere(p.t, js[..k])
    {
      assert js[..k + 1][..k] == js[..k];
      var raised := MarkJoin(p, dppi, js[k].0, js[k].1);
      there := there + raised;
      k := k + 1;
    }
    assert js[..k] == js;
  }

  /** A leaf of the tree as initSets sees it: its genome (chromosomes of block ids), the
      join hints of its `.joins` file and whether it is an outgroup. */
  datatype Leaf = Leaf(genome: seq<seq<int>>, hints: seq<(int, int)>, outgroup: bool)

  predicate WellFormed(t: nat, l: Leaf)
  {
    (forall k :: 0 <= k < |l.genome| ==> Chromosome(t, l.genome[k])) && JoinsIn(t, l.hints)
  }

  /** With oj set, an outgroup is described by its join hints instead of its genome. */
  function LeafJoins(t: nat, l: Leaf, oj: bool): seq<(int, int)>
  {
    if l.outgroup && oj then l.hints else GenomeJoins(l.genome)
  }

  function LeafCells(t: nat, l: Leaf, oj: bool): set<(int, int)>
  {
    JoinsCells(t, LeafJoins(t, l, oj))
  }

  /** Whether a loop of initSets marks the leaf: the first loop (second = false) skips
      the outgroups when oj is set, the second loop marks only those. */
  predicate Covered(l: Leaf, oj: bool, second: bool)
  {
    second == (l.outgroup && oj)
  }

  /** A set of cells after one loop has visited a leaf whose joins are `js`. */
  function AfterPass(t: nat, l: Leaf, oj: bool, second: bool, js: seq<(int, int)>, cells: set<(int, int)>): set<(int, int)>
  {
    if Covered(l, oj, second) then cells + JoinsCells(t, js) else cells
  }

  /** A leaf's `there` flags after one loop has visited it. */
  function ThereAfter(t: nat, l: Leaf, oj: bool, second: bool, js: seq<(int, int)>, flags: set<int>): set<int>
  {
    if Covered(l, oj, second) then flags + JoinsThere(t, js) else flags
  }

  /** The cells one loop adds to DPPI over the first leaves, leaf k having joins js[k]. */
  function PassUnion(t: nat, leaves: seq<Leaf>, js: seq<seq<(int, int)>>, oj: bool, second: bool): set<(int, int)>
    requires |leaves| <= |js|
  {
    if |leaves| == 0 then {}
    else
      var n := |leaves| - 1;
      AfterPass(t, leaves[n], oj, second, js[n], PassUnion(t, leaves[..n], js, oj, second))
  }

  /** One more leaf visited by the loop. */
  lemma PassUnionStep(t: nat, leaves: seq<Leaf>, js: seq<seq<(int, int)>>, oj: bool, second: bool, k: nat)
    requires k < |leaves| <= |js|
    ensures PassUnion(t, leaves[..k + 1], js, oj, second)
         == AfterPass(t, leaves[k], oj, second, js[k], PassUnion(t, leaves[..k], js, oj, second))
  {
    assert leaves[..k + 1][..k] == leaves[..k];
  }

  /** The leaf matrices and DPPI are distinct objects with distinct bytes. */
  predicate Separate(ps: seq<BitMatrix>, dppi: BitMatrix)
  {
    (forall k :: 0 <= k < |ps| ==> Apart(ps[k], dppi)) &&
    (forall k, k' :: 0 <= k < k' < |ps| ==> Apart(ps[k], ps[k']))
  }

  /** The matrices of all leaves and DPPI, separate and over the same index space. */
  ghost predicate Matrices(ps: seq<BitMatrix>, dppi: BitMatrix)
  {
    dppi.Shape() && Separate(ps, dppi) && forall k :: 0 <= k < |ps| ==> ps[k].Shape() && ps[k].t == dppi.t
  }

  /** DPPI and every leaf matrix hold their cells' bits. */
  ghost predicate AllValid(ps: seq<BitMatrix>, dppi: BitMatrix)
    reads dppi, dppi.bytes, set k | 0 <= k < |ps| :: ps[k], set k | 0 <= k < |ps| :: ps[k].bytes
  {
    dppi.Valid() && forall k :: 0 <= k < |ps| ==> ps[k].Valid()
  }

  /** One leaf visited by a loop of initSets: when the loop covers it, its joins are
      marked in its own matrix and in DPPI and its `there` flags raised; the other
      leaves' matrices keep their cells. */
  method VisitLeaf(ps: seq<BitMatrix>, k: nat, dppi: BitMatrix, l: Leaf, js: seq<(int, int)>, oj: bool, second: bool, flags0: set<int>)
    returns (flags: set<int>)
    requires k < |ps| && Matrices(ps, dppi) && JoinsIn(dppi.t, js)
    requires AllValid(ps, dppi)
    modifies dppi, dppi.bytes, ps[k], ps[k].bytes
    ensures AllValid(ps, dppi)
    ensures ps[k].cells == AfterPass(dppi.t, l, oj, second, js, old(ps[k].cells))
    ensures dppi.cells == AfterPass(dppi.t, l, oj, second, js, old(dppi.cells))
    ensures forall i :: 0 <= i < |ps| && i != k ==> ps[i].cells == old(ps[i].cells)
    ensures flags == ThereAfter(dppi.t, l, oj, second, js, flags0)
  {
    flags := flags0;
    if Covered(l, oj, second) {
      flags := MarkJoins(ps[k], dppi, js, flags0);
    }
  }

  /** A loop of initSets over the leaves.  The first (second = false) marks every leaf
      but, with oj, the outgroups, from their genomes; the second, run with oj, marks
      the outgroups from their join hints.  `js[k]` are the joins the loop reads for
      leaf k, and `there0` the flags before the loop. */
  method MarkPass(ps: seq<BitMatrix>, dppi: BitMatrix, leaves: seq<Leaf>, js: seq<seq<(int, int)>>, oj: bool, second: bool, there0: seq<set<int>>)
    returns (there: seq<set<int>>)
    requires |ps| == |leaves| == |js| == |there0| && Matrices(ps, dppi)
    requires forall k :: 0 <= k < |js| ==> JoinsIn(dppi.t, js[k])
    requires AllValid(ps, dppi)
    modifies dppi, dppi.bytes, set k | 0 <= k < |ps| :: ps[k], set k | 0 <= k < |ps| :: ps[k].bytes
    ensures AllValid(ps, dppi)
    ensures |there| == |ps|
    ensures dppi.cells == old(dppi.cells) + PassUnion(dppi.t, leaves, js, oj, second)
    ensures forall k :: 0 <= k < |ps| ==>
      ps[k].cells == AfterPass(dppi.t, leaves[k], oj, second, js[k], old(ps[k].cells))
      && there[k] == ThereAfter(dppi.t, leaves[k], oj, second, js[k], there0[k])
  {
    var t := dppi.t;
    there := [];
    ghost var cs0 := seq(|ps|, i requires 0 <= i < |ps| reads set j | 0 <= j < |ps| :: ps[j] => ps[i].cells);
    ghost var cs := cs0;
    var k := 0;
    while k < |leaves|
      invariant 0 <= k <= |leaves|
      invariant AllValid(ps, dppi)
      invariant dppi.cells == old(dppi.cells) + PassUnion(t, leaves[..k], js, oj, second)
      invariant |cs| == |ps| && forall i :: 0 <= i < |ps| ==> ps[i].cells == cs[i]
      invariant cs == PassCells(t, leaves, js, oj, second, k, cs0)
      invariant there == PassThere(t, leaves, js, oj, second, k, there0)
    {
      PassUnionStep(t, leaves, js, oj, second, k);
      PassNext(t, leaves, js, oj, second, k, cs0, there0);
      UnionAssoc(old(dppi.cells), PassUnion(t, leaves[..k], js, oj, second), JoinsCells(t, js[k]));
      var flags := VisitLeaf(ps, k, dppi, leaves[k], js[k], oj, second, there0[k]);
      there := there + [flags];
      cs := cs[k := ps[k].cells];
      k := k + 1;
    }
    assert leaves[..k] == leaves;
  }

  /** The leaves' cells after a loop has visited the first k of them. */
  function PassCells(t: nat, leaves: seq<Leaf>, js: seq<seq<(int, int)>>, oj: bool, second: bool, k: nat, cs0: seq<set<(int, int)>>): seq<set<(int, int)>>
    requires k <= |leaves| && |cs0| == |leaves| <= |js|
  {
    seq(|cs0|, i requires 0 <= i < |cs0| => if i < k then AfterPass(t, leaves[i], oj, second, js[i], cs0[i]) else cs0[i])
  }

  /** The flags of the first k leaves after a loop has visited them. */
  function PassThere(t: nat, leaves: seq<Leaf>, js: seq<seq<(int, int)>>, oj: bool, second: bool, k: nat, there0: seq<set<int>>): seq<set<int>>
    requires k <= |leaves| == |there0| <= |js|
  {
    seq(k, i requires 0 <= i < k => ThereAfter(t, leaves[i], oj, second, js[i], there0[i]))
  }

  lemma PassNext(t: nat, leaves: seq<Leaf>, js: seq<seq<(int, int)>>, oj: bool, second: bool, k: nat, cs0: seq<set<(int, int)>>, there0: seq<set<int>>)
    requires k < |leaves| && |cs0| == |leaves| == |there0| <= |js|
    ensures PassCells(t, leaves, js, oj, second, k + 1, cs0)
         == PassCells(t, leaves, js, oj, second, k, cs0)[k := AfterPass(t, leaves[k], oj, second, js[k], cs0[k])]
    ensures PassThere(t, leaves, js, oj, second, k + 1, there0)
         == PassThere(t, leaves, js, oj, second, k, there0) + [ThereAfter(t, leaves[k], oj, second, js[k], there0[k])]
  {
  }

  lemma UnionAssoc(a: set<(int, int)>, b: set<(int, int)>, c: set<(int, int)>)
    ensures a + b + c == a + (b + c)
  {
  }

  /** Between them the two loops mark each leaf's joins exactly once. */
  lemma PassesSplit(t: nat, l: Leaf, oj: bool, js: seq<(int, int)>)
    ensures AfterPass(t, l, oj, true, js, AfterPass(t, l, oj, false, js, {})) == JoinsCells(t, js)
    ensures ThereAfter(t, l, oj, true, js, ThereAfter(t, l, oj, false, js, {})) == JoinsThere(t, js)
  {
  }

  /** The cells of all leaves' adjacencies together. */
  function LeavesUnion(t: nat, leaves: seq<Leaf>, oj: bool): set<(int, int)>
  {
    if |leaves| == 0 then {}
    else LeavesUnion(t, leaves[..|leaves| - 1], oj) + LeafCells(t, leaves[|leaves| - 1], oj)
  }

  /** The union keeps the earlier leaves' cells ... */
  lemma UnionInit(t: nat, leaves: seq<Leaf>, oj: bool, p: (int, int))
    requires |leaves| > 0 && p in LeavesUnion(t, leaves[..|leaves| - 1], oj)
    ensures p in LeavesUnion(t, leaves, oj)
  {
  }

  /** ... and adds the last leaf's. */
  lemma UnionNew(t: nat, leaves: seq<Leaf>, oj: bool, p: (int, int))
    requires |leaves| > 0 && p in LeafCells(t, leaves[|leaves| - 1], oj)
    ensures p in LeavesUnion(t, leaves, oj)
  {
  }

  /** Each leaf's cells are in the union ... */
  lemma {:induction false} LeavesUnionHas(t: nat, leaves: seq<Leaf>, oj: bool, k: int, p: (int, int))
    requires 0 <= k < |leaves| && p in LeafCells(t, leaves[k], oj)
    ensures p in LeavesUnion(t, leaves, oj)
  {
    var n := |leaves| - 1;
    if k < n {
      var init := leaves[..n];
      assert init[k] == leaves[k];
      LeavesUnionHas(t, init, oj, k, p);
      UnionInit(t, leaves, oj, p);
    } else {
      UnionNew(t, leaves, oj, p);
    }
  }

  /** ... and every cell of the union comes from some leaf. */
  lemma {:induction false} LeavesUnionSource(t: nat, leaves: seq<Leaf>, oj: bool, p: (int, int)) returns (k: int)
    requires p in LeavesUnion(t, leaves, oj)
    ensures 0 <= k < |leaves| && p in LeafCells(t, leaves[k], oj)
  {
    var n := |leaves| - 1;
    var init := leaves[..n];
    if p in LeavesUnion(t, init, oj) {
      k := LeavesUnionSource(t, init, oj, p);
      assert init[k] == leaves[k];
    } else {
      k := n;
    }
  }

  /** What the two loops add to DPPI is the union of all leaves' cells. */
  lemma {:induction false} PassesUnion(t: nat, leaves: seq<Leaf>, js: seq<seq<(int, int)>>, oj: bool)
    requires |leaves| <= |js|
    requires forall k :: 0 <= k < |leaves| ==> js[k] == LeafJoins(t, leaves[k], oj)
    ensures PassUnion(t, leaves, js, oj, false) + PassUnion(t, leaves, js, oj, true) == LeavesUnion(t, leaves, oj)
  {
    if |leaves| > 0 {
      var n := |leaves| - 1;
      var init := leaves[..n];
      forall k | 0 <= k < |init|
        ensures js[k] == LeafJoins(t, init[k], oj)
      {
        assert init[k] == leaves[k];
      }
      PassesUnion(t, init, js, oj);
      assert LeafCells(t, leaves[n], oj) == JoinsCells(t, js[n]);
    }
  }

  /** initSets: afterwards each leaf matrix holds exactly its own adjacencies, each leaf's
      `there` flags are the columns of those, and DPPI is the union of the leaf
      matrices. */
  method InitSets(ps: seq<BitMatrix>, dppi: BitMatrix, leaves: seq<Leaf>, oj: bool)
    returns (there: seq<set<int>>)
    requires |ps| == |leaves| && Matrices(ps, dppi) && dppi.cells == {}
    requires forall k :: 0 <= k < |ps| ==> ps[k].cells == {} && WellFormed(dppi.t, leaves[k])
    requires AllValid(ps, dppi)
    modifies dppi, dppi.bytes, set k | 0 <= k < |ps| :: ps[k], set k | 0 <= k < |ps| :: ps[k].bytes
    ensures AllValid(ps, dppi)
    ensures |there| == |ps|
    ensures forall k :: 0 <= k < |ps| ==>
      ps[k].cells == LeafCells(dppi.t, leaves[k], oj)
      && there[k] == JoinsThere(dppi.t, LeafJoins(dppi.t, leaves[k], oj))
    ensures dppi.cells == LeavesUnion(dppi.t, leaves, oj)
  {
    var t := dppi.t;
    var js := seq(|leaves|, k requires 0 <= k < |leaves| => LeafJoins(t, leaves[k], oj));
    forall k | 0 <= k < |js|
      ensures JoinsIn(t, js[k])
    {
      if !(leaves[k].outgroup && oj) {
        GenomeJoinsIn(t, leaves[k].genome);
      }
    }
    there := MarkPass(ps, dppi, leaves, js, oj, false, seq(|leaves|, _ => {}));
    if oj {
      there := MarkPass(ps, dppi, leaves, js, oj, true, there);
    } else {
      NoSecondPass(t, leaves, js);
    }
    forall k | 0 <= k < |ps|
      ensures ps[k].cells == LeafCells(t, leaves[k], oj)
      ensures there[k] == JoinsThere(t, LeafJoins(t, leaves[k], oj))
    {
      PassesSplit(t, leaves[k], oj, js[k]);
    }
    PassesUnion(t, leaves, js, oj);
  }

  /** Without oj the second loop of initSets covers no leaf. */
  lemma {:induction false} NoSecondPass(t: nat, leaves: seq<Leaf>, js: seq<seq<(int, int)>>)
    requires |leaves| <= |js|
    ensures PassUnion(t, leaves, js, false, true) == {}
  {
    if |leaves| > 0 {
      NoSecondPass(t, leaves[..|leaves| - 1], js);
    }
  }
}
