/** The per-chromosome segment lists that createGenomeFile, orthoBlocksToOrders and
    outgroupSegsToOrders build for every species they print (head[i][j] in
    code/makeBlocks/createGenomeFile.c, lines 42-80; the same loops appear in
    code/makeBlocks/orthoBlocksToOrders.c, lines 28-67, and
    code/makeBlocks/outgroupSegsToOrders.c, lines 27-66).

    A segment goes to the list of its chromosome, a new list being opened after the
    others for a chromosome not seen before, and is linked into that list by the
    sorted-insertion loop.  The lists of one species are a sequence of sequences; the
    in-place linking is a method returning the new list. */
module Chromosomes {
  import opened Wrappers
  import opened Species
  import opened Lists

  // ---------------------------------------------------------------------------
  // Sorted insertion

  /** The insertion loop stops at element k when the new segment begins before it
      and, past the head, after the element before it. */
  predicate StopsAt(l: seq<Seg>, beg: int, k: nat)
    requires k < |l|
  {
    beg < l[k].beg && (k == 0 || beg > l[k - 1].beg)
  }

  /** Where the insertion loop, started at element k, stops; |l| when it runs off the
      end of the list. */
  function InsertPos(l: seq<Seg>, beg: int, k: nat): (p: nat)
    requires k <= |l|
    ensures k <= p <= |l|
    ensures p < |l| ==> StopsAt(l, beg, p)
    ensures forall m :: k <= m < p ==> !StopsAt(l, beg, m)
    decreases |l| - k
  {
    if k == |l| then |l|
    else if StopsAt(l, beg, k) then k
    else InsertPos(l, beg, k + 1)
  }

  /** The list after q is linked in where the loop stops: at the head when it stops
      at the first element, after the last element when it stops nowhere. */
  function Inserted(l: seq<Seg>, q: Seg): (r: seq<Seg>)
    ensures |r| == |l| + 1 && multiset(r) == multiset(l) + multiset{q}
    ensures r[InsertPos(l, q.beg, 0)] == q
  {
    var p := InsertPos(l, q.beg, 0);
    assert l == l[..p] + l[p..];
    l[..p] + [q] + l[p..]
  }

  /** The list is strictly ascending by begin. */
  predicate Ascending(l: seq<Seg>)
  {
    forall a, b :: 0 <= a < b < |l| ==> l[a].beg < l[b].beg
  }

  /** The insertion loop of main: a walk from the head with the previous element
      (pp) one step behind. */
  method InsertSorted(l: seq<Seg>, q: Seg) returns (r: seq<Seg>)
    ensures r == Inserted(l, q)
  {
    var k := 0;
    while k < |l| && !(q.beg < l[k].beg && (k == 0 || q.beg > l[k - 1].beg))
      invariant 0 <= k <= |l|
      invariant InsertPos(l, q.beg, k) == InsertPos(l, q.beg, 0)
    {
      k := k + 1;
    }
    r := l[..k] + [q] + l[k..];
  }

  /** Before the stop, every element of an ascending list begins before a begin it
      does not share. */
  lemma {:induction false} BeforeStop(l: seq<Seg>, beg: int, m: nat)
    requires Ascending(l) && forall k :: 0 <= k < |l| ==> l[k].beg != beg
    requires m < InsertPos(l, beg, 0)
    ensures l[m].beg < beg
  {
    assert !StopsAt(l, beg, m);
    if m > 0 {
      BeforeStop(l, beg, m - 1);
    }
  }

  /** Element i of the list after the insertion. */
  lemma InsertedAt(l: seq<Seg>, q: Seg, i: nat)
    requires i <= |l|
    ensures var p := InsertPos(l, q.beg, 0);
            Inserted(l, q)[i] == if i < p then l[i] else if i == p then q else l[i - 1]
  {
  }

  /** When no element of an ascending list shares q's begin, q goes before the first
      element that begins after it, and the list stays ascending. */
  lemma InsertedAscending(l: seq<Seg>, q: Seg)
    requires Ascending(l) && forall k :: 0 <= k < |l| ==> l[k].beg != q.beg
    ensures var p := InsertPos(l, q.beg, 0);
            (forall k :: 0 <= k < p ==> l[k].beg < q.beg) &&
            (forall k :: p <= k < |l| ==> q.beg < l[k].beg)
    ensures Ascending(Inserted(l, q))
  {
    var p := InsertPos(l, q.beg, 0);
    forall k | 0 <= k < p
      ensures l[k].beg < q.beg
    {
      BeforeStop(l, q.beg, k);
    }
    if p < |l| {
      assert q.beg < l[p].beg;
    }
    var r := Inserted(l, q);
    forall a, b | 0 <= a < b < |r|
      ensures r[a].beg < r[b].beg
    {
      InsertedAt(l, q, a);
      InsertedAt(l, q, b);
    }
  }

  /** When an element of an ascending list shares q's begin, the loop never stops:
      q is appended at the tail, and the list is no longer ascending unless the
      element it shares its begin with is the last one. */
  lemma EqualBeginAppends(l: seq<Seg>, q: Seg, m: nat)
    requires Ascending(l) && m < |l| && l[m].beg == q.beg
    ensures InsertPos(l, q.beg, 0) == |l| && Inserted(l, q) == l + [q]
    ensures m < |l| - 1 ==> !Ascending(Inserted(l, q))
  {
    var p := InsertPos(l, q.beg, 0);
    assert l[..p] == l;
    if m < |l| - 1 {
      var r := Inserted(l, q);
      assert r[|l| - 1] == l[|l| - 1] && r[|l|] == q;
      assert l[m].beg < l[|l| - 1].beg;
    }
  }

  // ---------------------------------------------------------------------------
  // Grouping by chromosome

  /** The chromosome of each list, read off its head. */
  function Chrs(heads: seq<seq<Seg>>): (r: seq<string>)
    ensures |r| == |heads|
  {
    seq(|heads|, j requires 0 <= j < |heads| => if heads[j] == [] then "" else heads[j][0].chr)
  }

  /** The lists of one species as main keeps them: none empty, each on the chromosome
      of its head, no chromosome twice. */
  predicate Grouped(heads: seq<seq<Seg>>)
  {
    (forall j :: 0 <= j < |heads| ==> heads[j] != [] && OneChr(heads[j])) &&
    forall j, j' :: 0 <= j < j' < |heads| ==> Chrs(heads)[j] != Chrs(heads)[j']
  }

  predicate OneChr(l: seq<Seg>)
  {
    forall k :: 0 <= k < |l| ==> l[k].chr == l[0].chr
  }

  /** The test of the chromosome search loop. */
  function OnChrom(chr: string): (f: seq<Seg> -> bool)
    ensures forall l: seq<Seg> :: f(l) == (l != [] && l[0].chr == chr)
  {
    (l: seq<Seg>) => l != [] && l[0].chr == chr
  }

  /** One segment placed: linked into the list of its chromosome, or opening a new
      list after the others. */
  function AddSpec(heads: seq<seq<Seg>>, s: Seg): (r: seq<seq<Seg>>)
  {
    match Find(heads, OnChrom(s.chr))
    case None => heads + [[s]]
    case Some(j) => heads[j := Inserted(heads[j], s)]
  }

  /** The segments placed one after the other. */
  function GroupInto(heads: seq<seq<Seg>>, segs: seq<Seg>): seq<seq<Seg>>
    decreases |segs|
  {
    if segs == [] then heads else GroupInto(AddSpec(heads, segs[0]), segs[1..])
  }

  /** The segments of segs on chromosome chr, in order. */
  function OnChr(segs: seq<Seg>, chr: string): seq<Seg>
  {
    if segs == [] then []
    else (if segs[0].chr == chr then [segs[0]] else []) + OnChr(segs[1..], chr)
  }

  /** known followed by the chromosomes of segs not in it, in order of first
      appearance. */
  function ChrsAfter(known: seq<string>, segs: seq<Seg>): seq<string>
    decreases |segs|
  {
    if segs == [] then known
    else ChrsAfter(if segs[0].chr in known then known else known + [segs[0].chr], segs[1..])
  }

  /** The segment loop for one species: the chromosome search, then the insertion
      or a new list. */
  method AddSeg(heads: seq<seq<Seg>>, s: Seg) returns (r: seq<seq<Seg>>)
    requires forall j :: 0 <= j < |heads| ==> heads[j] != []
    ensures r == AddSpec(heads, s)
  {
    var j := 0;
    while j < |heads| && heads[j][0].chr != s.chr
      invariant 0 <= j <= |heads|
      invariant forall m :: 0 <= m < j ==> !OnChrom(s.chr)(heads[m])
    {
      j := j + 1;
    }
    assert Find(heads, OnChrom(s.chr)) == if j < |heads| then Some(j) else None;
    if j == |heads| {
      r := heads + [[s]];
    } else {
      var l := InsertSorted(heads[j], s);
      r := heads[j := l];
    }
  }

  predicate NonEmpty(heads: seq<seq<Seg>>)
  {
    forall j :: 0 <= j < |heads| ==> heads[j] != []
  }

  /** Placing one segment opens a list for its chromosome, at the end, only when
      there is none. */
  lemma AddSpecChrs(heads: seq<seq<Seg>>, s: Seg)
    requires NonEmpty(heads)
    ensures NonEmpty(AddSpec(heads, s))
    ensures Chrs(AddSpec(heads, s)) == if s.chr in Chrs(heads) then Chrs(heads) else Chrs(heads) + [s.chr]
  {
    var r := AddSpec(heads, s);
    match Find(heads, OnChrom(s.chr))
    case None =>
      assert s.chr !in Chrs(heads);
      assert Chrs(r) == Chrs(heads) + [s.chr];
    case Some(j) =>
      InsertedAt(heads[j], s, 0);
      assert Chrs(heads)[j] == s.chr;
      assert Chrs(r) == Chrs(heads);
  }

  /** Placing one segment keeps the lists grouped. */
  lemma AddSpecGrouped(heads: seq<seq<Seg>>, s: Seg)
    requires Grouped(heads)
    ensures Grouped(AddSpec(heads, s))
  {
    AddSpecChrs(heads, s);
    match Find(heads, OnChrom(s.chr))
    case None =>
    case Some(j) =>
      var l := Inserted(heads[j], s);
      forall k | 0 <= k < |l|
        ensures l[k].chr == s.chr
      {
        InsertedAt(heads[j], s, k);
      }
  }

  /** List j after one segment is placed: what it held, plus the segment when the
      list is on its chromosome. */
  predicate AddHolds(heads: seq<seq<Seg>>, s: Seg, h1: seq<seq<Seg>>, j: nat)
    requires j < |h1|
  {
    multiset(h1[j]) == (if j < |heads| then multiset(heads[j]) else multiset{}) +
                       (if Chrs(h1)[j] == s.chr then multiset{s} else multiset{})
  }

  lemma AddSpecContents(heads: seq<seq<Seg>>, s: Seg, j: nat)
    requires Grouped(heads) && j < |AddSpec(heads, s)|
    ensures AddHolds(heads, s, AddSpec(heads, s), j)
  {
    AddSpecChrs(heads, s);
    match Find(heads, OnChrom(s.chr))
    case None =>
    case Some(i) =>
      if j != i {
        assert Chrs(heads)[j] != Chrs(heads)[i];
      }
  }

  /** What ChrsAfter adds to known is new, and each addition is the chromosome of
      some segment. */
  lemma {:induction false} ChrsAfterSpec(known: seq<string>, segs: seq<Seg>)
    ensures var r := ChrsAfter(known, segs);
            |known| <= |r| && r[..|known|] == known &&
            (forall j :: |known| <= j < |r| ==> r[j] !in known) &&
            forall j :: |known| <= j < |r| ==> exists k :: 0 <= k < |segs| && segs[k].chr == r[j]
    decreases |segs|
  {
    if segs != [] {
      var c := segs[0].chr;
      var known' := if c in known then known else known + [c];
      ChrsAfterSpec(known', segs[1..]);
      var r := ChrsAfter(known, segs);
      assert r == ChrsAfter(known', segs[1..]);
      assert r[..|known|] == known by {
        assert r[..|known'|][..|known|] == r[..|known|];
      }
      forall j | |known| <= j < |r|
        ensures r[j] !in known && exists k :: 0 <= k < |segs| && segs[k].chr == r[j]
      {
        if j < |known'| {
          assert r[j] == c;
        } else {
          var k :| 0 <= k < |segs[1..]| && segs[1..][k].chr == r[j];
          assert segs[k + 1].chr == r[j];
        }
      }
    }
  }

  /** Placing the segments one after the other opens one list per new chromosome, in
      order of first appearance. */
  lemma {:induction false} GroupIntoChrs(heads: seq<seq<Seg>>, segs: seq<Seg>)
    requires NonEmpty(heads)
    ensures NonEmpty(GroupInto(heads, segs))
    ensures Chrs(GroupInto(heads, segs)) == ChrsAfter(Chrs(heads), segs)
    decreases |segs|
  {
    if segs != [] {
      var h1 := AddSpec(heads, segs[0]);
      AddSpecChrs(heads, segs[0]);
      GroupIntoChrs(h1, segs[1..]);
      assert GroupInto(heads, segs) == GroupInto(h1, segs[1..]);
      assert ChrsAfter(Chrs(heads), segs) == ChrsAfter(Chrs(h1), segs[1..]);
    }
  }

  /** Placing the segments one after the other keeps the lists grouped. */
  lemma {:induction false} GroupIntoGrouped(heads: seq<seq<Seg>>, segs: seq<Seg>)
    requires Grouped(heads)
    ensures Grouped(GroupInto(heads, segs))
    decreases |segs|
  {
    if segs != [] {
      AddSpecGrouped(heads, segs[0]);
      GroupIntoGrouped(AddSpec(heads, segs[0]), segs[1..]);
    }
  }

  /** List j of r holds what list j of heads held (nothing for a new list) and the
      segments of segs on its chromosome. */
  predicate Holds(heads: seq<seq<Seg>>, segs: seq<Seg>, r: seq<seq<Seg>>, j: nat)
    requires j < |r|
  {
    multiset(r[j]) == (if j < |heads| then multiset(heads[j]) else multiset{}) +
                      multiset(OnChr(segs, Chrs(r)[j]))
  }

  /** Every list ends up with exactly its chromosome's segments added. */
  lemma {:induction false} GroupIntoContents(heads: seq<seq<Seg>>, segs: seq<Seg>)
    requires Grouped(heads)
    ensures forall j :: 0 <= j < |GroupInto(heads, segs)| ==> Holds(heads, segs, GroupInto(heads, segs), j)
    decreases |segs|
  {
    var r := GroupInto(heads, segs);
    if segs == [] {
      forall j | 0 <= j < |r|
        ensures Holds(heads, segs, r, j)
      {
        assert OnChr(segs, Chrs(r)[j]) == [];
      }
    } else {
      var s0, rest := segs[0], segs[1..];
      var h1 := AddSpec(heads, s0);
      AddSpecGrouped(heads, s0);
      AddSpecChrs(heads, s0);
      GroupIntoChrs(h1, rest);
      GroupIntoContents(h1, rest);
      ChrsAfterSpec(Chrs(h1), rest);
      assert r == GroupInto(h1, rest);
      assert s0.chr in Chrs(h1);
      assert [s0] + rest == segs;
      forall j | 0 <= j < |r|
        ensures Holds(heads, segs, r, j)
      {
        if j < |h1| {
          AddSpecContents(heads, s0, j);
        }
        GroupIntoStep(heads, s0, rest, h1, r, j);
      }
    }
  }

  /** One list across the first step of GroupIntoContents' induction. */
  lemma GroupIntoStep(heads: seq<seq<Seg>>, s0: Seg, rest: seq<Seg>, h1: seq<seq<Seg>>, r: seq<seq<Seg>>, j: nat)
    requires j < |r| && |heads| <= |h1| <= |r|
    requires s0.chr in Chrs(h1)
    requires Chrs(r) == ChrsAfter(Chrs(h1), rest)
    requires j < |h1| ==> AddHolds(heads, s0, h1, j)
    requires Holds(h1, rest, r, j)
    ensures Holds(heads, [s0] + rest, r, j)
  {
    var c := Chrs(r)[j];
    assert ([s0] + rest)[1..] == rest;
    assert OnChr([s0] + rest, c) == (if s0.chr == c then [s0] else []) + OnChr(rest, c);
    ChrsAfterSpec(Chrs(h1), rest);
    if j < |h1| {
      assert Chrs(r)[..|h1|][j] == c;
    } else {
      assert c !in Chrs(h1);
    }
  }

  /** No two segments share a begin. */
  predicate DistinctBegs(segs: seq<Seg>)
  {
    forall a, b :: 0 <= a < b < |segs| ==> segs[a].beg != segs[b].beg
  }

  /** No segment shares a begin with an element of the lists. */
  predicate Apart(heads: seq<seq<Seg>>, segs: seq<Seg>)
  {
    forall j, x, k :: 0 <= j < |heads| && x in heads[j] && 0 <= k < |segs| ==> x.beg != segs[k].beg
  }

  /** Placing one segment that shares no begin with the lists keeps every list
      ascending. */
  lemma AddSpecAscending(heads: seq<seq<Seg>>, s: Seg)
    requires Grouped(heads) && forall j :: 0 <= j < |heads| ==> Ascending(heads[j])
    requires Apart(heads, [s])
    ensures forall j :: 0 <= j < |AddSpec(heads, s)| ==> Ascending(AddSpec(heads, s)[j])
  {
    match Find(heads, OnChrom(s.chr))
    case None =>
    case Some(i) =>
      forall k | 0 <= k < |heads[i]|
        ensures heads[i][k].beg != s.beg
      {
        assert heads[i][k] in heads[i] && [s][0] == s;
      }
      InsertedAscending(heads[i], s);
  }

  /** When the segments share no begin among themselves or with the lists, every
      list stays ascending by begin. */
  lemma {:induction false} GroupIntoAscending(heads: seq<seq<Seg>>, segs: seq<Seg>)
    requires Grouped(heads) && forall j :: 0 <= j < |heads| ==> Ascending(heads[j])
    requires DistinctBegs(segs) && Apart(heads, segs)
    ensures forall j :: 0 <= j < |GroupInto(heads, segs)| ==> Ascending(GroupInto(heads, segs)[j])
    decreases |segs|
  {
    if segs != [] {
      var s0, rest := segs[0], segs[1..];
      var h1 := AddSpec(heads, s0);
      assert Apart(heads, [s0]) by {
        forall j, x: Seg | 0 <= j < |heads| && x in heads[j]
          ensures x.beg != [s0][0].beg
        {
          assert segs[0] == s0;
        }
      }
      AddSpecAscending(heads, s0);
      AddSpecGrouped(heads, s0);
      assert Apart(h1, rest) by {
        forall j, x: Seg, k | 0 <= j < |h1| && x in h1[j] && 0 <= k < |rest|
          ensures x.beg != rest[k].beg
        {
          AddSpecContents(heads, s0, j);
          assert x in multiset(h1[j]);
          assert rest[k] == segs[k + 1];
          if x != s0 {
            assert j < |heads| && x in multiset(heads[j]);
          }
        }
      }
      GroupIntoAscending(h1, rest);
    }
  }

  /** From no lists: the chromosomes in order of first appearance, each list holding
      exactly the segments of its chromosome, ascending by begin when no two segments
      share a begin. */
  lemma Grouping(segs: seq<Seg>)
    ensures var r := GroupInto([], segs);
            Grouped(r) && Chrs(r) == ChrsAfter([], segs) &&
            (forall j :: 0 <= j < |r| ==> multiset(r[j]) == multiset(OnChr(segs, Chrs(r)[j]))) &&
            (DistinctBegs(segs) ==> forall j :: 0 <= j < |r| ==> Ascending(r[j]))
  {
    var r := GroupInto([], segs);
    GroupIntoGrouped([], segs);
    GroupIntoChrs([], segs);
    GroupIntoContents([], segs);
    forall j | 0 <= j < |r|
      ensures multiset(r[j]) == multiset(OnChr(segs, Chrs(r)[j]))
    {
      assert Holds([], segs, r, j);
    }
    if DistinctBegs(segs) {
      GroupIntoAscending([], segs);
    }
  }

  // ---------------------------------------------------------------------------
  // Printing a list

  /** The signed number a segment is printed as in an order: its block id, negated
      unless its orientation is '+'. */
  function Signed(s: Seg): int
  {
    if s.orient == '+' then s.id else -s.id
  }

  /** A chromosome list as its line of signed block ids. */
  function Order(l: seq<Seg>): (o: seq<int>)
    ensures |o| == |l| && forall k :: 0 <= k < |l| ==> o[k] == Signed(l[k])
  {
    seq(|l|, k requires 0 <= k < |l| => Signed(l[k]))
  }

  // ---------------------------------------------------------------------------
  // The block loop of the three programs

  /** Which segments of a species list a program places: every one
      (createGenomeFile, outgroupSegsToOrders) or only the head
      (orthoBlocksToOrders). */
  datatype Pick = EverySeg | HeadSeg

  function Picked(l: seq<Seg>, pick: Pick): (r: seq<Seg>)
    ensures pick == EverySeg ==> r == l
    ensures pick == HeadSeg ==> r == if l == [] then [] else [l[0]]
  {
    if pick == HeadSeg && l != [] then [l[0]] else l
  }

  /** The segments of species i the program places, block after block. */
  function PickedSegs(blocks: seq<Block>, i: nat, pick: Pick): seq<Seg>
    requires forall b :: 0 <= b < |blocks| ==> i < |blocks[b].speseg|
  {
    if blocks == [] then []
    else PickedSegs(blocks[..|blocks| - 1], i, pick) + Picked(blocks[|blocks| - 1].speseg[i], pick)
  }

  /** Placing a + b is placing a, then b. */
  lemma {:induction false} GroupIntoAppend(heads: seq<seq<Seg>>, a: seq<Seg>, b: seq<Seg>)
    ensures GroupInto(heads, a + b) == GroupInto(GroupInto(heads, a), b)
    decreases |a|
  {
    if a == [] {
      assert a + b == b;
    } else {
      var h1 := AddSpec(heads, a[0]);
      assert (a + b)[0] == a[0] && (a + b)[1..] == a[1..] + b;
      assert GroupInto(heads, a + b) == GroupInto(h1, a[1..] + b);
      assert GroupInto(heads, a) == GroupInto(h1, a[1..]);
      GroupIntoAppend(h1, a[1..], b);
    }
  }

  /** The segment loop of one species list. */
  method PlaceList(heads: seq<seq<Seg>>, l: seq<Seg>) returns (r: seq<seq<Seg>>)
    requires NonEmpty(heads)
    ensures r == GroupInto(heads, l) && NonEmpty(r)
  {
    r := heads;
    var k := 0;
    while k < |l|
      invariant 0 <= k <= |l| && NonEmpty(r)
      invariant GroupInto(r, l[k..]) == GroupInto(heads, l)
    {
      assert l[k..][1..] == l[k + 1..];
      AddSpecChrs(r, l[k]);
      r := AddSeg(r, l[k]);
      k := k + 1;
    }
    assert l[k..] == [];
  }

  /** A species' lists after a block: its picked segments placed when it is chosen,
      unchanged otherwise. */
  predicate PlacedIf(h: seq<seq<Seg>>, l: seq<Seg>, chosen: bool, pick: Pick, r: seq<seq<Seg>>)
  {
    r == (if chosen then GroupInto(h, Picked(l, pick)) else h) && NonEmpty(r)
  }

  /** The species loop for one block: the chosen species place their picked
      segments. */
  method PlaceBlock(heads: seq<seq<seq<Seg>>>, blk: Block, chosen: seq<bool>, pick: Pick)
    returns (r: seq<seq<seq<Seg>>>)
    requires |heads| == |chosen| == |blk.speseg|
    requires forall i :: 0 <= i < |heads| ==> NonEmpty(heads[i])
    ensures |r| == |heads|
    ensures forall i :: 0 <= i < |r| ==> PlacedIf(heads[i], blk.speseg[i], chosen[i], pick, r[i])
  {
    r := heads;
    for i := 0 to |heads|
      invariant |r| == |heads|
      invariant forall i' :: 0 <= i' < i ==> PlacedIf(heads[i'], blk.speseg[i'], chosen[i'], pick, r[i'])
      invariant forall i' :: i <= i' < |r| ==> r[i'] == heads[i']
    {
      if !chosen[i] {
        continue;
      }
      var l := PlaceList(r[i], Picked(blk.speseg[i], pick));
      r := r[i := l];
    }
  }

  /** Species i's lists after the first b blocks. */
  predicate GroupedSpecies(blocks: seq<Block>, i: nat, chosen: bool, pick: Pick, b: nat, h: seq<seq<Seg>>)
    requires b <= |blocks| && forall c :: 0 <= c < |blocks| ==> i < |blocks[c].speseg|
  {
    h == if chosen then GroupInto([], PickedSegs(blocks[..b], i, pick)) else []
  }

  /** The lists of the species after the first b blocks. */
  predicate GroupedUpTo(blocks: seq<Block>, chosen: seq<bool>, pick: Pick, b: nat, heads: seq<seq<seq<Seg>>>)
    requires Shaped(blocks, |chosen|) && b <= |blocks|
  {
    |heads| == |chosen| &&
    forall i :: 0 <= i < |heads| ==> GroupedSpecies(blocks, i, chosen[i], pick, b, heads[i])
  }

  /** Every list of every species is open. */
  lemma GroupedNonEmpty(blocks: seq<Block>, chosen: seq<bool>, pick: Pick, b: nat, heads: seq<seq<seq<Seg>>>)
    requires Shaped(blocks, |chosen|) && b <= |blocks| && GroupedUpTo(blocks, chosen, pick, b, heads)
    ensures forall i :: 0 <= i < |heads| ==> NonEmpty(heads[i])
  {
    forall i | 0 <= i < |heads|
      ensures NonEmpty(heads[i])
    {
      assert GroupedSpecies(blocks, i, chosen[i], pick, b, heads[i]);
      if chosen[i] {
        GroupIntoChrs([], PickedSegs(blocks[..b], i, pick));
      }
    }
  }

  /** One species' lists across block b. */
  lemma GroupedOne(blocks: seq<Block>, i: nat, chosen: bool, pick: Pick, b: nat, prev: seq<seq<Seg>>, h: seq<seq<Seg>>)
    requires b < |blocks| && forall c :: 0 <= c < |blocks| ==> i < |blocks[c].speseg|
    requires GroupedSpecies(blocks, i, chosen, pick, b, prev)
    requires PlacedIf(prev, blocks[b].speseg[i], chosen, pick, h)
    ensures GroupedSpecies(blocks, i, chosen, pick, b + 1, h)
  {
    if chosen {
      assert blocks[..b + 1][..b] == blocks[..b];
      GroupIntoAppend([], PickedSegs(blocks[..b], i, pick), Picked(blocks[b].speseg[i], pick));
    }
  }

  /** Placing block b's picked segments moves the lists from b blocks to b + 1. */
  lemma GroupedNext(blocks: seq<Block>, chosen: seq<bool>, pick: Pick, b: nat, prev: seq<seq<seq<Seg>>>, heads: seq<seq<seq<Seg>>>)
    requires Shaped(blocks, |chosen|) && b < |blocks| && GroupedUpTo(blocks, chosen, pick, b, prev)
    requires |heads| == |prev|
    requires forall i :: 0 <= i < |heads| ==> PlacedIf(prev[i], blocks[b].speseg[i], chosen[i], pick, heads[i])
    ensures GroupedUpTo(blocks, chosen, pick, b + 1, heads)
  {
    forall i | 0 <= i < |heads|
      ensures GroupedSpecies(blocks, i, chosen[i], pick, b + 1, heads[i])
    {
      GroupedOne(blocks, i, chosen[i], pick, b, prev[i], heads[i]);
    }
  }

  /** The block loop of main: for every chosen species, its picked segments grouped
      by chromosome in order of first appearance and linked in by the insertion
      loop; the other species get no list. */
  method GroupSpecies(blocks: seq<Block>, chosen: seq<bool>, pick: Pick) returns (heads: seq<seq<seq<Seg>>>)
    requires Shaped(blocks, |chosen|)
    ensures |heads| == |chosen|
    ensures forall i :: 0 <= i < |heads| ==>
              heads[i] == if chosen[i] then GroupInto([], PickedSegs(blocks, i, pick)) else []
  {
    heads := seq(|chosen|, _ => []);
    for b := 0 to |blocks|
      invariant GroupedUpTo(blocks, chosen, pick, b, heads)
    {
      GroupedNonEmpty(blocks, chosen, pick, b, heads);
      var prev := heads;
      heads := PlaceBlock(heads, blocks[b], chosen, pick);
      GroupedNext(blocks, chosen, pick, b, prev, heads);
    }
    assert blocks[..|blocks|] == blocks;
  }
}
