/** Conserved segments (code/makeBlocks/makeConservedSegments.c).

    merge_blocks merges a run of consecutive orthology blocks start..terminal into the
    first: every reference/descendant segment becomes the span of the run's segments,
    a descendant segment lists the run's chain ids, and outgroup segment lists are
    joined in block order.  The main program reads the blocks and each species' block
    order, computes for every block whether all reference/descendant orders continue
    it with the next block, and then only reassigns states and block numbers:
    merge_blocks is never called and the computed status is never used. */
module Conserved {
  import opened Wrappers
  import opened Species
  import opened Lists

  // ---------------------------------------------------------------------------
  // merge_blocks (lines 4-78)

  /** The index after the run of blocks from p: the first block from there with an id
      above terminal, or the end of the list. */
  function BlockRunEnd(blocks: seq<Block>, p: nat, terminal: int): (e: nat)
    requires p <= |blocks|
    ensures p <= e <= |blocks|
    ensures forall k :: p <= k < e ==> blocks[k].id <= terminal
    ensures e < |blocks| ==> blocks[e].id > terminal
  {
    match Find(blocks[p..], (b: Block) => b.id > terminal)
    case None => |blocks|
    case Some(k) => p + k
  }

  /** Every reference/descendant species of blocks p..e-1 has exactly one segment. */
  predicate Single(blocks: seq<Block>, tags: seq<int>, p: nat, e: nat)
    requires p <= e <= |blocks| && Shaped(blocks, |tags|)
  {
    forall q, i :: p <= q < e && 0 <= i < |tags| && tags[i] != OUT ==> |blocks[q].speseg[i]| == 1
  }

  /** The first segments of species i in blocks p..q-1. */
  function Heads(blocks: seq<Block>, p: nat, q: nat, i: nat): (h: seq<Seg>)
    requires p <= q <= |blocks|
    requires forall k :: p <= k < q ==> i < |blocks[k].speseg| && blocks[k].speseg[i] != []
    ensures |h| == q - p && forall k :: 0 <= k < q - p ==> h[k] == blocks[p + k].speseg[i][0]
  {
    seq(q - p, k requires 0 <= k < q - p => blocks[p + k].speseg[i][0])
  }

  /** The lists of species i of blocks p..q-1, joined in block order. */
  function Joined(blocks: seq<Block>, p: nat, q: nat, i: nat): seq<Seg>
    requires p <= q <= |blocks|
    requires forall k :: p <= k < q ==> i < |blocks[k].speseg|
    decreases q - p
  {
    if q == p then [] else Joined(blocks, p, q - 1, i) + blocks[q - 1].speseg[i]
  }

  /** Block p once merge_blocks has set the chain ids of the run p..e-1 and absorbed
      blocks up to q-1: outgroup lists joined, every other segment spanning the run so
      far, a descendant segment listing the whole run's chain ids. */
  function Absorbed(blocks: seq<Block>, tags: seq<int>, p: nat, q: nat, e: nat): (b: Block)
    requires p < q <= e <= |blocks| && Shaped(blocks, |tags|) && Single(blocks, tags, p, e)
    ensures b.id == blocks[p].id && b.isdup == blocks[p].isdup && |b.speseg| == |tags|
  {
    blocks[p].(speseg := seq(|tags|, i requires 0 <= i < |tags| =>
      if tags[i] == OUT then Joined(blocks, p, q, i)
      else
        var h := Heads(blocks, p, q, i);
        [h[0].(beg := MinBeg(h), end := MaxEnd(h),
               cidlist := if tags[i] == DES then Chids(Heads(blocks, p, e, i)) else h[0].cidlist)]))
  }

  /** A single block: each descendant's first segment lists only its own chain id. */
  function OwnChains(b: Block, tags: seq<int>): (c: Block)
    requires |b.speseg| == |tags|
    ensures c.id == b.id && c.isdup == b.isdup && |c.speseg| == |tags|
  {
    b.(speseg := seq(|tags|, i requires 0 <= i < |tags| =>
      if tags[i] == DES && b.speseg[i] != [] then b.speseg[i][0 := b.speseg[i][0].(cidlist := [b.speseg[i][0].chid])]
      else b.speseg[i]))
  }

  /** merge_blocks as a value.  It aborts when terminal < start, and when a block of the
      run has a reference/descendant list that is empty (dereferenced) or longer than
      one.  Without a block numbered start it dereferences NULL, except for a single
      block when no species is a descendant, where it reads nothing. */
  function MergeBlocksSpec(blocks: seq<Block>, tags: seq<int>, start: int, terminal: int)
    : (r: Result<seq<Block>>)
    requires Shaped(blocks, |tags|)
    ensures r.Ok? ==> Shaped(r.value, |tags|) && |r.value| <= |blocks|
  {
    if terminal < start then Fatal("DIE: start >terminal")
    else match Find(blocks, (b: Block) => b.id == start)
      case None =>
        if start == terminal && DES !in tags then Ok(blocks)
        else Fatal("NULL dereference of a missing block")
      case Some(p) =>
        if start == terminal then Ok(blocks[p := OwnChains(blocks[p], tags)])
        else
          var e := BlockRunEnd(blocks, p, terminal);
          if !Single(blocks, tags, p, e) then Fatal("DIE: illegal block")
          else Ok(blocks[..p] + [Absorbed(blocks, tags, p, e, e)] + blocks[e..])
  }

  /** The joined outgroup list holds exactly the segments of the run's lists. */
  lemma {:induction false} JoinedSpec(blocks: seq<Block>, p: nat, q: nat, i: nat)
    requires p <= q <= |blocks|
    requires forall k :: p <= k < q ==> i < |blocks[k].speseg|
    ensures forall x :: x in Joined(blocks, p, q, i) <==> exists k :: p <= k < q && x in blocks[k].speseg[i]
    decreases q - p
  {
    if q > p {
      JoinedSpec(blocks, p, q - 1, i);
      forall x | x in Joined(blocks, p, q, i)
        ensures exists k :: p <= k < q && x in blocks[k].speseg[i]
      {
        if x !in Joined(blocks, p, q - 1, i) {
          assert x in blocks[q - 1].speseg[i];
        }
      }
    }
  }

  /** What merging the run p..e-1 makes of block p: each reference/descendant segment
      spans the run's segments of its species, a descendant's lists the run's chain ids
      in block order, and each outgroup list holds exactly the run's segments. */
  lemma AbsorbedSpec(blocks: seq<Block>, tags: seq<int>, p: nat, e: nat)
    requires p < e <= |blocks| && Shaped(blocks, |tags|) && Single(blocks, tags, p, e)
    ensures var m := Absorbed(blocks, tags, p, e, e);
            forall i :: 0 <= i < |tags| && tags[i] != OUT ==>
              |m.speseg[i]| == 1 &&
              forall k :: p <= k < e ==>
                m.speseg[i][0].beg <= blocks[k].speseg[i][0].beg && blocks[k].speseg[i][0].end <= m.speseg[i][0].end
    ensures var m := Absorbed(blocks, tags, p, e, e);
            forall i :: 0 <= i < |tags| && tags[i] == DES ==>
              |m.speseg[i][0].cidlist| == e - p &&
              forall k :: p <= k < e ==> m.speseg[i][0].cidlist[k - p] == blocks[k].speseg[i][0].chid
    ensures var m := Absorbed(blocks, tags, p, e, e);
            forall i, x :: 0 <= i < |tags| && tags[i] == OUT ==>
              (x in m.speseg[i] <==> exists k :: p <= k < e && x in blocks[k].speseg[i])
  {
    var m := Absorbed(blocks, tags, p, e, e);
    forall i | 0 <= i < |tags| && tags[i] != OUT
      ensures forall k :: p <= k < e ==>
                m.speseg[i][0].beg <= blocks[k].speseg[i][0].beg && blocks[k].speseg[i][0].end <= m.speseg[i][0].end
    {
      var h := Heads(blocks, p, e, i);
      forall k | p <= k < e
        ensures m.speseg[i][0].beg <= blocks[k].speseg[i][0].beg && blocks[k].speseg[i][0].end <= m.speseg[i][0].end
      {
        assert h[k - p] == blocks[k].speseg[i][0];
      }
    }
    forall i | 0 <= i < |tags| && tags[i] == OUT
      ensures forall x :: x in m.speseg[i] <==> exists k :: p <= k < e && x in blocks[k].speseg[i]
    {
      JoinedSpec(blocks, p, e, i);
    }
  }

  /** The check loop of merge_blocks over the run p..e-1. */
  method CheckRun(blocks: seq<Block>, tags: seq<int>, p: nat, e: nat) returns (ok: bool)
    requires p <= e <= |blocks| && Shaped(blocks, |tags|)
    ensures ok == Single(blocks, tags, p, e)
  {
    for q := p to e
      invariant Single(blocks, tags, p, q)
    {
      for i := 0 to |tags|
        invariant forall i' :: 0 <= i' < i && tags[i'] != OUT ==> |blocks[q].speseg[i']| == 1
      {
        if tags[i] != OUT && |blocks[q].speseg[i]| != 1 {
          return false;
        }
      }
    }
    return true;
  }

  /** The chain-id loop of merge_blocks for descendant i. */
  method RunCids(blocks: seq<Block>, tags: seq<int>, p: nat, e: nat, i: nat) returns (cids: seq<int>)
    requires p < e <= |blocks| && Shaped(blocks, |tags|) && Single(blocks, tags, p, e)
    requires i < |tags| && tags[i] != OUT
    ensures cids == Chids(Heads(blocks, p, e, i))
  {
    cids := [];
    for q := p to e
      invariant |cids| == q - p && forall k :: 0 <= k < q - p ==> cids[k] == blocks[p + k].speseg[i][0].chid
    {
      cids := cids + [blocks[q].speseg[i][0].chid];
    }
  }

  lemma HeadsStep(blocks: seq<Block>, tags: seq<int>, p: nat, q: nat, e: nat, i: nat)
    requires p < q < e <= |blocks| && Shaped(blocks, |tags|) && Single(blocks, tags, p, e)
    requires i < |tags| && tags[i] != OUT
    ensures MinBeg(Heads(blocks, p, q + 1, i)) == Min(MinBeg(Heads(blocks, p, q, i)), blocks[q].speseg[i][0].beg)
    ensures MaxEnd(Heads(blocks, p, q + 1, i)) == Max(MaxEnd(Heads(blocks, p, q, i)), blocks[q].speseg[i][0].end)
  {
    var h := Heads(blocks, p, q + 1, i);
    assert h[..q - p] == Heads(blocks, p, q, i);
  }

  /** One pass of the unlinking loop of merge_blocks: block q is absorbed into p. */
  method AbsorbStep(cur: Block, blocks: seq<Block>, tags: seq<int>, p: nat, q: nat, e: nat)
    returns (next: Block)
    requires p < q < e <= |blocks| && Shaped(blocks, |tags|) && Single(blocks, tags, p, e)
    requires cur == Absorbed(blocks, tags, p, q, e)
    ensures next == Absorbed(blocks, tags, p, q + 1, e)
  {
    var target := Absorbed(blocks, tags, p, q + 1, e);
    next := cur;
    for i := 0 to |tags|
      invariant next.id == cur.id && next.isdup == cur.isdup && |next.speseg| == |tags|
      invariant forall i' :: 0 <= i' < i ==> next.speseg[i'] == target.speseg[i']
      invariant forall i' :: i <= i' < |tags| ==> next.speseg[i'] == cur.speseg[i']
    {
      var l := next.speseg[i];
      if tags[i] == OUT {
        l := l + blocks[q].speseg[i];
      } else {
        HeadsStep(blocks, tags, p, q, e, i);
        var sg := blocks[q].speseg[i][0];
        l := [l[0].(beg := Min(l[0].beg, sg.beg), end := Max(l[0].end, sg.end))];
      }
      next := next.(speseg := next.speseg[i := l]);
    }
  }

  /** The chain-id loops of merge_blocks: block p with every descendant's segment
      listing the run's chain ids. */
  method SetRunCids(blocks: seq<Block>, tags: seq<int>, p: nat, e: nat) returns (b: Block)
    requires p < e <= |blocks| && Shaped(blocks, |tags|) && Single(blocks, tags, p, e)
    ensures b == Absorbed(blocks, tags, p, p + 1, e)
  {
    var target := Absorbed(blocks, tags, p, p + 1, e);
    b := blocks[p];
    for i := 0 to |tags|
      invariant b.id == blocks[p].id && b.isdup == blocks[p].isdup && |b.speseg| == |tags|
      invariant forall i' :: 0 <= i' < i ==> b.speseg[i'] == target.speseg[i']
      invariant forall i' :: i <= i' < |tags| ==> b.speseg[i'] == blocks[p].speseg[i']
    {
      if tags[i] == OUT {
        assert Joined(blocks, p, p + 1, i) == blocks[p].speseg[i];
      } else {
        var h := Heads(blocks, p, p + 1, i);
        assert h == [blocks[p].speseg[i][0]];
        assert blocks[p].speseg[i] == [h[0]];
      }
      if tags[i] == DES {
        var cids := RunCids(blocks, tags, p, e, i);
        var sg := b.speseg[i][0];
        b := b.(speseg := b.speseg[i := [sg.(cidlist := cids)]]);
      }
    }
  }

  /** merge_blocks. */
  method MergeBlocks(blocks: seq<Block>, tags: seq<int>, start: int, terminal: int)
    returns (r: Result<seq<Block>>)
    requires Shaped(blocks, |tags|)
    ensures r == MergeBlocksSpec(blocks, tags, start, terminal)
  {
    if terminal < start {
      return Fatal("DIE: start >terminal");
    }
    var p := FindBlock(blocks, start);
    if start == terminal {
      if p.None? {
        if DES in tags {
          return Fatal("NULL dereference of a missing block");
        }
        return Ok(blocks);
      }
      var b := SingleCids(blocks[p.value], tags);
      return Ok(blocks[p.value := b]);
    }
    if p.None? {
      return Fatal("NULL dereference of a missing block");
    }
    var e := RunEndLoop(blocks, p.value, terminal);
    var ok := CheckRun(blocks, tags, p.value, e);
    if !ok {
      return Fatal("DIE: illegal block");
    }
    var cur := MergeRun(blocks, tags, p.value, e);
    r := Ok(blocks[..p.value] + [cur] + blocks[e..]);
  }

  /** Where the walks of merge_blocks over the run stop. */
  method RunEndLoop(blocks: seq<Block>, p: nat, terminal: int) returns (e: nat)
    requires p <= |blocks|
    ensures e == BlockRunEnd(blocks, p, terminal)
  {
    e := p;
    while e < |blocks| && blocks[e].id <= terminal
      invariant p <= e <= BlockRunEnd(blocks, p, terminal)
    {
      e := e + 1;
    }
  }

  /** The chain-id loops and the unlinking loop of merge_blocks over the run p..e-1. */
  method MergeRun(blocks: seq<Block>, tags: seq<int>, p: nat, e: nat) returns (b: Block)
    requires p < e <= |blocks| && Shaped(blocks, |tags|) && Single(blocks, tags, p, e)
    ensures b == Absorbed(blocks, tags, p, e, e)
  {
    b := SetRunCids(blocks, tags, p, e);
    for q := p + 1 to e
      invariant b == Absorbed(blocks, tags, p, q, e)
    {
      b := AbsorbStep(b, blocks, tags, p, q, e);
    }
  }

  /** The single-block branch of merge_blocks. */
  method SingleCids(b: Block, tags: seq<int>) returns (c: Block)
    requires |b.speseg| == |tags|
    ensures c == OwnChains(b, tags)
  {
    var target := OwnChains(b, tags);
    c := b;
    for i := 0 to |tags|
      invariant c.id == b.id && c.isdup == b.isdup && |c.speseg| == |tags|
      invariant forall i' :: 0 <= i' < i ==> c.speseg[i'] == target.speseg[i']
      invariant forall i' :: i <= i' < |tags| ==> c.speseg[i'] == b.speseg[i']
    {
      if tags[i] == DES && c.speseg[i] != [] {
        var sg := c.speseg[i][0];
        c := c.(speseg := c.speseg[i := c.speseg[i][0 := sg.(cidlist := [sg.chid])]]);
      }
    }
  }

  // ---------------------------------------------------------------------------
  // main (lines 80-187)

  /** One species' block order as main stores it (perm[i]): entry 0 and one entry
      after each line are 0, each line's signed block numbers in order; entries past
      the array are the zeros it was filled with. */
  function PermArray(lines: seq<seq<int>>): (arr: seq<int>)
    ensures |arr| >= 1 && arr[0] == 0
  {
    Separated(lines, 0)
  }

  function At(arr: seq<int>, k: int): int
  {
    if 0 <= k < |arr| then arr[k] else 0
  }

  /** The order continues block t with block t + 1: at the first entry of t or -t,
      a positive entry is followed by t + 1, a negative one preceded by -(t + 1).  When
      t is missing the source reads one entry past its array; here that reads 0. */
  predicate JoinsNext(arr: seq<int>, t: int)
  {
    match Find(arr, IsBlock(t))
    case None => false
    case Some(k) => (arr[k] > 0 && At(arr, k + 1) == t + 1) || (arr[k] < 0 && At(arr, k - 1) == -t - 1)
  }

  function IsBlock(t: int): (p: int -> bool)
    ensures forall x: int :: p(x) == (Abs(x) == t)
  {
    (x: int) => Abs(x) == t
  }

  /** Every reference or descendant order continues block t with block t + 1. */
  predicate AllJoin(arrs: seq<seq<int>>, tags: seq<int>, t: int)
    requires |arrs| == |tags|
  {
    forall i :: 0 <= i < |tags| && tags[i] != OUT ==> JoinsNext(arrs[i], t)
  }

  /** An order holding block t forward and then t + 1 continues t; so does one holding
      -(t + 1) then -t (the pair read reversed); the first occurrence of t decides. */
  lemma JoinsNextAdjacent(a: seq<int>, b: seq<int>, t: int)
    requires t >= 1 && forall k :: 0 <= k < |a| ==> Abs(a[k]) != t
    ensures JoinsNext(a + [t, t + 1] + b, t)
    ensures JoinsNext(a + [-t - 1, -t] + b, t)
  {
    var fw := a + [t, t + 1] + b;
    assert Find(fw, IsBlock(t)) == Some(|a|) by {
      assert fw[|a|] == t;
    }
    var bw := a + [-t - 1, -t] + b;
    assert Find(bw, IsBlock(t)) == Some(|a| + 1) by {
      assert bw[|a|] == -t - 1 && bw[|a| + 1] == -t;
    }
  }

  /** One species' status for block t: the search for t in its order, then the
      test of its neighbour. */
  method SpeciesStatus(arr: seq<int>, t: int) returns (st: int)
    ensures st == if JoinsNext(arr, t) then 1 else 0
  {
    var k := 0;
    while k < |arr| && Abs(arr[k]) != t
      invariant 0 <= k <= |arr|
      invariant forall m :: 0 <= m < k ==> Abs(arr[m]) != t
    {
      k := k + 1;
    }
    assert Find(arr, IsBlock(t)) == if k < |arr| then Some(k) else None;
    st := 0;
    if (At(arr, k) > 0 && At(arr, k + 1) == t + 1) || (At(arr, k) < 0 && At(arr, k - 1) == -t - 1) {
      st := 1;
    }
  }

  /** The status computation of main for block t: status[i] for every reference or
      descendant species, then status[rs] and-ed with the others. */
  method StatusAt(arrs: seq<seq<int>>, tags: seq<int>, rs: nat, t: int) returns (status: seq<int>)
    requires |arrs| == |tags| && rs < |tags| && tags[rs] == REF
    ensures |status| == |tags|
    ensures status[rs] == 1 <==> AllJoin(arrs, tags, t)
  {
    status := seq(|tags|, _ => 0);
    for i := 0 to |tags|
      invariant |status| == |tags|
      invariant forall i' :: 0 <= i' < i ==> status[i'] == (if tags[i'] != OUT && JoinsNext(arrs[i'], t) then 1 else 0)
      invariant forall i' :: i <= i' < |tags| ==> status[i'] == 0
    {
      if tags[i] == OUT {
        continue;
      }
      var st := SpeciesStatus(arrs[i], t);
      status := status[i := st];
    }
    var own := status[rs];
    for i := 0 to |tags|
      invariant |status| == |tags|
      invariant status[rs] == 1 <==> own == 1 && forall i' :: 0 <= i' < i && i' != rs && tags[i'] != OUT ==> status[i'] == 1
      invariant forall i' :: 0 <= i' < |tags| && i' != rs ==> status[i'] == (if tags[i'] != OUT && JoinsNext(arrs[i'], t) then 1 else 0)
    {
      if i == rs || tags[i] == OUT {
        continue;
      }
      status := status[rs := if status[rs] == 1 && status[i] == 1 then 1 else 0];
    }
  }

  /** The status loop of main over blocks 1..total; whether all reference/descendant
      orders continue each block with the next.  main discards it. */
  method StatusLoop(arrs: seq<seq<int>>, tags: seq<int>, rs: nat, total: int) returns (joins: seq<bool>)
    requires |arrs| == |tags| && rs < |tags| && tags[rs] == REF
    ensures |joins| == if total < 0 then 0 else total
    ensures forall k :: 0 <= k < |joins| ==> (joins[k] <==> AllJoin(arrs, tags, k + 1))
  {
    joins := [];
    var terminal := 1;
    while terminal <= total
      invariant 1 <= terminal <= (if total < 0 then 0 else total) + 1 && |joins| == terminal - 1
      invariant forall k :: 0 <= k < |joins| ==> (joins[k] <==> AllJoin(arrs, tags, k + 1))
    {
      var status := StatusAt(arrs, tags, rs, terminal);
      joins := joins + [status[rs] == 1];
      terminal := terminal + 1;
    }
  }

  /** The main program: read the species and the orthology blocks, read each species'
      block order, compute the status of every block, then reassign states and numbers.
      The order file is taken as each species' scanned lines of signed block numbers,
      one section per species. */
  method MakeConservedSegments(cfg: Config, lines: seq<BlockLine>, orders: seq<seq<seq<int>>>)
    returns (r: Result<seq<Block>>)
    requires cfg.WellFormed() && |orders| == |cfg.tags|
    ensures r.Ok? ==> REF in cfg.tags && LinesOk(lines, cfg.names)
    ensures r.Ok? ==> |r.value| == |HeadersOf(lines)| && SegCount(r.value) == SegLines(lines)
    ensures r.Ok? ==> forall b :: 0 <= b < |r.value| ==>
              r.value[b].id == b + 1 && |r.value[b].speseg| == |cfg.names| &&
              forall i :: 0 <= i < |cfg.names| ==> WellStated(r.value[b].speseg[i])
    ensures r.Ok? <==> REF in cfg.tags && ReadBlocks(lines, cfg.names).Some?
    ensures r.Ok? ==> r.value == Numbers(States(ReadBlocks(lines, cfg.names).value))
  {
    var ref := RefSpeIdx(cfg);
    if ref.Fatal? {
      return Fatal(ref.msg);
    }
    var list := GetBlockList(lines, cfg.names);
    if list.Fatal? {
      return Fatal(list.msg);
    }
    var blocks := list.value;
    var arrs := seq(|orders|, i requires 0 <= i < |orders| => PermArray(orders[i]));
    var _ := StatusLoop(arrs, cfg.tags, ref.value, |blocks|);
    var numbered := Relabel(blocks, |cfg.names|);
    r := Ok(numbered);
  }

  /** The closing assign_states and assign_orders of main. */
  method Relabel(blocks: seq<Block>, spesz: nat) returns (r: seq<Block>)
    requires Shaped(blocks, spesz)
    ensures r == Numbers(States(blocks))
    ensures |r| == |blocks| && SegCount(r) == SegCount(blocks)
    ensures forall b :: 0 <= b < |r| ==>
              r[b].id == b + 1 && |r[b].speseg| == spesz &&
              forall i :: 0 <= i < spesz ==> WellStated(r[b].speseg[i])
  {
    var stated := AssignStates(blocks);
    r := AssignOrders(stated);
    forall b, i | 0 <= b < |r| && 0 <= i < spesz
      ensures WellStated(r[b].speseg[i])
    {
      assert Numbered(stated[b], r[b], b + 1);
      RenumberKeepsStates(stated[b].speseg[i], r[b].speseg[i], b + 1);
    }
    SegCountNumbered(blocks, stated, r);
  }
}
