/** Partitioning the reference genome into building blocks
    (code/makeBlocks/partitionGenomes.c).

    The pairwise alignments of each species against the reference arrive as segments:
    a reference interval [fbeg, fend] on chromosome fchrom aligned to [sbeg, send] on
    schrom.  Descendant segments are merged into one list of blocks sorted along the
    reference, splitting blocks and segments where they overlap only in part; outgroup
    segments are then attached to the blocks they fall in.  Pointers into the block list
    are indices here. */
module Partition {
  import opened Wrappers
  import opened Base
  import Species

  /** my_seg_list */
  datatype MySeg = MySeg(fchrom: string, schrom: string, fbeg: int, fend: int,
                         sbeg: int, send: int, orient: char, cid: int)

  /** my_block_list: the reference interval of the block and, per species, its segments. */
  datatype MyBlock = MyBlock(refchrom: string, refbeg: int, refend: int, speseg: seq<seq<MySeg>>)

  /** The chains mapbase reads for species idx against species 0 on a reference
      chromosome (the chain file is named by Spename[0], whatever the reference is). */
  type ChainsOf = (nat, string) -> seq<Chain>

  /** C's `/ 2` on int, which truncates toward zero. */
  function Half(x: int): (h: int)
    ensures x >= 0 ==> 0 <= 2 * h <= x < 2 * h + 2
    ensures x < 0 ==> 2 * h - 2 < x <= 2 * h <= 0
  {
    if x >= 0 then x / 2 else -((-x) / 2)
  }

  // ---------------------------------------------------------------------------
  // Reading segments (get_my_seglist, lines 24-54)

  /** A line of a processed segment file: a `#` comment, or the segment its sscanf
      reads (None when the line does not have the eight fields). */
  datatype SegFileLine = Comment | SegRow(seg: Option<MySeg>)

  predicate RowOk(line: SegFileLine)
  {
    line.SegRow? ==> line.seg.Some? && line.seg.value.fbeg <= line.seg.value.fend &&
                     line.seg.value.sbeg <= line.seg.value.send
  }

  /** The segments of the segment rows, in file order. */
  function RowSegs(lines: seq<SegFileLine>): seq<MySeg>
  {
    if lines == [] then []
    else RowSegs(lines[..|lines| - 1]) +
         (match lines[|lines| - 1] case SegRow(Some(s)) => [s] case _ => [])
  }

  /** get_my_seglist: the segments in file order; an unparseable line or one with
      fbeg > fend or sbeg > send aborts. */
  method GetMySeglist(lines: seq<SegFileLine>) returns (r: Result<seq<MySeg>>)
    ensures r.Ok? <==> forall k :: 0 <= k < |lines| ==> RowOk(lines[k])
    ensures r.Ok? ==> forall s :: s in r.value <==> SegRow(Some(s)) in lines
    ensures r.Ok? ==> r.value == RowSegs(lines)
    ensures r.Ok? ==> forall k :: 0 <= k < |r.value| ==>
              r.value[k].fbeg <= r.value[k].fend && r.value[k].sbeg <= r.value[k].send
  {
    var segs: seq<MySeg> := [];
    var k := 0;
    while k < |lines|
      invariant 0 <= k <= |lines|
      invariant forall k' :: 0 <= k' < k ==> RowOk(lines[k'])
      invariant forall s :: s in segs <==> SegRow(Some(s)) in lines[..k]
      invariant segs == RowSegs(lines[..k])
      invariant forall m :: 0 <= m < |segs| ==> segs[m].fbeg <= segs[m].fend && segs[m].sbeg <= segs[m].send
    {
      assert lines[..k + 1] == lines[..k] + [lines[k]];
      match lines[k] {
        case Comment =>
        case SegRow(seg) =>
          if seg.None? {
            return Fatal("cannot parse");
          }
          var p := seg.value;
          if p.fbeg > p.fend || p.sbeg > p.send {
            return Fatal("cannot parse");
          }
          segs := segs + [p];
      }
      k := k + 1;
    }
    assert lines[..k] == lines;
    r := Ok(segs);
  }

  // ---------------------------------------------------------------------------
  // Blocks (lines 56-67, 143-189)

  /** my_allocate_newblock: no segments, refbeg MAXNUM, refend 0, empty chromosome. */
  function MyAllocateNewblock(spesz: nat): (b: MyBlock)
    ensures b.refbeg == Species.MAXNUM && b.refend == 0 && b.refchrom == []
    ensures |b.speseg| == spesz && forall i :: 0 <= i < spesz ==> b.speseg[i] == []
  {
    MyBlock([], Species.MAXNUM, 0, seq(spesz, _ => []))
  }

  /** fill_block: the block takes the segment's chromosome when it has none and aborts
      when they differ; its interval grows to cover the segment, and the segment list
      of species idx becomes a copy of the segment alone. */
  function FillBlock(b: MyBlock, idx: nat, sg: MySeg): (r: Result<MyBlock>)
    requires idx < |b.speseg|
    ensures r.Fatal? <==> b.refchrom != [] && b.refchrom != sg.fchrom
    ensures r.Ok? ==> r.value.refchrom == sg.fchrom && r.value.speseg == b.speseg[idx := [sg]]
    ensures r.Ok? ==> r.value.refbeg <= sg.fbeg && r.value.refbeg <= b.refbeg &&
                      (r.value.refbeg == sg.fbeg || r.value.refbeg == b.refbeg)
    ensures r.Ok? ==> r.value.refend >= sg.fend && r.value.refend >= b.refend &&
                      (r.value.refend == sg.fend || r.value.refend == b.refend)
  {
    if b.refchrom != [] && b.refchrom != sg.fchrom then Fatal("CHROM DISAGREE")
    else Ok(MyBlock(sg.fchrom, Species.Min(b.refbeg, sg.fbeg), Species.Max(b.refend, sg.fend), b.speseg[idx := [sg]]))
  }

  /** fill_block_out: a copy of the segment goes to the end of species idx's list; the
      block's chromosome and interval stay as they are. */
  function FillBlockOut(b: MyBlock, idx: nat, sg: MySeg): (r: MyBlock)
    requires idx < |b.speseg|
    ensures r.refchrom == b.refchrom && r.refbeg == b.refbeg && r.refend == b.refend
    ensures r.speseg == b.speseg[idx := b.speseg[idx] + [sg]]
  {
    b.(speseg := b.speseg[idx := b.speseg[idx] + [sg]])
  }

  // ---------------------------------------------------------------------------
  // Splitting (lines 191-258)

  /** break_segment_position: sg is cut at reference position pos into a left part,
      which keeps sg's start and ends at the lifted left position, and a right part,
      inserted right after it, which starts at the lifted right position and keeps
      sg's end.  The query ends are lifted through the chain of sg (by mapbase against
      species 0), on the side the orientation puts them. */
  method BreakSegmentPosition(sg: MySeg, pos: int, idx: nat, chainsOf: ChainsOf)
    returns (r: Result<(MySeg, MySeg)>)
    ensures r.Ok? ==> Halves(sg, pos, r.value.0, r.value.1)
  {
    var chains := chainsOf(idx, sg.fchrom);
    var left := Mapbase(chains, sg.cid, pos, sg.orient, "left");
    var right := Mapbase(chains, sg.cid, pos, sg.orient, "right");
    if left.Fatal? || right.Fatal? {
      return Fatal("mapbase failed");
    }
    var lnewpos, rnewpos := left.value.newrpos, right.value.newrpos;
    if sg.orient == '+' {
      r := Ok((sg.(send := left.value.spos, fend := lnewpos),
               sg.(sbeg := right.value.spos, fbeg := rnewpos)));
    } else {
      r := Ok((sg.(sbeg := left.value.spos, fend := lnewpos),
               sg.(send := right.value.spos, fbeg := rnewpos)));
    }
  }

  /** The two parts of a segment cut at pos: they share everything but the cut ends,
      the left part ends at or before pos and the right part starts at or after it. */
  predicate Halves(sg: MySeg, pos: int, l: MySeg, r: MySeg)
  {
    l.fchrom == r.fchrom == sg.fchrom && l.schrom == r.schrom == sg.schrom &&
    l.orient == r.orient == sg.orient && l.cid == r.cid == sg.cid &&
    l.fbeg == sg.fbeg && r.fend == sg.fend && l.fend <= pos <= r.fbeg &&
    (sg.orient == '+' ==> l.sbeg == sg.sbeg && r.send == sg.send) &&
    (sg.orient != '+' ==> l.send == sg.send && r.sbeg == sg.sbeg)
  }

  /** A descendant's segment list in a block: at most one segment, on the block's
      chromosome (a non-empty word, as sscanf's %s reads it) and inside its interval. */
  ghost predicate Within(chrom: string, beg: int, end: int, l: seq<MySeg>)
  {
    |l| <= 1 && forall s :: s in l ==> s.fchrom == chrom != [] && beg <= s.fbeg && s.fend <= end
  }

  /** A block while descendants are added: one list per species, the reference's list
      empty, every list within the block. */
  ghost predicate BlockOk(b: MyBlock, spesz: nat, rs: nat)
  {
    |b.speseg| == spesz && rs < spesz && b.speseg[rs] == [] &&
    forall i :: 0 <= i < spesz ==> Within(b.refchrom, b.refbeg, b.refend, b.speseg[i])
  }

  ghost predicate DescWf(blocks: seq<MyBlock>, spesz: nat, rs: nat)
  {
    forall b :: 0 <= b < |blocks| ==> BlockOk(blocks[b], spesz, rs)
  }

  /** fill_block on a well-formed block keeps it well formed: a block without a
      chromosome holds no segment, so taking sg's chromosome strands nothing. */
  lemma FillBlockOk(b: MyBlock, idx: nat, sg: MySeg, spesz: nat, rs: nat)
    requires BlockOk(b, spesz, rs) && idx < spesz && idx != rs && sg.fchrom != []
    requires FillBlock(b, idx, sg).Ok?
    ensures BlockOk(FillBlock(b, idx, sg).value, spesz, rs)
  {
    var c := FillBlock(b, idx, sg).value;
    forall i | 0 <= i < spesz
      ensures Within(c.refchrom, c.refbeg, c.refend, c.speseg[i])
    {
      if i != idx && b.speseg[i] != [] {
        assert b.speseg[i][0] in b.speseg[i];
      }
    }
  }

  /** The per-species step of break_block_position, for a block whose interval ended at
      end and now ends at pos: species i's segment moves to the new block when it starts
      at or after pos, stays when it ends at or before pos, and is cut at pos otherwise
      (left part stays, right part moves). */
  method SplitSpecies(blk: MyBlock, newblk: MyBlock, i: nat, pos: int, end: int, chainsOf: ChainsOf)
    returns (r: Result<(MyBlock, MyBlock)>)
    requires i < |blk.speseg| == |newblk.speseg| && newblk.speseg[i] == []
    requires Within(blk.refchrom, blk.refbeg, end, blk.speseg[i]) && blk.refend == pos
    requires newblk.refchrom == blk.refchrom && newblk.refbeg == pos && newblk.refend == end
    ensures r.Ok? ==> var (b, nb) := r.value;
              |b.speseg| == |nb.speseg| == |blk.speseg| &&
              b == blk.(speseg := blk.speseg[i := b.speseg[i]]) &&
              nb == newblk.(speseg := newblk.speseg[i := nb.speseg[i]]) &&
              Within(blk.refchrom, blk.refbeg, pos, b.speseg[i]) &&
              Within(blk.refchrom, pos, end, nb.speseg[i]) &&
              (blk.speseg[i] == [] ==> b.speseg[i] == [] && nb.speseg[i] == [])
  {
    if blk.speseg[i] == [] {
      return Ok((blk, newblk));
    }
    var sg := blk.speseg[i][0];
    assert sg in blk.speseg[i];
    if pos <= sg.fbeg {
      var nb := FillBlock(newblk, i, sg).value;
      r := Ok((blk.(speseg := blk.speseg[i := []]), nb));
    } else if pos >= sg.fend {
      r := Ok((blk, newblk));
    } else {
      var halves := BreakSegmentPosition(sg, pos, i, chainsOf);
      if halves.Fatal? {
        return Fatal(halves.msg);
      }
      var nb := FillBlock(newblk, i, halves.value.1).value;
      r := Ok((blk.(speseg := blk.speseg[i := [halves.value.0]]), nb));
    }
  }

  /** cut is blocks with block b cut at pos: b keeps its start and ends at pos, the
      block after it runs from pos to b's old end, and the rest of the list is as it
      was. */
  predicate BrokenAt(blocks: seq<MyBlock>, cut: seq<MyBlock>, b: nat, pos: int)
  {
    b < |blocks| && |cut| == |blocks| + 1 &&
    (forall k :: 0 <= k < b ==> cut[k] == blocks[k]) &&
    (forall k :: b < k < |blocks| ==> cut[k + 1] == blocks[k]) &&
    cut[b].refchrom == cut[b + 1].refchrom == blocks[b].refchrom &&
    cut[b].refbeg == blocks[b].refbeg && cut[b].refend == pos &&
    cut[b + 1].refbeg == pos && cut[b + 1].refend == blocks[b].refend
  }

  /** break_block_position: block b is cut at pos.  It keeps [refbeg, pos] and the new
      block after it takes [pos, refend]; every descendant segment goes to the side it
      lies on, and one that straddles pos is cut in two.  Nothing else in the list
      changes. */
  method BreakBlockPosition(blocks: seq<MyBlock>, b: nat, pos: int, spesz: nat, rs: nat, chainsOf: ChainsOf)
    returns (r: Result<seq<MyBlock>>)
    requires b < |blocks| && DescWf(blocks, spesz, rs)
    ensures r.Ok? ==> BrokenAt(blocks, r.value, b, pos) && DescWf(r.value, spesz, rs)
  {
    var blk := blocks[b];
    assert BlockOk(blk, spesz, rs);
    var cur := blk.(refend := pos);
    var nb := MyBlock(blk.refchrom, pos, blk.refend, seq(spesz, _ => []));
    for i := 0 to spesz
      invariant |cur.speseg| == |nb.speseg| == spesz
      invariant cur.refchrom == nb.refchrom == blk.refchrom
      invariant cur.refbeg == blk.refbeg && cur.refend == pos && nb.refbeg == pos && nb.refend == blk.refend
      invariant forall j :: 0 <= j < i ==> Within(blk.refchrom, blk.refbeg, pos, cur.speseg[j]) &&
                                           Within(blk.refchrom, pos, blk.refend, nb.speseg[j])
      invariant forall j :: i <= j < spesz ==> cur.speseg[j] == blk.speseg[j] && nb.speseg[j] == []
      invariant i > rs ==> cur.speseg[rs] == [] && nb.speseg[rs] == []
    {
      if i == rs {
        continue;
      }
      var split := SplitSpecies(cur, nb, i, pos, blk.refend, chainsOf);
      if split.Fatal? {
        return Fatal(split.msg);
      }
      cur, nb := split.value.0, split.value.1;
    }
    r := Ok(blocks[..b] + [cur, nb] + blocks[b + 1..]);
    assert r.value[b] == cur && r.value[b + 1] == nb;
    assert BlockOk(cur, spesz, rs) && BlockOk(nb, spesz, rs);
    forall k | 0 <= k < |r.value|
      ensures BlockOk(r.value[k], spesz, rs)
    {
      if k < b {
        assert r.value[k] == blocks[k];
      } else if k > b + 1 {
        assert r.value[k] == blocks[k - 1];
      }
    }
  }

  // ---------------------------------------------------------------------------
  // Locating a segment (find_insert_position, lines 69-141)

  /** Where a segment goes: it is inserted between prv and nxt, and covers the blocks
      fst to lst; None stands for a NULL pointer. */
  datatype Place = Place(prv: Option<nat>, nxt: Option<nat>, fst: Option<nat>, lst: Option<nat>)

  predicate Le(a: Option<nat>, b: Option<nat>)
  {
    a.Some? && b.Some? ==> a.value <= b.value
  }

  predicate InRange(a: Option<nat>, n: nat)
  {
    a.Some? ==> a.value < n
  }

  /** prv and nxt are neighbours: nxt follows prv, or nxt is the head, or prv the tail. */
  predicate Adjacent(prv: Option<nat>, nxt: Option<nat>, n: nat)
  {
    match (prv, nxt)
    case (Some(p), Some(q)) => q == p + 1
    case (None, Some(q)) => q == 0
    case (Some(p), None) => p == n - 1
    case (None, None) => true
  }

  predicate OnChrom(blocks: seq<MyBlock>, a: Option<nat>, chrom: string)
  {
    a.Some? && a.value < |blocks| && blocks[a.value].refchrom == chrom
  }

  /** sg starts in block f, in the gap just before f, or before f when f starts a run
      of sg's chromosome and sg reaches into it. */
  predicate StartsIn(blocks: seq<MyBlock>, sg: MySeg, f: nat)
    requires f < |blocks|
  {
    blocks[f].refchrom == sg.fchrom &&
    ((blocks[f].refbeg <= sg.fbeg < blocks[f].refend) ||
     ((f == 0 || blocks[f - 1].refchrom != sg.fchrom) && sg.fbeg < blocks[f].refbeg < sg.fend) ||
     (0 < f && blocks[f - 1].refchrom == sg.fchrom && blocks[f - 1].refend <= sg.fbeg < blocks[f].refbeg))
  }

  /** sg ends in block l, in the gap just after l, or after l when l ends a run of sg's
      chromosome. */
  predicate EndsIn(blocks: seq<MyBlock>, sg: MySeg, l: nat)
    requires l < |blocks|
  {
    blocks[l].refchrom == sg.fchrom &&
    ((blocks[l].refbeg < sg.fend <= blocks[l].refend) ||
     (l + 1 < |blocks| && blocks[l + 1].refchrom == sg.fchrom && blocks[l].refend < sg.fend <= blocks[l + 1].refbeg) ||
     (!(l + 1 < |blocks| && blocks[l + 1].refchrom == sg.fchrom) && blocks[l].refend < sg.fend))
  }

  /** What find_insert_position establishes, in the terms of its comment (lines 74-79):
      prv <= fst <= lst <= nxt; fst is the first block sg covers (sg starts in it or in
      the gap before it) and lst the last (sg ends in it or in the gap after it); when
      no block is covered, prv and nxt are neighbours and sg fits in the gap between
      them on its chromosome. */
  ghost predicate Located(blocks: seq<MyBlock>, sg: MySeg, start: nat, pl: Place)
  {
    InRange(pl.prv, |blocks|) && InRange(pl.nxt, |blocks|) &&
    InRange(pl.fst, |blocks|) && InRange(pl.lst, |blocks|) &&
    Le(pl.prv, pl.fst) && Le(pl.fst, pl.lst) && Le(pl.lst, pl.nxt) && Le(pl.prv, pl.nxt) &&
    (pl.prv.Some? ==> start <= pl.prv.value) &&
    (pl.fst.Some? ==> StartsIn(blocks, sg, pl.fst.value)) &&
    (pl.lst.Some? ==> EndsIn(blocks, sg, pl.lst.value)) &&
    (pl.fst.None? && pl.lst.None? ==>
       Adjacent(pl.prv, pl.nxt, |blocks|) &&
       (OnChrom(blocks, pl.prv, sg.fchrom) ==> blocks[pl.prv.value].refend <= sg.fbeg) &&
       (OnChrom(blocks, pl.nxt, sg.fchrom) ==> sg.fend <= blocks[pl.nxt.value].refbeg))
  }

  /** What the walk of find_insert_position knows before visiting block p: pp is the
      last block before p of another chromosome followed by one of sg's, and a first
      covered block fst found so far comes with its prv. */
  ghost predicate Walking(blocks: seq<MyBlock>, sg: MySeg, start: nat, p: nat,
                          pp: Option<nat>, prv: Option<nat>, fst: Option<nat>)
  {
    start <= p <= |blocks| &&
    (pp.Some? ==> start <= pp.value < p && blocks[pp.value].refchrom != sg.fchrom) &&
    (prv.Some? ==> start <= prv.value < p) &&
    (fst.Some? ==> fst.value <= p && fst.value < |blocks| && StartsIn(blocks, sg, fst.value)) &&
    (fst.None? ==> prv.None?) && Le(prv, fst)
  }

  /** The outcome of visiting one block: the walk ends with a place, or goes on with
      new pp, prv and fst. */
  datatype Seen = Found(pl: Place) | Go(pp: Option<nat>, prv: Option<nat>, fst: Option<nat>)

  /** One step of the walk of find_insert_position, at block p. */
  function Visit(sg: MySeg, blocks: seq<MyBlock>, start: nat, p: nat,
                 pp: Option<nat>, prv: Option<nat>, fst: Option<nat>): (r: Seen)
    requires p < |blocks| && Walking(blocks, sg, start, p, pp, prv, fst)
    ensures r.Found? ==> Located(blocks, sg, start, r.pl)
    ensures r.Go? ==> Walking(blocks, sg, start, p + 1, r.pp, r.prv, r.fst)
  {
    if blocks[p].refchrom != sg.fchrom then
      if p + 1 < |blocks| && blocks[p + 1].refchrom == sg.fchrom then Go(Some(p), prv, fst)
      else Go(pp, prv, fst)
    else VisitSame(sg, blocks, start, p, pp, prv, fst)
  }

  /** The step at a block p on sg's chromosome: sg fits in the gap after p or before
      the run p starts, or p may be the first block sg covers, and the walk ends at
      the block that holds sg's end. */
  function VisitSame(sg: MySeg, blocks: seq<MyBlock>, start: nat, p: nat,
                     pp: Option<nat>, prv: Option<nat>, fst: Option<nat>): (r: Seen)
    requires p < |blocks| && Walking(blocks, sg, start, p, pp, prv, fst)
    requires blocks[p].refchrom == sg.fchrom
    ensures r.Found? ==> Located(blocks, sg, start, r.pl)
    ensures r.Go? ==> r.pp == pp && Walking(blocks, sg, start, p + 1, pp, r.prv, r.fst)
  {
    match InGap(sg, blocks, start, p, pp, prv, fst)
    case Some(pl) => Found(pl)
    case None =>
      var (prv', fst') := CoverStart(sg, blocks, p, pp, prv, fst);
      var nextSame := p + 1 < |blocks| && blocks[p + 1].refchrom == sg.fchrom;
      var next: Option<nat> := if p + 1 < |blocks| then Some(p + 1) else None;
      if blocks[p].refbeg < sg.fend <= blocks[p].refend then Found(Place(prv', Some(p), fst', Some(p)))
      else if (nextSame && blocks[p].refend < sg.fend <= blocks[p + 1].refbeg) ||
              (!nextSame && blocks[p].refend < sg.fend) then Found(Place(prv', next, fst', Some(p)))
      else Go(pp, prv', fst')
  }

  /** The two ways sg falls in a gap at block p of its chromosome: it lies between p
      and the next block (or after p, at the end of the run), or p starts a run and sg
      ends before it.  Otherwise (None) sg is known to overlap the gap after p or
      reach p. */
  function InGap(sg: MySeg, blocks: seq<MyBlock>, start: nat, p: nat, pp: Option<nat>,
                 prv: Option<nat>, fst: Option<nat>): (r: Option<Place>)
    requires p < |blocks| && Walking(blocks, sg, start, p, pp, prv, fst)
    requires blocks[p].refchrom == sg.fchrom
    ensures r.Some? ==> Located(blocks, sg, start, r.value)
    ensures r.None? ==> ((p + 1 < |blocks| && blocks[p + 1].refchrom == sg.fchrom &&
                          blocks[p].refend <= sg.fbeg) ==> blocks[p + 1].refbeg < sg.fend)
    ensures r.None? ==> (!(p + 1 < |blocks| && blocks[p + 1].refchrom == sg.fchrom) ==>
                         sg.fbeg < blocks[p].refend)
  {
    var nextSame := p + 1 < |blocks| && blocks[p + 1].refchrom == sg.fchrom;
    var next: Option<nat> := if p + 1 < |blocks| then Some(p + 1) else None;
    var runStart := (pp.Some? && p == pp.value + 1) || (pp.None? && p == 0);
    if (nextSame && blocks[p].refend <= sg.fbeg && sg.fend <= blocks[p + 1].refbeg) ||
       (!nextSame && blocks[p].refend <= sg.fbeg) then Some(Place(Some(p), next, None, None))
    else if runStart && blocks[p].refbeg >= sg.fend then Some(Place(pp, Some(p), None, None))
    else None
  }

  /** The first block sg covers, seen from block p of its chromosome: p itself when
      sg starts inside it, p when it starts a run and sg starts before it, the next
      block when sg starts in the gap after p; otherwise what was found before. */
  function CoverStart(sg: MySeg, blocks: seq<MyBlock>, p: nat, pp: Option<nat>,
                      prv: Option<nat>, fst: Option<nat>): (r: (Option<nat>, Option<nat>))
    requires p < |blocks| && blocks[p].refchrom == sg.fchrom
    requires pp.Some? ==> pp.value < p && blocks[pp.value].refchrom != sg.fchrom
    ensures r == (prv, fst) ||
            (r.1 == Some(p) && (r.0 == Some(p) || r.0 == pp) && StartsIn(blocks, sg, p)) ||
            (r.0 == Some(p) && r.1 == Some(p + 1) && p + 1 < |blocks| &&
             blocks[p + 1].refchrom == sg.fchrom && blocks[p].refend <= sg.fbeg < blocks[p + 1].refbeg &&
             StartsIn(blocks, sg, p + 1))
  {
    var runStart := (pp.Some? && p == pp.value + 1) || (pp.None? && p == 0);
    if blocks[p].refbeg <= sg.fbeg < blocks[p].refend then (Some(p), Some(p))
    else if runStart && sg.fbeg < blocks[p].refbeg < sg.fend then (pp, Some(p))
    else if p + 1 < |blocks| && blocks[p + 1].refchrom == sg.fchrom &&
            blocks[p].refend <= sg.fbeg < blocks[p + 1].refbeg then (Some(p), Some(p + 1))
    else (prv, fst)
  }

  /** The walk from block p on, to the end of the list when no block ends it. */
  function LocateFrom(sg: MySeg, blocks: seq<MyBlock>, start: nat, p: nat,
                      pp: Option<nat>, prv: Option<nat>, fst: Option<nat>): (pl: Place)
    requires Walking(blocks, sg, start, p, pp, prv, fst)
    ensures Located(blocks, sg, start, pl)
    decreases |blocks| - p
  {
    if p == |blocks| then Place(prv, None, fst, None)
    else match Visit(sg, blocks, start, p, pp, prv, fst)
      case Found(pl) => pl
      case Go(pp', prv', fst') => LocateFrom(sg, blocks, start, p + 1, pp', prv', fst')
  }

  /** Where find_insert_position places sg, walking from last (or from the head). */
  function Locate(sg: MySeg, blocks: seq<MyBlock>, last: Option<nat>): (pl: Place)
    requires InRange(last, |blocks|)
    ensures Located(blocks, sg, if last.Some? then last.value else 0, pl)
  {
    var start := if last.Some? then last.value else 0;
    LocateFrom(sg, blocks, start, start, None, None, None)
  }

  /** find_insert_position: a walk along the blocks from last (or from the head),
      remembering in pp the block just before the current run of sg's chromosome. */
  method FindInsertPosition(sg: MySeg, blocks: seq<MyBlock>, last: Option<nat>) returns (pl: Place)
    requires InRange(last, |blocks|)
    ensures pl == Locate(sg, blocks, last)
    ensures Located(blocks, sg, if last.Some? then last.value else 0, pl)
  {
    var start: nat := if last.Some? then last.value else 0;
    var prv: Option<nat>, fst: Option<nat>, pp: Option<nat> := None, None, None;
    var p: nat := start;
    while p < |blocks|
      invariant Walking(blocks, sg, start, p, pp, prv, fst)
      invariant LocateFrom(sg, blocks, start, p, pp, prv, fst) == Locate(sg, blocks, last)
    {
      match Visit(sg, blocks, start, p, pp, prv, fst) {
        case Found(found) =>
          return found;
        case Go(pp', prv', fst') =>
          pp, prv, fst := pp', prv', fst';
      }
      p := p + 1;
    }
    pl := Place(prv, None, fst, None);
  }

  // ---------------------------------------------------------------------------
  // Adding descendants (add_descendent_segs, lines 260-350)

  /** A fresh block holding sg alone, for species idx. */
  function Fresh(spesz: nat, idx: nat, sg: MySeg): (b: MyBlock)
    requires idx < spesz
    ensures b.refchrom == sg.fchrom && b.refbeg <= sg.fbeg && sg.fend <= b.refend
    ensures |b.speseg| == spesz && b.speseg[idx] == [sg]
    ensures forall i :: 0 <= i < spesz && i != idx ==> b.speseg[i] == []
  {
    FillBlock(MyAllocateNewblock(spesz), idx, sg).value
  }

  /** r is blocks with nb inserted at k, in the gap between its neighbours on sg's
      chromosome. */
  ghost predicate FitsAt(blocks: seq<MyBlock>, r: seq<MyBlock>, k: nat, nb: MyBlock, sg: MySeg)
    requires k <= |blocks|
  {
    r == blocks[..k] + [nb] + blocks[k..] &&
    (k > 0 && blocks[k - 1].refchrom == sg.fchrom ==> blocks[k - 1].refend <= sg.fbeg) &&
    (k < |blocks| && blocks[k].refchrom == sg.fchrom ==> sg.fend <= blocks[k].refbeg)
  }

  /** The case where sg covers no block: a new block holding sg is linked in between
      prv and nxt (at the head when prv is NULL); with neither, sg is dropped.  The
      new block fits: it starts after its predecessor on the same chromosome ends and
      ends before its successor on the same chromosome starts. */
  method PlaceNew(blocks: seq<MyBlock>, idx: nat, sg: MySeg, start: nat, pl: Place, spesz: nat, rs: nat)
    returns (r: seq<MyBlock>)
    requires DescWf(blocks, spesz, rs) && idx < spesz && idx != rs && sg.fchrom != []
    requires pl.fst.None? && pl.lst.None? && Located(blocks, sg, start, pl) && rs < spesz
    ensures DescWf(r, spesz, rs)
    ensures pl.prv.None? && pl.nxt.None? ==> r == blocks
    ensures pl.prv.Some? || pl.nxt.Some? ==>
              exists k :: 0 <= k <= |blocks| && FitsAt(blocks, r, k, Fresh(spesz, idx, sg), sg)
  {
    var nb := Fresh(spesz, idx, sg);
    assert BlockOk(nb, spesz, rs) by {
      forall i | 0 <= i < spesz
        ensures Within(nb.refchrom, nb.refbeg, nb.refend, nb.speseg[i])
      {
        if i != idx {
          assert nb.speseg[i] == [];
        }
      }
    }
    assert Adjacent(pl.prv, pl.nxt, |blocks|);
    var k: nat;
    if pl.prv.None? && pl.nxt.None? {
      return blocks;
    } else if pl.prv.Some? && pl.nxt.Some? && pl.nxt.value == pl.prv.value + 1 {
      k := pl.prv.value + 1;
    } else if pl.prv.None? {
      k := 0;
    } else {
      k := pl.prv.value + 1;
      assert k == |blocks|;
    }
    r := blocks[..k] + [nb] + blocks[k..];
    assert k > 0 ==> pl.prv == Some(k - 1);
    assert k < |blocks| ==> pl.nxt == Some(k);
    assert FitsAt(blocks, r, k, nb, sg);
    forall j | 0 <= j < |r|
      ensures BlockOk(r[j], spesz, rs)
    {
      if j < k {
        assert r[j] == blocks[j];
      } else if j > k {
        assert r[j] == blocks[j - 1];
      }
    }
  }

  /** Species idx already has a segment in block f. */
  predicate Holds(b: MyBlock, idx: nat)
  {
    idx < |b.speseg| && b.speseg[idx] != []
  }

  /** Where block f is cut before a segment sg of species idx goes in: halfway between
      the end of idx's segment already there and the start of sg. */
  function Midway(b: MyBlock, idx: nat, sg: MySeg): int
    requires Holds(b, idx)
  {
    Half(b.speseg[idx][0].fend + sg.fbeg)
  }

  /** The list before sg's pieces are filled in: blocks itself when species idx has
      nothing in block f, otherwise blocks with f cut at Midway (and the pieces then
      start at f + 1). */
  predicate Prepared(blocks: seq<MyBlock>, cut: seq<MyBlock>, f: nat, idx: nat, sg: MySeg)
  {
    f < |blocks| &&
    (!Holds(blocks[f], idx) ==> cut == blocks) &&
    (Holds(blocks[f], idx) ==> BrokenAt(blocks, cut, f, Midway(blocks[f], idx, sg)))
  }

  /** A part of sg: the same alignment, starting no earlier than sg. */
  predicate PartOf(p: MySeg, sg: MySeg)
  {
    p.fchrom == sg.fchrom && p.schrom == sg.schrom && p.orient == sg.orient && p.cid == sg.cid &&
    sg.fbeg <= p.fbeg
  }

  /** The pieces sg is cut into over the blocks f to l, by block: parts of sg, in
      block order and each ending before the next starts; the first starts where sg
      starts, and block l always gets one, which ends where sg ends. */
  ghost predicate Pieces(pieces: map<nat, MySeg>, f: nat, l: nat, sg: MySeg)
  {
    l in pieces && pieces[l].fend == sg.fend &&
    (forall k :: k in pieces ==> f <= k <= l && PartOf(pieces[k], sg)) &&
    (forall k, k' :: k in pieces && k' in pieces && k < k' ==> pieces[k].fend <= pieces[k'].fbeg) &&
    exists lo :: lo in pieces && pieces[lo].fbeg == sg.fbeg && forall k :: k in pieces ==> lo <= k
  }

  /** The pieces placed so far while sg is cut from block f0 up to block f, the first
      at lo: the rest of sg is cur. */
  ghost predicate Cutting(pieces: map<nat, MySeg>, f0: nat, f: nat, lo: nat, cur: MySeg, sg: MySeg)
  {
    f0 <= f && PartOf(cur, sg) && cur.fend == sg.fend &&
    (forall k :: k in pieces ==> f0 <= k < f && PartOf(pieces[k], sg) && pieces[k].fend <= cur.fbeg) &&
    (forall k, k' :: k in pieces && k' in pieces && k < k' ==> pieces[k].fend <= pieces[k'].fbeg) &&
    (pieces == map[] ==> cur.fbeg == sg.fbeg) &&
    (pieces != map[] ==> lo in pieces && pieces[lo].fbeg == sg.fbeg && forall k :: k in pieces ==> lo <= k)
  }

  /** A cut at pos across the gap after block f, with the rest of sg before pos
      placed there and the part after it going on. */
  lemma CuttingStep(pieces: map<nat, MySeg>, f0: nat, f: nat, lo: nat, cur: MySeg, sg: MySeg,
                    pos: int, a: MySeg, b: MySeg)
    requires Cutting(pieces, f0, f, lo, cur, sg) && cur.fbeg < pos && Halves(cur, pos, a, b)
    ensures Cutting(pieces[f := a], f0, f + 1, if pieces == map[] then f else lo, b, sg)
  {
    var m := pieces[f := a];
    assert PartOf(a, sg) && PartOf(b, sg) && a.fend <= b.fbeg;
    forall k | k in m
      ensures f0 <= k < f + 1 && PartOf(m[k], sg) && m[k].fend <= b.fbeg
    {
    }
    forall k, k' | k in m && k' in m && k < k'
      ensures m[k].fend <= m[k'].fbeg
    {
      if k' == f {
        assert k in pieces;
      } else {
        assert k in pieces && k' in pieces;
      }
    }
    assert f in m;
    if pieces == map[] {
      forall k | k in m
        ensures f <= k
      {
        assert k !in pieces;
      }
    }
  }

  /** The last piece: the rest of sg goes to block l. */
  lemma CuttingLast(pieces: map<nat, MySeg>, f0: nat, l: nat, lo: nat, cur: MySeg, sg: MySeg)
    requires Cutting(pieces, f0, l, lo, cur, sg)
    ensures Pieces(pieces[l := cur], f0, l, sg)
  {
    var m := pieces[l := cur];
    forall k | k in m
      ensures f0 <= k <= l && PartOf(m[k], sg)
    {
    }
    forall k, k' | k in m && k' in m && k < k'
      ensures m[k].fend <= m[k'].fbeg
    {
      if k' == l {
        assert k in pieces;
      } else {
        assert k in pieces && k' in pieces;
      }
    }
    var lo' := if pieces == map[] then l else lo;
    assert l in m;
    forall k | k in m
      ensures lo' <= k
    {
      if pieces == map[] {
        assert k !in pieces;
      }
    }
    assert lo' in m && m[lo'].fbeg == sg.fbeg;
  }

  /** r is blocks with fill_block of the piece for each block that has one, and
      nothing else changed. */
  ghost predicate FilledWith(blocks: seq<MyBlock>, r: seq<MyBlock>, idx: nat, pieces: map<nat, MySeg>)
  {
    |r| == |blocks| &&
    forall k :: 0 <= k < |blocks| ==>
      (k in pieces ==> idx < |blocks[k].speseg| && FillBlock(blocks[k], idx, pieces[k]) == Ok(r[k])) &&
      (k !in pieces ==> r[k] == blocks[k])
  }

  /** The case where sg covers one block f: sg fills it when species idx has nothing
      there; otherwise the block is first cut halfway between idx's segment and sg,
      and sg fills the second half. */
  method FillOne(blocks: seq<MyBlock>, f: nat, idx: nat, sg: MySeg, spesz: nat, rs: nat, chainsOf: ChainsOf)
    returns (r: Result<seq<MyBlock>>, ghost cut: seq<MyBlock>)
    requires DescWf(blocks, spesz, rs) && idx < spesz && idx != rs && sg.fchrom != []
    requires f < |blocks| && blocks[f].refchrom == sg.fchrom
    ensures r.Ok? ==> DescWf(r.value, spesz, rs) && |blocks| <= |r.value| <= |blocks| + 1
    ensures !Holds(blocks[f], idx) ==> r.Ok?
    ensures r.Ok? ==> Prepared(blocks, cut, f, idx, sg)
    ensures r.Ok? ==> var g := if Holds(blocks[f], idx) then f + 1 else f;
              FilledWith(cut, r.value, idx, map[g := sg])
  {
    assert BlockOk(blocks[f], spesz, rs);
    if blocks[f].speseg[idx] == [] {
      var filled := FillBlock(blocks[f], idx, sg).value;
      FillBlockOk(blocks[f], idx, sg, spesz, rs);
      cut := blocks;
      r := Ok(blocks[f := filled]);
    } else {
      var pos := Half(blocks[f].speseg[idx][0].fend + sg.fbeg);
      var broken := BreakBlockPosition(blocks, f, pos, spesz, rs, chainsOf);
      if broken.Fatal? {
        return Fatal(broken.msg), blocks;
      }
      var bs := broken.value;
      cut := bs;
      assert BlockOk(bs[f + 1], spesz, rs);
      var filled := FillBlock(bs[f + 1], idx, sg).value;
      FillBlockOk(bs[f + 1], idx, sg, spesz, rs);
      r := Ok(bs[f + 1 := filled]);
    }
  }

  /** The case where sg covers the blocks f to l (f < l): when species idx already has
      a segment in f, f is first cut halfway between it and sg and the walk starts at
      the second half (SpanFrom). */
  method FillSpan(blocks: seq<MyBlock>, f0: nat, l0: nat, idx: nat, sg: MySeg, spesz: nat, rs: nat,
                  chainsOf: ChainsOf)
    returns (r: Result<seq<MyBlock>>, ghost cut: seq<MyBlock>, ghost pieces: map<nat, MySeg>)
    requires DescWf(blocks, spesz, rs) && idx < spesz && idx != rs && sg.fchrom != []
    requires f0 < l0 < |blocks|
    ensures r.Ok? ==> DescWf(r.value, spesz, rs) && |blocks| <= |r.value| <= |blocks| + 1
    ensures r.Ok? ==> Prepared(blocks, cut, f0, idx, sg)
    ensures r.Ok? ==> var d := if Holds(blocks[f0], idx) then 1 else 0;
              Pieces(pieces, f0 + d, l0 + d, sg) && FilledWith(cut, r.value, idx, pieces)
  {
    var bs, f, l := blocks, f0, l0;
    assert BlockOk(bs[f], spesz, rs);
    if bs[f].speseg[idx] != [] {
      var pos := Half(bs[f].speseg[idx][0].fend + sg.fbeg);
      var broken := BreakBlockPosition(bs, f, pos, spesz, rs, chainsOf);
      if broken.Fatal? {
        return Fatal(broken.msg), blocks, map[];
      }
      bs, f, l := broken.value, f + 1, l + 1;
    }
    cut := bs;
    r, pieces := SpanFrom(bs, f, l, idx, sg, spesz, rs, chainsOf);
  }

  /** The walk over the blocks f to l: block by block, sg is cut halfway across each gap
      it spans (unless it starts after the midpoint); the part before the gap fills the
      block and the rest goes on; what is left fills l. */
  method SpanFrom(cut: seq<MyBlock>, f0: nat, l: nat, idx: nat, sg: MySeg, spesz: nat, rs: nat,
                  chainsOf: ChainsOf)
    returns (r: Result<seq<MyBlock>>, ghost pieces: map<nat, MySeg>)
    requires DescWf(cut, spesz, rs) && idx < spesz && idx != rs && sg.fchrom != []
    requires f0 <= l < |cut|
    ensures r.Ok? ==> DescWf(r.value, spesz, rs) && Pieces(pieces, f0, l, sg) && FilledWith(cut, r.value, idx, pieces)
    ensures cut[l].refchrom != [] && cut[l].refchrom != sg.fchrom ==> r.Fatal?
    ensures f0 == l && !FillBlock(cut[l], idx, sg).Fatal? ==> r == Ok(cut[l := FillBlock(cut[l], idx, sg).value])
  {
    var bs, f := cut, f0;
    ghost var lo: nat := f;
    pieces := map[];
    var cur := sg;
    while f != l
      invariant f0 <= f <= l && |bs| == |cut|
      invariant DescWf(bs, spesz, rs) && cur.fchrom == sg.fchrom
      invariant FilledWith(cut, bs, idx, pieces) && Cutting(pieces, f0, f, lo, cur, sg)
      invariant bs[l] == cut[l] && (f == f0 ==> bs == cut && cur == sg)
      decreases l - f
    {
      var pos := Half(bs[f].refend + bs[f + 1].refbeg);
      if pos <= cur.fbeg {
        f := f + 1;
        continue;
      }
      var halves := BreakSegmentPosition(cur, pos, idx, chainsOf);
      if halves.Fatal? {
        return Fatal(halves.msg), pieces;
      }
      var next := Refill(bs, f, idx, halves.value.0, spesz, rs);
      if next == [] {
        return Fatal("CHROM DISAGREE"), pieces;
      }
      FilledStep(cut, bs, idx, pieces, f, halves.value.0);
      CuttingStep(pieces, f0, f, lo, cur, sg, pos, halves.value.0, halves.value.1);
      lo := if pieces == map[] then f else lo;
      bs, pieces, cur, f := next, pieces[f := halves.value.0], halves.value.1, f + 1;
    }
    var next := Refill(bs, l, idx, cur, spesz, rs);
    if next == [] {
      return Fatal("CHROM DISAGREE"), pieces;
    }
    FilledStep(cut, bs, idx, pieces, l, cur);
    CuttingLast(pieces, f0, l, lo, cur, sg);
    pieces := pieces[l := cur];
    r := Ok(next);
  }

  /** Filling one more block, one without a piece so far. */
  lemma FilledStep(cut: seq<MyBlock>, bs: seq<MyBlock>, idx: nat, pieces: map<nat, MySeg>, f: nat, p: MySeg)
    requires FilledWith(cut, bs, idx, pieces) && f < |bs| && f !in pieces && idx < |bs[f].speseg|
    requires FillBlock(bs[f], idx, p).Ok?
    ensures FilledWith(cut, bs[f := FillBlock(bs[f], idx, p).value], idx, pieces[f := p])
  {
  }

  /** fill_block on block f of the list; the empty list stands for the abort on a
      chromosome mismatch. */
  method Refill(blocks: seq<MyBlock>, f: nat, idx: nat, sg: MySeg, spesz: nat, rs: nat)
    returns (r: seq<MyBlock>)
    requires DescWf(blocks, spesz, rs) && idx < spesz && idx != rs && sg.fchrom != []
    requires f < |blocks|
    ensures r == [] <==> FillBlock(blocks[f], idx, sg).Fatal?
    ensures r != [] ==> r == blocks[f := FillBlock(blocks[f], idx, sg).value] && DescWf(r, spesz, rs)
  {
    assert BlockOk(blocks[f], spesz, rs);
    var filled := FillBlock(blocks[f], idx, sg);
    if filled.Fatal? {
      return [];
    }
    FillBlockOk(blocks[f], idx, sg, spesz, rs);
    r := blocks[f := filled.value];
  }

  /** One segment of add_descendent_segs on a non-empty list: locate it from last,
      then place, fill or spread it; the block found before it (prv) is where the
      next search starts.  A segment whose two ends are not both found is dropped. */
  method AddDescendentSeg(blocks: seq<MyBlock>, idx: nat, sg: MySeg, last: Option<nat>,
                          spesz: nat, rs: nat, chainsOf: ChainsOf)
    returns (r: Result<(seq<MyBlock>, Option<nat>)>)
    requires DescWf(blocks, spesz, rs) && idx < spesz && idx != rs && rs < spesz && sg.fchrom != []
    requires InRange(last, |blocks|)
    ensures r.Ok? ==> DescWf(r.value.0, spesz, rs) && |blocks| <= |r.value.0| && InRange(r.value.1, |r.value.0|)
    ensures r.Ok? ==> r.value.1 == Locate(sg, blocks, last).prv
    ensures var pl := Locate(sg, blocks, last);
      pl.fst.None? && pl.lst.None? ==> r.Ok?
    ensures var pl := Locate(sg, blocks, last);
      pl.fst.None? && pl.lst.None? && pl.prv.None? && pl.nxt.None? ==> r == Ok((blocks, None))
    ensures var pl := Locate(sg, blocks, last);
      pl.fst.None? && pl.lst.None? && (pl.prv.Some? || pl.nxt.Some?) ==>
        r.Ok? && exists k :: 0 <= k <= |blocks| && FitsAt(blocks, r.value.0, k, Fresh(spesz, idx, sg), sg)
    ensures var pl := Locate(sg, blocks, last);
      pl.fst.Some? || pl.lst.Some? ==> r.Ok? ==> Covered(blocks, r.value.0, pl.fst, pl.lst, idx, sg)
  {
    var pl := FindInsertPosition(sg, blocks, last);
    var start := if last.Some? then last.value else 0;
    if pl.fst.None? && pl.lst.None? {
      var bs := PlaceNew(blocks, idx, sg, start, pl, spesz, rs);
      r := Ok((bs, pl.prv));
    } else {
      var bs := FillCovered(blocks, pl.fst, pl.lst, idx, sg, spesz, rs, chainsOf);
      if bs.Fatal? {
        return Fatal(bs.msg);
      }
      r := Ok((bs.value, pl.prv));
    }
  }

  /** What placing a descendant segment that covers blocks leaves: with only one end
      found nothing changes; with one block, sg fills it (or the second half of it
      when it was cut first); with several, sg's pieces fill the blocks they fall in. */
  ghost predicate Covered(blocks: seq<MyBlock>, r: seq<MyBlock>, fst: Option<nat>, lst: Option<nat>,
                          idx: nat, sg: MySeg)
  {
    (fst != lst && (fst.None? || lst.None?) ==> r == blocks) &&
    (fst.Some? && fst == lst ==> OneFilled(blocks, r, fst.value, idx, sg)) &&
    (fst.Some? && lst.Some? && fst != lst ==> SpanFilled(blocks, r, fst.value, lst.value, idx, sg))
  }

  /** sg fills block f, or the second half of f when it was cut first. */
  ghost predicate OneFilled(blocks: seq<MyBlock>, r: seq<MyBlock>, f: nat, idx: nat, sg: MySeg)
  {
    f < |blocks| &&
    exists cut :: Prepared(blocks, cut, f, idx, sg) &&
      FilledWith(cut, r, idx, map[(if Holds(blocks[f], idx) then f + 1 else f) := sg])
  }

  /** sg's pieces fill the blocks f to l (one further on when f was cut first). */
  ghost predicate SpanFilled(blocks: seq<MyBlock>, r: seq<MyBlock>, f: nat, l: nat, idx: nat, sg: MySeg)
  {
    f < |blocks| &&
    var d := if Holds(blocks[f], idx) then 1 else 0;
    exists cut, pieces :: Prepared(blocks, cut, f, idx, sg) &&
      Pieces(pieces, f + d, l + d, sg) && FilledWith(cut, r, idx, pieces)
  }

  /** The cases of add_descendent_segs where sg covers blocks: fill one, spread over
      several, or drop sg when only one end was found. */
  method FillCovered(blocks: seq<MyBlock>, fst: Option<nat>, lst: Option<nat>, idx: nat, sg: MySeg,
                     spesz: nat, rs: nat, chainsOf: ChainsOf)
    returns (r: Result<seq<MyBlock>>)
    requires DescWf(blocks, spesz, rs) && idx < spesz && idx != rs && rs < spesz && sg.fchrom != []
    requires fst.Some? || lst.Some?
    requires InRange(fst, |blocks|) && InRange(lst, |blocks|) && Le(fst, lst)
    requires fst.Some? ==> blocks[fst.value].refchrom == sg.fchrom
    ensures r.Ok? ==> DescWf(r.value, spesz, rs) && |blocks| <= |r.value|
    ensures r.Ok? ==> Covered(blocks, r.value, fst, lst, idx, sg)
    ensures fst != lst && (fst.None? || lst.None?) ==> r == Ok(blocks)
  {
    if fst == lst {
      var bs, cut := FillOne(blocks, fst.value, idx, sg, spesz, rs, chainsOf);
      if bs.Fatal? {
        return Fatal(bs.msg);
      }
      r := Ok(bs.value);
    } else if fst.None? || lst.None? {
      r := Ok(blocks);
    } else {
      var bs, cut, pieces := FillSpan(blocks, fst.value, lst.value, idx, sg, spesz, rs, chainsOf);
      if bs.Fatal? {
        return Fatal(bs.msg);
      }
      r := Ok(bs.value);
    }
  }

  /** One step of add_descendent_segs: placing sg, searched from last, turns blocks
      into nb with next search start nl, as add_descendent_seg promises. */
  ghost predicate DescPlaced(blocks: seq<MyBlock>, idx: nat, sg: MySeg, last: Option<nat>, spesz: nat,
                             nb: seq<MyBlock>, nl: Option<nat>)
  {
    InRange(last, |blocks|) && idx < spesz &&
    var pl := Locate(sg, blocks, last);
    nl == pl.prv &&
    (pl.fst.None? && pl.lst.None? && pl.prv.None? && pl.nxt.None? ==> nb == blocks) &&
    (pl.fst.None? && pl.lst.None? && (pl.prv.Some? || pl.nxt.Some?) ==>
       exists k :: 0 <= k <= |blocks| && FitsAt(blocks, nb, k, Fresh(spesz, idx, sg), sg)) &&
    (pl.fst.Some? || pl.lst.Some? ==> Covered(blocks, nb, pl.fst, pl.lst, idx, sg))
  }

  /** add_descendent_segs: into an empty list every segment goes as a block of its own,
      in file order; otherwise each segment is merged into the list in turn.  Either
      way every block keeps at most one segment per species, inside its interval. */
  method AddDescendentSegs(blocks: seq<MyBlock>, idx: nat, sglist: seq<MySeg>,
                           spesz: nat, rs: nat, chainsOf: ChainsOf)
    returns (r: Result<seq<MyBlock>>, ghost trace: seq<(seq<MyBlock>, Option<nat>)>)
    requires DescWf(blocks, spesz, rs) && idx < spesz && idx != rs && rs < spesz
    requires forall k :: 0 <= k < |sglist| ==> sglist[k].fchrom != []
    ensures r.Ok? ==> DescWf(r.value, spesz, rs) && |blocks| <= |r.value|
    ensures blocks == [] ==> r == Ok(seq(|sglist|, k requires 0 <= k < |sglist| => Fresh(spesz, idx, sglist[k])))
    ensures blocks != [] && r.Ok? ==>
      |trace| == |sglist| + 1 && trace[0] == (blocks, None) && trace[|sglist|].0 == r.value
    ensures blocks != [] && r.Ok? ==> forall k :: 0 <= k < |sglist| ==>
      DescPlaced(trace[k].0, idx, sglist[k], trace[k].1, spesz, trace[k + 1].0, trace[k + 1].1)
  {
    if blocks == [] {
      var bs: seq<MyBlock> := [];
      for k := 0 to |sglist|
        invariant bs == seq(k, j requires 0 <= j < k => Fresh(spesz, idx, sglist[j]))
        invariant DescWf(bs, spesz, rs)
      {
        var nb := Fresh(spesz, idx, sglist[k]);
        assert BlockOk(nb, spesz, rs) by {
          forall i | 0 <= i < spesz
            ensures Within(nb.refchrom, nb.refbeg, nb.refend, nb.speseg[i])
          {
            if i != idx {
              assert nb.speseg[i] == [];
            }
          }
        }
        bs := bs + [nb];
      }
      return Ok(bs), [];
    }
    var bs := blocks;
    var last: Option<nat> := None;
    trace := [(blocks, None)];
    for k := 0 to |sglist|
      invariant DescWf(bs, spesz, rs) && |blocks| <= |bs| && InRange(last, |bs|)
      invariant |trace| == k + 1 && trace[0] == (blocks, None) && trace[k] == (bs, last)
      invariant forall j :: 0 <= j < k ==>
        DescPlaced(trace[j].0, idx, sglist[j], trace[j].1, spesz, trace[j + 1].0, trace[j + 1].1)
    {
      var step := AddDescendentSeg(bs, idx, sglist[k], last, spesz, rs, chainsOf);
      if step.Fatal? {
        return Fatal(step.msg), trace;
      }
      bs, last := step.value.0, step.value.1;
      trace := trace + [(bs, last)];
    }
    r := Ok(bs);
  }

  // ---------------------------------------------------------------------------
  // Adding outgroups (add_outgroup_segs, lines 352-391)

  /** c is block a with segments appended to species idx's list and nothing else
      changed. */
  predicate GrownBlock(a: MyBlock, c: MyBlock, idx: nat)
  {
    c.refchrom == a.refchrom && c.refbeg == a.refbeg && c.refend == a.refend &&
    |c.speseg| == |a.speseg| && idx < |a.speseg| && a.speseg[idx] <= c.speseg[idx] &&
    forall i :: 0 <= i < |a.speseg| && i != idx ==> c.speseg[i] == a.speseg[i]
  }

  ghost predicate Grown(blocks: seq<MyBlock>, r: seq<MyBlock>, idx: nat)
  {
    |r| == |blocks| && forall b :: 0 <= b < |blocks| ==> GrownBlock(blocks[b], r[b], idx)
  }

  lemma GrownTrans(a: seq<MyBlock>, b: seq<MyBlock>, c: seq<MyBlock>, idx: nat)
    requires Grown(a, b, idx) && Grown(b, c, idx)
    ensures Grown(a, c, idx)
  {
    forall k | 0 <= k < |a|
      ensures GrownBlock(a[k], c[k], idx)
    {
      assert GrownBlock(a[k], b[k], idx) && GrownBlock(b[k], c[k], idx);
    }
  }

  ghost predicate Sized(blocks: seq<MyBlock>, spesz: nat)
  {
    forall b :: 0 <= b < |blocks| ==> |blocks[b].speseg| == spesz
  }

  /** fill_block_out on block f of the list. */
  function FillOut(blocks: seq<MyBlock>, f: nat, idx: nat, sg: MySeg): (r: seq<MyBlock>)
    requires f < |blocks| && forall b :: 0 <= b < |blocks| ==> idx < |blocks[b].speseg|
    ensures Grown(blocks, r, idx) && r[f].speseg[idx] == blocks[f].speseg[idx] + [sg]
    ensures forall k :: 0 <= k < |blocks| && k != f ==> r[k] == blocks[k]
  {
    assert blocks[f].speseg[idx] <= blocks[f].speseg[idx] + [sg];
    blocks[f := FillBlockOut(blocks[f], idx, sg)]
  }

  /** The outgroup case where sg covers the blocks f to l (f < l): sg is cut halfway
      across each gap it spans, each part is appended to its block, and what is left
      goes to l. */
  method SpreadOut(blocks: seq<MyBlock>, f0: nat, l: nat, idx: nat, sg: MySeg, spesz: nat, chainsOf: ChainsOf)
    returns (r: Result<seq<MyBlock>>, ghost pieces: map<nat, MySeg>)
    requires Sized(blocks, spesz) && idx < spesz && f0 < l < |blocks|
    ensures r.Ok? ==> Grown(blocks, r.value, idx)
    ensures r.Ok? ==> Pieces(pieces, f0, l, sg) && AppendedWith(blocks, r.value, idx, pieces)
  {
    var bs, f, cur := blocks, f0, sg;
    ghost var lo: nat := f;
    pieces := map[];
    while f != l
      invariant f0 <= f <= l && Grown(blocks, bs, idx)
      invariant AppendedWith(blocks, bs, idx, pieces) && Cutting(pieces, f0, f, lo, cur, sg)
      decreases l - f
    {
      var pos := Half(bs[f].refend + bs[f + 1].refbeg);
      if pos <= cur.fbeg {
        f := f + 1;
        continue;
      }
      var halves := BreakSegmentPosition(cur, pos, idx, chainsOf);
      if halves.Fatal? {
        return Fatal(halves.msg), pieces;
      }
      var next := FillOut(bs, f, idx, halves.value.0);
      GrownTrans(blocks, bs, next, idx);
      CuttingStep(pieces, f0, f, lo, cur, sg, pos, halves.value.0, halves.value.1);
      lo := if pieces == map[] then f else lo;
      bs, pieces, cur, f := next, pieces[f := halves.value.0], halves.value.1, f + 1;
    }
    var next := FillOut(bs, l, idx, cur);
    GrownTrans(blocks, bs, next, idx);
    CuttingLast(pieces, f0, l, lo, cur, sg);
    pieces := pieces[l := cur];
    r := Ok(next);
  }

  /** r is blocks with fill_block_out of the piece for each block that has one, and
      nothing else changed. */
  ghost predicate AppendedWith(blocks: seq<MyBlock>, r: seq<MyBlock>, idx: nat, pieces: map<nat, MySeg>)
  {
    |r| == |blocks| &&
    forall k :: 0 <= k < |blocks| ==>
      (k in pieces ==> idx < |blocks[k].speseg| && r[k] == FillBlockOut(blocks[k], idx, pieces[k])) &&
      (k !in pieces ==> r[k] == blocks[k])
  }

  /** One segment of add_outgroup_segs: an outgroup segment never makes or cuts a
      block; one that covers no block, or whose two ends are not both found, is
      dropped; one that covers a single block is appended to it; otherwise its pieces
      are appended to the blocks they fall in. */
  method AddOutgroupSeg(blocks: seq<MyBlock>, idx: nat, sg: MySeg, last: Option<nat>,
                        spesz: nat, chainsOf: ChainsOf)
    returns (r: Result<(seq<MyBlock>, Option<nat>)>)
    requires Sized(blocks, spesz) && idx < spesz && InRange(last, |blocks|)
    ensures r.Ok? ==> Grown(blocks, r.value.0, idx) && InRange(r.value.1, |blocks|)
    ensures r.Ok? ==> r.value.1 == Locate(sg, blocks, last).prv
    ensures var pl := Locate(sg, blocks, last);
      pl.fst.None? || pl.lst.None? ==> r == Ok((blocks, pl.prv))
    ensures var pl := Locate(sg, blocks, last);
      pl.fst.Some? && pl.fst == pl.lst ==> r == Ok((FillOut(blocks, pl.fst.value, idx, sg), pl.prv))
    ensures var pl := Locate(sg, blocks, last);
      pl.fst.Some? && pl.lst.Some? && pl.fst != pl.lst && r.Ok? ==>
        exists pieces :: Pieces(pieces, pl.fst.value, pl.lst.value, sg) && AppendedWith(blocks, r.value.0, idx, pieces)
  {
    var pl := FindInsertPosition(sg, blocks, last);
    if pl.fst.None? && pl.lst.None? {
      r := Ok((blocks, pl.prv));
    } else if pl.fst == pl.lst {
      r := Ok((FillOut(blocks, pl.fst.value, idx, sg), pl.prv));
    } else if pl.fst.None? || pl.lst.None? {
      r := Ok((blocks, pl.prv));
    } else {
      var bs, pieces := SpreadOut(blocks, pl.fst.value, pl.lst.value, idx, sg, spesz, chainsOf);
      if bs.Fatal? {
        return Fatal(bs.msg);
      }
      r := Ok((bs.value, pl.prv));
    }
  }

  /** One step of add_outgroup_segs: placing sg, searched from last, turns blocks into
      nb with next search start nl, as add_outgroup_seg promises. */
  ghost predicate OutPlaced(blocks: seq<MyBlock>, idx: nat, sg: MySeg, last: Option<nat>, spesz: nat,
                            nb: seq<MyBlock>, nl: Option<nat>)
  {
    InRange(last, |blocks|) && Sized(blocks, spesz) && idx < spesz &&
    var pl := Locate(sg, blocks, last);
    nl == pl.prv &&
    (pl.fst.None? || pl.lst.None? ==> nb == blocks) &&
    (pl.fst.Some? && pl.fst == pl.lst ==> nb == FillOut(blocks, pl.fst.value, idx, sg)) &&
    (pl.fst.Some? && pl.lst.Some? && pl.fst != pl.lst ==>
       exists pieces :: Pieces(pieces, pl.fst.value, pl.lst.value, sg) && AppendedWith(blocks, nb, idx, pieces))
  }

  /** add_outgroup_segs: the blocks stay as they are (same intervals, same other
      species); species idx's lists only grow. */
  method AddOutgroupSegs(blocks: seq<MyBlock>, idx: nat, sglist: seq<MySeg>, spesz: nat, chainsOf: ChainsOf)
    returns (r: Result<seq<MyBlock>>, ghost trace: seq<(seq<MyBlock>, Option<nat>)>)
    requires Sized(blocks, spesz) && idx < spesz
    ensures r.Ok? ==> Grown(blocks, r.value, idx)
    ensures r.Ok? ==> |trace| == |sglist| + 1 && trace[0] == (blocks, None) && trace[|sglist|].0 == r.value
    ensures r.Ok? ==> forall k :: 0 <= k < |sglist| ==>
      OutPlaced(trace[k].0, idx, sglist[k], trace[k].1, spesz, trace[k + 1].0, trace[k + 1].1)
  {
    var bs := blocks;
    var last: Option<nat> := None;
    trace := [(blocks, None)];
    assert Grown(blocks, bs, idx);
    for k := 0 to |sglist|
      invariant Grown(blocks, bs, idx) && Sized(bs, spesz) && InRange(last, |bs|)
      invariant |trace| == k + 1 && trace[0] == (blocks, None) && trace[k] == (bs, last)
      invariant forall j :: 0 <= j < k ==>
        OutPlaced(trace[j].0, idx, sglist[j], trace[j].1, spesz, trace[j + 1].0, trace[j + 1].1)
    {
      var step := AddOutgroupSeg(bs, idx, sglist[k], last, spesz, chainsOf);
      if step.Fatal? {
        return Fatal(step.msg), trace;
      }
      GrownTrans(blocks, bs, step.value.0, idx);
      bs, last := step.value.0, step.value.1;
      trace := trace + [(bs, last)];
    }
    r := Ok(bs);
  }

  // ---------------------------------------------------------------------------
  // The sanity check and the program (main, lines 423-519)

  /** Block k is a proper interval and does not overlap the next block on its
      chromosome. */
  predicate Sane(blocks: seq<MyBlock>, k: nat)
    requires k < |blocks|
  {
    blocks[k].refbeg < blocks[k].refend &&
    (k + 1 < |blocks| && blocks[k].refchrom == blocks[k + 1].refchrom ==>
       blocks[k].refend <= blocks[k + 1].refbeg)
  }

  predicate AllSane(blocks: seq<MyBlock>)
  {
    forall k :: 0 <= k < |blocks| ==> Sane(blocks, k)
  }

  /** What the sanity loop of main accepts as written: it runs while the current block
      has a successor, so the last block is never checked, and it dereferences the
      head, so an empty list crashes it. */
  predicate PassesAsWritten(blocks: seq<MyBlock>)
  {
    |blocks| > 0 && forall k :: 0 <= k < |blocks| - 1 ==> Sane(blocks, k)
  }

  /** The sanity loop of main as written (lines 467-479). */
  method SanityCheckAsWritten(blocks: seq<MyBlock>) returns (r: Result<()>)
    ensures r.Ok? <==> PassesAsWritten(blocks)
  {
    if blocks == [] {
      return Fatal("NULL dereference");
    }
    var k := 0;
    while k + 1 < |blocks|
      invariant 0 <= k < |blocks|
      invariant forall j :: 0 <= j < k ==> Sane(blocks, j)
    {
      if blocks[k].refbeg >= blocks[k].refend {
        assert !Sane(blocks, k);
        return Fatal("end >= beg");
      }
      if blocks[k].refchrom == blocks[k + 1].refchrom && blocks[k].refend > blocks[k + 1].refbeg {
        assert !Sane(blocks, k);
        return Fatal("out of order");
      }
      k := k + 1;
    }
    r := Ok(());
  }

  /** A one-block list whose block is empty passes the sanity loop as written. */
  lemma LastBlockUnchecked()
    ensures PassesAsWritten([MyBlock("chr1", 7, 7, [])])
    ensures !AllSane([MyBlock("chr1", 7, 7, [])])
  {
    assert !Sane([MyBlock("chr1", 7, 7, [])], 0);
  }

  /** The sanity check as intended: every block, the last included, is checked, and an
      empty list has nothing to check. */
  method SanityCheck(blocks: seq<MyBlock>) returns (r: Result<()>)
    ensures r.Ok? <==> AllSane(blocks)
  {
    for k := 0 to |blocks|
      invariant forall j :: 0 <= j < k ==> Sane(blocks, j)
    {
      if blocks[k].refbeg >= blocks[k].refend {
        assert !Sane(blocks, k);
        return Fatal("end >= beg");
      }
      if k + 1 < |blocks| && blocks[k].refchrom == blocks[k + 1].refchrom &&
         blocks[k].refend > blocks[k + 1].refbeg {
        assert !Sane(blocks, k);
        return Fatal("out of order");
      }
    }
    r := Ok(());
  }

  /** Blocks that pass the sanity check are sorted along each run of one chromosome:
      a block ends no later than any later block of the run begins. */
  lemma {:induction false} SaneRunSorted(blocks: seq<MyBlock>, i: nat, j: nat)
    requires AllSane(blocks) && i < j < |blocks|
    requires forall k :: i <= k <= j ==> blocks[k].refchrom == blocks[i].refchrom
    ensures blocks[i].refend <= blocks[j].refbeg
    ensures blocks[i].refbeg < blocks[j].refbeg
    decreases j - i
  {
    assert Sane(blocks, i);
    if j > i + 1 {
      SaneRunSorted(blocks, i + 1, j);
      assert Sane(blocks, i + 1);
    }
  }

  /** main: read the segments of every species but the reference, add the descendants
      and then the outgroups in species order, and check the result.  The blocks
      returned are the ones printed (text output is not modelled). */
  method PartitionGenomes(tags: seq<int>, rs: nat, segLines: seq<seq<SegFileLine>>, chainsOf: ChainsOf)
    returns (r: Result<seq<MyBlock>>)
    requires rs < |tags| == |segLines| && tags[rs] == Species.REF
    requires forall ss, s :: 0 <= ss < |segLines| && SegRow(Some(s)) in segLines[ss] ==> s.fchrom != []
    ensures r.Ok? ==> AllSane(r.value) && Sized(r.value, |tags|)
    ensures r.Ok? ==> forall b :: 0 <= b < |r.value| ==> r.value[b].speseg[rs] == []
  {
    var spesz := |tags|;
    var segs: seq<seq<MySeg>> := [];
    for ss := 0 to spesz
      invariant |segs| == ss
      invariant forall s', k :: 0 <= s' < ss && 0 <= k < |segs[s']| ==> segs[s'][k].fchrom != []
    {
      if ss == rs {
        segs := segs + [[]];
        continue;
      }
      var read := GetMySeglist(segLines[ss]);
      if read.Fatal? {
        return Fatal(read.msg);
      }
      assert forall k :: 0 <= k < |read.value| ==> read.value[k] in read.value;
      segs := segs + [read.value];
    }
    var blocks: seq<MyBlock> := [];
    for ss := 0 to spesz
      invariant DescWf(blocks, spesz, rs)
    {
      if tags[ss] == Species.DES {
        var added, addedTrace := AddDescendentSegs(blocks, ss, segs[ss], spesz, rs, chainsOf);
        if added.Fatal? {
          return Fatal(added.msg);
        }
        blocks := added.value;
      }
    }
    assert Sized(blocks, spesz) by {
      forall b | 0 <= b < |blocks| ensures |blocks[b].speseg| == spesz {
        assert BlockOk(blocks[b], spesz, rs);
      }
    }
    var ref := blocks;
    for ss := 0 to spesz
      invariant Sized(blocks, spesz) && |blocks| == |ref|
      invariant forall b :: 0 <= b < |blocks| ==> blocks[b].speseg[rs] == []
    {
      if tags[ss] == Species.OUT {
        var added, addedTrace := AddOutgroupSegs(blocks, ss, segs[ss], spesz, chainsOf);
        if added.Fatal? {
          return Fatal(added.msg);
        }
        forall b | 0 <= b < |blocks| ensures added.value[b].speseg[rs] == [] {
          assert GrownBlock(blocks[b], added.value[b], ss);
        }
        blocks := added.value;
      }
    }
    var checked := SanityCheck(blocks);
    if checked.Fatal? {
      return Fatal(checked.msg);
    }
    r := Ok(blocks);
  }
}
