/** mergePieces (code/makeBlocks/mergePieces.c): reads a CAR file, segment lines
    grouped under "#k" headers, and merges consecutive segments of a CAR into one
    block until the pair (previous element, current element) is listed in the
    breakpoint file.  Each block is printed as species.chrom:beg-end orient followed
    by the signed element numbers it merged.

    The block being built (struct block B with the globals Order[] and Total) is the
    class PieceBlock; the breakpoint file, which is_a_bp re-reads on every call, is a
    parameter holding its lines. */
module MergePieces {
  import opened Wrappers
  import opened Species

  /** BIGNUM and Z of the source: the initial begin and the capacity of Order[]. */
  const BIGNUM := 500000000
  const Z := 5000

  /** A line of the breakpoint file: two integers, or anything else. */
  datatype BpLine = Pair(a: int, b: int) | Garbled(text: string)

  /** A line of the CAR file: a "#k" header (with its text, echoed), a segment line
      species.chrom:beg-end orient [num], or a line matching neither. */
  datatype CarIn =
    | Head(k: int, text: string)
    | Piece(spe: string, chr: string, beg: int, end: int, ori: char, num: int)
    | Garbage(text: string)

  /** A printed line: an echoed header, or a merged block with its element numbers. */
  datatype CarOut =
    | Echo(text: string)
    | Merged(species: string, chrom: string, beg: int, end: int, orient: char, order: seq<int>)

  /** The value of B with Order[0..Total). */
  datatype Pending = Pending(species: string, chrom: string, beg: int, end: int, orient: char, order: seq<int>)

  // ---------------------------------------------------------------------------
  // init_block, add_to_block, print_block (lines 15-56)

  /** B after init_block. */
  const Initial := Pending("", "", BIGNUM, 0, 'x', [])

  /** add_to_block: a segment of another species or chromosome than a non-empty block
      aborts, and so does a full Order[]; otherwise the block grows to cover the
      segment, takes its orientation and records num. */
  function Added(p: Pending, spe: string, chr: string, beg: int, end: int, ori: char, num: int): (r: Result<Pending>)
    ensures r.Ok? <==> (p.order == [] || (spe == p.species && chr == p.chrom)) && |p.order| < Z
    ensures r.Ok? ==> r.value.order == p.order + [num] && r.value.species == spe && r.value.chrom == chr
    ensures r.Ok? ==> r.value.orient == ori
    ensures r.Ok? ==> r.value.beg <= beg && r.value.beg <= p.beg && (r.value.beg == beg || r.value.beg == p.beg)
    ensures r.Ok? ==> r.value.end >= end && r.value.end >= p.end && (r.value.end == end || r.value.end == p.end)
  {
    if p.order != [] && (spe != p.species || chr != p.chrom) then Fatal("inconsistent species or chromosome")
    else if |p.order| >= Z then Fatal("Order[] overflow")
    else Ok(Pending(spe, chr, Min(p.beg, beg), Max(p.end, end), ori, p.order + [num]))
  }

  /** print_block's line for the block. */
  function Flush(p: Pending): CarOut
  {
    Merged(p.species, p.chrom, p.beg, p.end, p.orient, p.order)
  }

  // ---------------------------------------------------------------------------
  // is_a_bp (lines 58-76)

  /** The pair (a, b) lists the adjacency prev, curr, read on either strand. */
  predicate Joins(a: int, b: int, prev: int, curr: int)
  {
    (prev == a && curr == b) || (prev == -b && curr == -a)
  }

  /** is_a_bp over the lines of the breakpoint file: true at the first line listing
      the adjacency, an abort at a malformed line before it. */
  function Breaks(bps: seq<BpLine>, prev: int, curr: int): Result<bool>
  {
    if bps == [] then Ok(false)
    else match bps[0]
      case Garbled(t) => Fatal(t)
      case Pair(a, b) => if Joins(a, b, prev, curr) then Ok(true) else Breaks(bps[1..], prev, curr)
  }

  /** Every line of the breakpoint file is a pair. */
  predicate WellFormedBps(bps: seq<BpLine>)
  {
    forall j :: 0 <= j < |bps| ==> bps[j].Pair?
  }

  /** Some pair of the file lists the adjacency prev, curr. */
  predicate Listed(bps: seq<BpLine>, prev: int, curr: int)
  {
    exists j :: 0 <= j < |bps| && bps[j].Pair? && Joins(bps[j].a, bps[j].b, prev, curr)
  }

  /** With a well-formed file, is_a_bp answers exactly whether the adjacency is listed. */
  lemma {:induction false} BreaksListed(bps: seq<BpLine>, prev: int, curr: int)
    requires WellFormedBps(bps)
    ensures Breaks(bps, prev, curr) == Ok(Listed(bps, prev, curr))
  {
    if bps != [] {
      BreaksListed(bps[1..], prev, curr);
      if Listed(bps[1..], prev, curr) {
        var j :| 0 <= j < |bps[1..]| && bps[1..][j].Pair? && Joins(bps[1..][j].a, bps[1..][j].b, prev, curr);
        assert bps[j + 1] == bps[1..][j];
      }
      if Listed(bps, prev, curr) && !Joins(bps[0].a, bps[0].b, prev, curr) {
        var j :| 0 <= j < |bps| && bps[j].Pair? && Joins(bps[j].a, bps[j].b, prev, curr);
        assert bps[1..][j - 1] == bps[j];
      }
    }
  }

  /** An adjacency and its reverse complement are breakpoints alike. */
  lemma {:induction false} BreaksReversed(bps: seq<BpLine>, prev: int, curr: int)
    ensures Breaks(bps, prev, curr) == Breaks(bps, -curr, -prev)
  {
    if bps != [] {
      BreaksReversed(bps[1..], prev, curr);
    }
  }

  // ---------------------------------------------------------------------------
  // The main loop (lines 91-119)

  /** One line of the CAR file: the block afterwards and the lines printed.  A header
      prints the block when k > 1, echoes itself and starts an empty block; a segment
      line has its number negated for '-', and is added to the block, after printing
      it and starting afresh when the block is not empty and the adjacency is a
      breakpoint. */
  function StepSpec(p: Pending, line: CarIn, bps: seq<BpLine>): Result<(Pending, seq<CarOut>)>
  {
    match line
    case Head(k, text) => Ok((Initial, (if k > 1 then [Flush(p)] else []) + [Echo(text)]))
    case Garbage(text) => Fatal(text)
    case Piece(spe, chr, beg, end, ori, n) =>
      var num := if ori == '-' then -n else n;
      if p.order == [] then
        match Added(p, spe, chr, beg, end, ori, num)
        case Fatal(m) => Fatal(m)
        case Ok(q) => Ok((q, []))
      else
        match Breaks(bps, p.order[|p.order| - 1], num)
        case Fatal(m) => Fatal(m)
        case Ok(bp) =>
          match Added(if bp then Initial else p, spe, chr, beg, end, ori, num)
          case Fatal(m) => Fatal(m)
          case Ok(q) => Ok((q, if bp then [Flush(p)] else []))
  }

  /** The lines printed from block p on: each line's step, then the last block. */
  function MergeRun(p: Pending, lines: seq<CarIn>, bps: seq<BpLine>): Result<seq<CarOut>>
    decreases |lines|
  {
    if lines == [] then Ok([Flush(p)])
    else match StepSpec(p, lines[0], bps)
      case Fatal(m) => Fatal(m)
      case Ok(s) => Prefixed(s.1, MergeRun(s.0, lines[1..], bps))
  }

  // ---------------------------------------------------------------------------
  // What the merge promises

  /** No two neighbours of the order form a listed breakpoint. */
  predicate Unbroken(order: seq<int>, bps: seq<BpLine>)
  {
    forall j :: 0 < j < |order| ==> !Listed(bps, order[j - 1], order[j])
  }

  /** The merged blocks of the output. */
  predicate AllUnbroken(out: seq<CarOut>, bps: seq<BpLine>)
  {
    forall j :: 0 <= j < |out| && out[j].Merged? ==> Unbroken(out[j].order, bps)
  }

  lemma StepUnbroken(p: Pending, line: CarIn, bps: seq<BpLine>)
    requires WellFormedBps(bps) && Unbroken(p.order, bps)
    ensures StepSpec(p, line, bps).Ok? ==>
              Unbroken(StepSpec(p, line, bps).value.0.order, bps) && AllUnbroken(StepSpec(p, line, bps).value.1, bps)
  {
    if line.Piece? && p.order != [] {
      var num := if line.ori == '-' then -line.num else line.num;
      BreaksListed(bps, p.order[|p.order| - 1], num);
    }
  }

  /** No printed block merges across a listed breakpoint. */
  lemma {:induction false} MergeUnbroken(p: Pending, lines: seq<CarIn>, bps: seq<BpLine>)
    requires WellFormedBps(bps) && Unbroken(p.order, bps)
    ensures MergeRun(p, lines, bps).Ok? ==> AllUnbroken(MergeRun(p, lines, bps).value, bps)
    decreases |lines|
  {
    if lines != [] {
      StepUnbroken(p, lines[0], bps);
      var s := StepSpec(p, lines[0], bps);
      if s.Ok? {
        MergeUnbroken(s.value.0, lines[1..], bps);
        var rest := MergeRun(s.value.0, lines[1..], bps);
        if rest.Ok? {
          assert MergeRun(p, lines, bps).value == s.value.1 + rest.value;
        }
      }
    }
  }

  /** The element numbers of the merged blocks, one block after the other. */
  function Flat(out: seq<CarOut>): seq<int>
  {
    if out == [] then [] else (if out[0].Merged? then out[0].order else []) + Flat(out[1..])
  }

  lemma {:induction false} FlatAppend(a: seq<CarOut>, b: seq<CarOut>)
    ensures Flat(a + b) == Flat(a) + Flat(b)
  {
    if a != [] {
      FlatAppend(a[1..], b);
      assert (a + b)[1..] == a[1..] + b;
    } else {
      assert a + b == b;
    }
  }

  /** The signed element numbers of the segment lines. */
  function Nums(lines: seq<CarIn>): seq<int>
  {
    if lines == [] then []
    else (if lines[0].Piece? then [if lines[0].ori == '-' then -lines[0].num else lines[0].num] else []) + Nums(lines[1..])
  }

  /** Every header has k > 1, so every header prints the block before it. */
  predicate Flushing(lines: seq<CarIn>)
  {
    forall j :: 0 <= j < |lines| && lines[j].Head? ==> lines[j].k > 1
  }

  lemma StepFlat(p: Pending, line: CarIn, bps: seq<BpLine>)
    requires line.Head? ==> line.k > 1
    ensures StepSpec(p, line, bps).Ok? ==>
              var s := StepSpec(p, line, bps).value;
              Flat(s.1) + s.0.order == p.order + Nums([line])
  {
    var s := StepSpec(p, line, bps);
    if s.Ok? {
      match line
      case Head(k, text) =>
        assert Flat(s.value.1) == p.order + Flat([Echo(text)]);
      case Garbage(_) =>
      case Piece(spe, chr, beg, end, ori, n) =>
        assert Nums([line]) == [if ori == '-' then -n else n] + Nums([]);
        if |s.value.1| == 1 {
          assert Flat(s.value.1) == p.order + Flat([]);
        }
    }
  }

  /** MergeRun on a non-empty file: the first step's lines, then the rest. */
  lemma MergeUnfold(p: Pending, lines: seq<CarIn>, bps: seq<BpLine>)
    requires lines != [] && MergeRun(p, lines, bps).Ok?
    ensures StepSpec(p, lines[0], bps).Ok?
    ensures var s := StepSpec(p, lines[0], bps).value;
            MergeRun(s.0, lines[1..], bps).Ok? &&
            MergeRun(p, lines, bps).value == s.1 + MergeRun(s.0, lines[1..], bps).value
  {
  }

  lemma NumsUnfold(lines: seq<CarIn>)
    requires lines != []
    ensures Nums(lines) == Nums([lines[0]]) + Nums(lines[1..])
  {
    assert [lines[0]][1..] == [];
  }

  lemma FlatStep(o: seq<CarOut>, rest: seq<CarOut>, before: seq<int>, mid: seq<int>, first: seq<int>, later: seq<int>)
    requires Flat(o) + mid == before + first && Flat(rest) == mid + later
    ensures Flat(o + rest) == before + (first + later)
  {
    FlatAppend(o, rest);
    assert Flat(o) + (mid + later) == (Flat(o) + mid) + later;
  }

  lemma FlushingTail(lines: seq<CarIn>)
    requires lines != [] && Flushing(lines)
    ensures Flushing(lines[1..]) && (lines[0].Head? ==> lines[0].k > 1)
  {
    forall j | 0 <= j < |lines[1..]| && lines[1..][j].Head?
      ensures lines[1..][j].k > 1
    {
      assert lines[1..][j] == lines[j + 1];
    }
  }

  /** When every header prints the block before it, the printed blocks hold every
      element of the file, in order, each once. */
  lemma {:induction false} MergeFlat(p: Pending, lines: seq<CarIn>, bps: seq<BpLine>)
    requires Flushing(lines)
    ensures MergeRun(p, lines, bps).Ok? ==> Flat(MergeRun(p, lines, bps).value) == p.order + Nums(lines)
    decreases |lines|
  {
    if lines == [] {
      assert Flat([Flush(p)]) == p.order + Flat([]);
    } else if MergeRun(p, lines, bps).Ok? {
      MergeUnfold(p, lines, bps);
      FlushingTail(lines);
      var s := StepSpec(p, lines[0], bps).value;
      StepFlat(p, lines[0], bps);
      MergeFlat(s.0, lines[1..], bps);
      FlatStep(s.1, MergeRun(s.0, lines[1..], bps).value, p.order, s.0.order, Nums([lines[0]]), Nums(lines[1..]));
      NumsUnfold(lines);
    }
  }

  /** A file that opens with "#1" and numbers its later CARs from 2 is merged without
      losing or repeating an element. */
  lemma MergeFromFirst(text: string, lines: seq<CarIn>, bps: seq<BpLine>)
    requires Flushing(lines)
    ensures var r := MergeRun(Initial, [Head(1, text)] + lines, bps);
            r.Ok? ==> Flat(r.value) == Nums(lines)
  {
    var all := [Head(1, text)] + lines;
    assert all[1..] == lines;
    MergeFlat(Initial, lines, bps);
    assert Flat([Echo(text)]) == [];
    var rest := MergeRun(Initial, lines, bps);
    if rest.Ok? {
      FlatAppend([Echo(text)], rest.value);
    }
  }

  // ---------------------------------------------------------------------------
  // The program state

  class PieceBlock {
    var species: string
    var chrom: string
    var beg: int
    var end: int
    var orient: char
    /** Order[] and Total. */
    const order: array<int>
    var total: nat

    ghost predicate Valid()
      reads this
    {
      order.Length == Z && total <= Z
    }

    function Value(): Pending
      reads this, order
      requires Valid()
    {
      Pending(species, chrom, beg, end, orient, order[..total])
    }

    /** The zero-initialised globals and an unset block, taken as init_block's state. */
    constructor ()
      ensures Valid() && Value() == Initial && fresh(order)
    {
      species, chrom, beg, end, orient := "", "", BIGNUM, 0, 'x';
      order := new int[Z];
      total := 0;
    }

    /** init_block. */
    method InitBlock()
      requires Valid()
      modifies this
      ensures Valid() && Value() == Initial
    {
      species, chrom, orient, beg, end := "", "", 'x', BIGNUM, 0;
      total := 0;
    }

    /** add_to_block. */
    method AddToBlock(spe: string, chr: string, b: int, e: int, ori: char, num: int) returns (r: Result<()>)
      requires Valid()
      modifies this, order
      ensures Valid()
      ensures var a := Added(old(Value()), spe, chr, b, e, ori, num);
              (r.Ok? <==> a.Ok?) && (r.Ok? ==> Value() == a.value)
    {
      if total != 0 && (spe != species || chr != chrom) {
        return Fatal("inconsistent species or chromosome");
      }
      if total >= Z {
        return Fatal("Order[] overflow");
      }
      species, chrom := spe, chr;
      beg, end := Min(beg, b), Max(end, e);
      orient := ori;
      order[total] := num;
      total := total + 1;
      assert order[..total] == old(order[..total]) + [num];
      r := Ok(());
    }

    /** print_block: the block's line, its numbers read from Order[0..Total). */
    method PrintBlock() returns (o: CarOut)
      requires Valid()
      ensures o == Flush(Value())
    {
      var nums := [];
      var i := 0;
      while i < total
        invariant 0 <= i <= total && nums == order[..i]
      {
        nums := nums + [order[i]];
        i := i + 1;
      }
      o := Merged(species, chrom, beg, end, orient, nums);
    }

    /** is_a_bp(curr, bpfile): prev is Order[Total - 1]; the file is scanned until a
        line lists the adjacency. */
    method IsBp(curr: int, bps: seq<BpLine>) returns (r: Result<bool>)
      requires Valid() && total >= 1
      ensures r == Breaks(bps, order[total - 1], curr)
    {
      var prev := order[total - 1];
      var j := 0;
      while j < |bps|
        invariant 0 <= j <= |bps|
        invariant Breaks(bps, prev, curr) == Breaks(bps[j..], prev, curr)
      {
        assert bps[j..][1..] == bps[j + 1..];
        match bps[j]
        case Garbled(t) =>
          return Fatal(t);
        case Pair(a, b) =>
          if (prev == a && curr == b) || (prev == -b && curr == -a) {
            return Ok(true);
          }
        j := j + 1;
      }
      r := Ok(false);
    }
  }

  /** Where main stands before line k, having printed out and holding block p. */
  ghost predicate MergeState(lines: seq<CarIn>, bps: seq<BpLine>, k: nat, p: Pending, out: seq<CarOut>)
  {
    k <= |lines| && MergeRun(Initial, lines, bps) == Prefixed(out, MergeRun(p, lines[k..], bps))
  }

  lemma MergeNext(lines: seq<CarIn>, bps: seq<BpLine>, k: nat, p: Pending, out: seq<CarOut>)
    requires MergeState(lines, bps, k, p, out) && k < |lines|
    ensures var s := StepSpec(p, lines[k], bps);
            (s.Fatal? ==> MergeRun(Initial, lines, bps).Fatal?) &&
            (s.Ok? ==> MergeState(lines, bps, k + 1, s.value.0, out + s.value.1))
  {
    assert lines[k..][0] == lines[k] && lines[k..][1..] == lines[k + 1..];
    var s := StepSpec(p, lines[k], bps);
    if s.Ok? {
      var rest := MergeRun(s.value.0, lines[k + 1..], bps);
      if rest.Ok? {
        assert out + (s.value.1 + rest.value) == (out + s.value.1) + rest.value;
      }
    }
  }

  /** One line of main's loop on block b. */
  method Feed(b: PieceBlock, line: CarIn, bps: seq<BpLine>) returns (r: Result<seq<CarOut>>)
    requires b.Valid()
    modifies b, b.order
    ensures b.Valid()
    ensures var s := StepSpec(old(b.Value()), line, bps);
            (r.Ok? <==> s.Ok?) && (r.Ok? ==> b.Value() == s.value.0 && r.value == s.value.1)
  {
    match line
    case Head(k, text) =>
      var o := [];
      if k > 1 {
        var m := b.PrintBlock();
        o := [m];
      }
      b.InitBlock();
      r := Ok(o + [Echo(text)]);
    case Garbage(text) =>
      r := Fatal(text);
    case Piece(spe, chr, beg, end, ori, n) =>
      var num := if ori == '-' then -n else n;
      if b.total == 0 {
        var a := b.AddToBlock(spe, chr, beg, end, ori, num);
        r := if a.Ok? then Ok([]) else Fatal("inconsistent species or chromosome");
      } else {
        var bp := b.IsBp(num, bps);
        if bp.Fatal? {
          return Fatal(bp.msg);
        }
        var o := [];
        if bp.value {
          var m := b.PrintBlock();
          o := [m];
          b.InitBlock();
        }
        var a := b.AddToBlock(spe, chr, beg, end, ori, num);
        r := if a.Ok? then Ok(o) else Fatal(a.msg);
      }
  }

  /** mergePieces: the CAR file's lines and the breakpoint file's lines to the
      printed lines. */
  method MergePieces(lines: seq<CarIn>, bps: seq<BpLine>) returns (r: Result<seq<CarOut>>)
    ensures var spec := MergeRun(Initial, lines, bps);
            (r.Ok? <==> spec.Ok?) && (r.Ok? ==> r.value == spec.value)
  {
    var b := new PieceBlock();
    var out := [];
    var k := 0;
    assert lines[0..] == lines;
    assert MergeRun(Initial, lines, bps) == Prefixed([], MergeRun(Initial, lines, bps)) by {
      var m := MergeRun(Initial, lines, bps);
      if m.Ok? {
        assert [] + m.value == m.value;
      }
    }
    while k < |lines|
      invariant 0 <= k <= |lines| && b.Valid() && fresh(b.order)
      invariant MergeState(lines, bps, k, b.Value(), out)
    {
      MergeNext(lines, bps, k, b.Value(), out);
      var o := Feed(b, lines[k], bps);
      if o.Fatal? {
        return Fatal(o.msg);
      }
      out := out + o.value;
      k := k + 1;
    }
    var m := b.PrintBlock();
    assert lines[k..] == [];
    r := Ok(out + [m]);
  }
}
