/** createCarFile (code/makeBlocks/createCarFile.c): for every CAR (APCF) line of the
    order file, the segments of every reference or descendant species that make up its
    blocks, in CAR order.  A block listed with a negative number is read backwards:
    its reference interval is printed with '-', and any other species' segment list
    is reversed in place (the reversal stays in the block list) and printed with every
    orientation flipped.  A block number seen before is reported on stderr.

    The program's state (the block list, the val[] array of seen block numbers, the
    APCF counter, prev, stdout and stderr) is the class CarWriter; printed lines are
    values of CarLine. */
module CarFile {
  import opened Wrappers
  import opened Species
  import opened Lists

  /** A printed line: the "#n" header of APCF n (with the blank line after it), a
      segment line (species.chr:beg-end, orientation, block id), or an empty line. */
  datatype CarLine =
    | Apcf(n: int)
    | Piece(spe: string, chr: string, beg: int, end: int, orient: char, id: int)
    | Blank

  /** A line of the order file: skipped (blank, '#' or '>'), or the block numbers
      it lists before its '$'. */
  datatype OrderLine = Skip | Order(nums: seq<int>)

  // ---------------------------------------------------------------------------
  // print_block (lines 4-45)

  /** A list read backwards. */
  function Reverse<T>(l: seq<T>): (r: seq<T>)
    ensures |r| == |l|
  {
    if l == [] then [] else [l[|l| - 1]] + Reverse(l[..|l| - 1])
  }

  lemma {:induction false} ReverseAt<T>(l: seq<T>)
    ensures forall k :: 0 <= k < |l| ==> Reverse(l)[k] == l[|l| - 1 - k]
  {
    if l != [] {
      ReverseAt(l[..|l| - 1]);
    }
  }

  /** Reversing twice gives the list back. */
  lemma ReverseInvolution<T>(l: seq<T>)
    ensures Reverse(Reverse(l)) == l
  {
    ReverseAt(l);
    ReverseAt(Reverse(l));
  }

  /** The list-reversal loop of print_block: each node is unlinked from the front of what
      remains and pushed on the front of the reversed part. */
  method ReverseList(l: seq<Seg>) returns (r: seq<Seg>)
    ensures r == Reverse(l)
  {
    r := [];
    var rest := l;
    var k := 0;
    while rest != []
      invariant 0 <= k <= |l| && rest == l[k..] && r == Reverse(l[..k])
      decreases |rest|
    {
      assert l[..k + 1][..k] == l[..k];
      r := [rest[0]] + r;
      rest := rest[1..];
      k := k + 1;
    }
    assert l[..k] == l;
  }

  function HasId(id: int): (f: Block -> bool)
    ensures forall b: Block :: f(b) == (b.id == id)
  {
    (b: Block) => b.id == id
  }

  /** The segment lines of a list printed for block id: orientations as they are for a
      positive number, flipped otherwise. */
  function Pieces(name: string, l: seq<Seg>, forward: bool, id: int): (r: seq<CarLine>)
    ensures |r| == |l|
  {
    seq(|l|, k requires 0 <= k < |l| =>
      Piece(name, l[k].chr, l[k].beg, l[k].end, if forward then l[k].orient else Ort(l[k].orient), id))
  }

  /** The printing loop of print_block over a segment list. */
  method PieceLines(name: string, l: seq<Seg>, forward: bool, id: int) returns (o: seq<CarLine>)
    ensures o == Pieces(name, l, forward, id)
  {
    o := [];
    var k := 0;
    while k < |l|
      invariant 0 <= k <= |l| && o == Pieces(name, l, forward, id)[..k]
    {
      var s := l[k];
      o := o + [Piece(name, s.chr, s.beg, s.end, if forward then s.orient else Ort(s.orient), id)];
      k := k + 1;
    }
  }

  /** print_block(t, blocks, id): the block list afterwards and the lines printed.
      Only the first block with id |id| is used and nothing happens without one;
      ref_spe_idx aborts without a reference, and an empty reference list is a NULL
      dereference, here an abort. */
  function PrintBlockSpec(cfg: Config, ref: Result<nat>, blocks: seq<Block>, t: nat, id: int)
    : (r: Result<(seq<Block>, seq<CarLine>)>)
    requires cfg.WellFormed() && Shaped(blocks, |cfg.names|) && t < |cfg.names|
    ensures r.Ok? ==> |r.value.0| == |blocks| && Shaped(r.value.0, |cfg.names|) &&
                      forall b :: 0 <= b < |blocks| ==> r.value.0[b].id == blocks[b].id
  {
    match Find(blocks, HasId(Abs(id)))
    case None => Ok((blocks, []))
    case Some(b) =>
      if ref.Fatal? then Fatal(ref.msg)
      else if t == ref.value then
        if blocks[b].speseg[t] == [] then Fatal("NULL dereference: no reference segment")
        else
          var s := blocks[b].speseg[t][0];
          Ok((blocks, [Piece(cfg.names[t], s.chr, s.beg, s.end, if id > 0 then '+' else '-', blocks[b].id)]))
      else
        var l := if id > 0 then blocks[b].speseg[t] else Reverse(blocks[b].speseg[t]);
        Ok((blocks[b := blocks[b].(speseg := blocks[b].speseg[t := l])],
            Pieces(cfg.names[t], l, id > 0, blocks[b].id)))
  }

  /** For a negative number, a species other than the reference prints the block's
      list from tail to head, each orientation flipped, and the block keeps the list
      reversed. */
  lemma NegativeReadsBackwards(cfg: Config, ref: Result<nat>, blocks: seq<Block>, t: nat, id: int, b: nat)
    requires cfg.WellFormed() && Shaped(blocks, |cfg.names|) && t < |cfg.names|
    requires id < 0 && ref.Ok? && t != ref.value && Find(blocks, HasId(Abs(id))) == Some(b)
    ensures var r := PrintBlockSpec(cfg, ref, blocks, t, id);
            var l := blocks[b].speseg[t];
            r.Ok? && |r.value.1| == |l| &&
            r.value.0[b].speseg[t] == Reverse(l) &&
            forall k :: 0 <= k < |l| ==>
              r.value.1[k] == Piece(cfg.names[t], l[|l| - 1 - k].chr, l[|l| - 1 - k].beg,
                                    l[|l| - 1 - k].end, Ort(l[|l| - 1 - k].orient), Abs(id))
  {
    ReverseAt(blocks[b].speseg[t]);
  }

  /** The reversal persists: printing a block with a negative number twice for the
      same species puts its list back as it was. */
  lemma ReversalPersists(cfg: Config, ref: Result<nat>, blocks: seq<Block>, t: nat, id: int, id': int)
    requires cfg.WellFormed() && Shaped(blocks, |cfg.names|) && t < |cfg.names|
    requires id <= 0 && id' <= 0 && Abs(id) == Abs(id')
    requires PrintBlockSpec(cfg, ref, blocks, t, id).Ok?
    ensures var once := PrintBlockSpec(cfg, ref, blocks, t, id).value.0;
            var twice := PrintBlockSpec(cfg, ref, once, t, id');
            twice.Ok? && twice.value.0 == blocks
  {
    var once := PrintBlockSpec(cfg, ref, blocks, t, id).value.0;
    match Find(blocks, HasId(Abs(id)))
    case None =>
      assert once == blocks;
    case Some(b) =>
      if ref.Ok? && t != ref.value {
        assert Find(once, HasId(Abs(id'))) == Some(b);
        ReverseInvolution(blocks[b].speseg[t]);
        assert once[b].speseg[t := Reverse(once[b].speseg[t])] == blocks[b].speseg;
      }
  }

  // ---------------------------------------------------------------------------
  // One species' pass over an order line, and the whole order file (lines 67-93)

  /** The block numbers of a line, printed one after the other for species t, then
      the empty line.  A number whose magnitude is not below MAXORDER indexes past
      val[]; here that aborts. */
  function PrintRun(cfg: Config, ref: Result<nat>, blocks: seq<Block>, t: nat, nums: seq<int>)
    : (r: Result<(seq<Block>, seq<CarLine>)>)
    requires cfg.WellFormed() && Shaped(blocks, |cfg.names|) && t < |cfg.names|
    ensures r.Ok? ==> |r.value.0| == |blocks| && Shaped(r.value.0, |cfg.names|)
    decreases |nums|
  {
    if nums == [] then Ok((blocks, [Blank]))
    else if Abs(nums[0]) >= MAXORDER then Fatal("block number out of range")
    else match PrintBlockSpec(cfg, ref, blocks, t, nums[0])
      case Fatal(m) => Fatal(m)
      case Ok(p) => Prepend(p.1, PrintRun(cfg, ref, p.0, t, nums[1..]))
  }

  /** r with lines o printed before its own. */
  function Prepend(o: seq<CarLine>, r: Result<(seq<Block>, seq<CarLine>)>): (r': Result<(seq<Block>, seq<CarLine>)>)
    ensures r'.Ok? <==> r.Ok?
    ensures r.Ok? ==> r'.value.0 == r.value.0
  {
    match r
    case Fatal(m) => Fatal(m)
    case Ok(p) => Ok((p.0, o + p.1))
  }

  /** What PrintLine has printed after k numbers: d since it began with blocks b0 and
      stdout o0, leaving blocks and out. */
  ghost predicate PrintState(cfg: Config, ref: Result<nat>, t: nat, nums: seq<int>, k: nat, b0: seq<Block>,
                             o0: seq<CarLine>, d: seq<CarLine>, blocks: seq<Block>, out: seq<CarLine>)
  {
    cfg.WellFormed() && Shaped(b0, |cfg.names|) && Shaped(blocks, |cfg.names|) &&
    t < |cfg.names| && k <= |nums| &&
    out == o0 + d &&
    PrintRun(cfg, ref, b0, t, nums) == Prepend(d, PrintRun(cfg, ref, blocks, t, nums[k..]))
  }

  /** What SpeciesPass has printed before species i: d since it began with blocks b0
      and stdout o0, leaving blocks and out. */
  ghost predicate RunState(cfg: Config, ref: Result<nat>, nums: seq<int>, i: nat, b0: seq<Block>,
                           o0: seq<CarLine>, d: seq<CarLine>, blocks: seq<Block>, out: seq<CarLine>)
  {
    cfg.WellFormed() && Shaped(b0, |cfg.names|) && Shaped(blocks, |cfg.names|) && i <= |cfg.names| &&
    out == o0 + d &&
    SpeciesRun(cfg, ref, b0, nums, 0) == Prepend(d, SpeciesRun(cfg, ref, blocks, nums, i))
  }

  /** Where PrintLine stands after number k, given where it stood before it. */
  lemma RunNext(cfg: Config, ref: Result<nat>, t: nat, nums: seq<int>, k: nat, b0: seq<Block>,
                o0: seq<CarLine>, d: seq<CarLine>, blocks: seq<Block>, out: seq<CarLine>)
    requires PrintState(cfg, ref, t, nums, k, b0, o0, d, blocks, out) && k < |nums| && Abs(nums[k]) < MAXORDER
    ensures var p := PrintBlockSpec(cfg, ref, blocks, t, nums[k]);
            (p.Fatal? ==> PrintRun(cfg, ref, b0, t, nums).Fatal?) &&
            (p.Ok? ==> PrintState(cfg, ref, t, nums, k + 1, b0, o0, d + p.value.1, p.value.0, out + p.value.1))
  {
    RunAt(cfg, ref, blocks, t, nums, k);
    var p := PrintBlockSpec(cfg, ref, blocks, t, nums[k]);
    if p.Ok? {
      PrependPrepend(d, p.value.1, PrintRun(cfg, ref, p.value.0, t, nums[k + 1..]));
    }
  }

  /** SpeciesRun from species i: species i, then the others. */
  lemma SpeciesAt(cfg: Config, ref: Result<nat>, blocks: seq<Block>, nums: seq<int>, i: nat)
    requires cfg.WellFormed() && Shaped(blocks, |cfg.names|) && i < |cfg.names|
    ensures cfg.tags[i] == OUT ==> SpeciesRun(cfg, ref, blocks, nums, i) == SpeciesRun(cfg, ref, blocks, nums, i + 1)
    ensures cfg.tags[i] != OUT ==>
              var p := PrintRun(cfg, ref, blocks, i, nums);
              (p.Fatal? ==> SpeciesRun(cfg, ref, blocks, nums, i).Fatal?) &&
              (p.Ok? ==> SpeciesRun(cfg, ref, blocks, nums, i) ==
                         Prepend(p.value.1, SpeciesRun(cfg, ref, p.value.0, nums, i + 1)))
  {
  }

  /** Where SpeciesPass stands after species i, not an outgroup, given where it
      stood before it. */
  lemma SpeciesNext(cfg: Config, ref: Result<nat>, nums: seq<int>, i: nat, b0: seq<Block>,
                    o0: seq<CarLine>, d: seq<CarLine>, blocks: seq<Block>, out: seq<CarLine>)
    requires RunState(cfg, ref, nums, i, b0, o0, d, blocks, out) && i < |cfg.names| && cfg.tags[i] != OUT
    ensures var p := PrintRun(cfg, ref, blocks, i, nums);
            (p.Fatal? ==> SpeciesRun(cfg, ref, b0, nums, 0).Fatal?) &&
            (p.Ok? ==> RunState(cfg, ref, nums, i + 1, b0, o0, d + p.value.1, p.value.0, out + p.value.1))
  {
    var p := PrintRun(cfg, ref, blocks, i, nums);
    if p.Ok? {
      var rest := SpeciesRun(cfg, ref, p.value.0, nums, i + 1);
      assert SpeciesRun(cfg, ref, blocks, nums, i) == Prepend(p.value.1, rest);
      PrependPrepend(d, p.value.1, rest);
    } else {
      assert SpeciesRun(cfg, ref, blocks, nums, i).Fatal?;
    }
  }

  /** Some species before i + 1 is not an outgroup. */
  lemma PrintingStep(tags: seq<int>, i: nat)
    requires i < |tags|
    ensures Printing(tags[..i + 1]) == (Printing(tags[..i]) || tags[i] != OUT)
  {
    assert tags[..i + 1][i] == tags[i];
    if Printing(tags[..i]) {
      var j :| 0 <= j < i && tags[..i][j] != OUT;
      assert tags[..i + 1][j] == tags[j];
    }
  }

  /** PrintRun from number k: number k, then the rest. */
  lemma RunAt(cfg: Config, ref: Result<nat>, blocks: seq<Block>, t: nat, nums: seq<int>, k: nat)
    requires cfg.WellFormed() && Shaped(blocks, |cfg.names|) && t < |cfg.names| && k < |nums|
    ensures Abs(nums[k]) >= MAXORDER ==> PrintRun(cfg, ref, blocks, t, nums[k..]).Fatal?
    ensures Abs(nums[k]) < MAXORDER ==>
              var p := PrintBlockSpec(cfg, ref, blocks, t, nums[k]);
              (p.Fatal? ==> PrintRun(cfg, ref, blocks, t, nums[k..]).Fatal?) &&
              (p.Ok? ==> PrintRun(cfg, ref, blocks, t, nums[k..]) ==
                         Prepend(p.value.1, PrintRun(cfg, ref, p.value.0, t, nums[k + 1..])))
  {
    assert nums[k..][0] == nums[k] && nums[k..][1..] == nums[k + 1..];
  }

  lemma PrependNothing(r: Result<(seq<Block>, seq<CarLine>)>)
    ensures Prepend([], r) == r
  {
    if r.Ok? {
      assert [] + r.value.1 == r.value.1;
    }
  }

  lemma PrependPrepend(a: seq<CarLine>, b: seq<CarLine>, r: Result<(seq<Block>, seq<CarLine>)>)
    ensures Prepend(a, Prepend(b, r)) == Prepend(a + b, r)
  {
    if r.Ok? {
      assert a + (b + r.value.1) == (a + b) + r.value.1;
    }
  }

  /** Species i, i + 1, ... that are not outgroups each print the line's blocks. */
  function SpeciesRun(cfg: Config, ref: Result<nat>, blocks: seq<Block>, nums: seq<int>, i: nat)
    : (r: Result<(seq<Block>, seq<CarLine>)>)
    requires cfg.WellFormed() && Shaped(blocks, |cfg.names|) && i <= |cfg.names|
    ensures r.Ok? ==> |r.value.0| == |blocks| && Shaped(r.value.0, |cfg.names|)
    decreases |cfg.names| - i
  {
    if i == |cfg.names| then Ok((blocks, []))
    else if cfg.tags[i] == OUT then SpeciesRun(cfg, ref, blocks, nums, i + 1)
    else match PrintRun(cfg, ref, blocks, i, nums)
      case Fatal(m) => Fatal(m)
      case Ok(p) => Prepend(p.1, SpeciesRun(cfg, ref, p.0, nums, i + 1))
  }

  /** The order lines from APCF number c on: each prints its header, then every
      species' pass. */
  function CarRun(cfg: Config, ref: Result<nat>, blocks: seq<Block>, orders: seq<seq<int>>, c: int)
    : (r: Result<(seq<Block>, seq<CarLine>)>)
    requires cfg.WellFormed() && Shaped(blocks, |cfg.names|)
    decreases |orders|
  {
    if orders == [] then Ok((blocks, []))
    else match SpeciesRun(cfg, ref, blocks, orders[0], 0)
      case Fatal(m) => Fatal(m)
      case Ok(p) => Prepend([Apcf(c)] + p.1, CarRun(cfg, ref, p.0, orders[1..], c + 1))
  }

  /** The order lines that are not skipped. */
  function Orders(car: seq<OrderLine>): (r: seq<seq<int>>)
    ensures |r| <= |car|
  {
    if car == [] then []
    else Orders(car[..|car| - 1]) + (match car[|car| - 1] case Skip => [] case Order(nums) => [nums])
  }

  // ---------------------------------------------------------------------------
  // The duplicate check (lines 75-79)

  /** The magnitudes of the numbers. */
  function Mags(nums: seq<int>): set<int>
  {
    if nums == [] then {} else Mags(nums[..|nums| - 1]) + {Abs(nums[|nums| - 1])}
  }

  /** The magnitudes of every number of the lines. */
  function AllMags(orders: seq<seq<int>>): set<int>
  {
    if orders == [] then {} else AllMags(orders[..|orders| - 1]) + Mags(orders[|orders| - 1])
  }

  /** The warnings of APCF c: each number whose magnitude was seen before (on an
      earlier line, or earlier on this one), with c. */
  function LineWarnings(seen: set<int>, nums: seq<int>, c: int): (w: seq<(int, int)>)
    ensures |w| <= |nums|
  {
    if nums == [] then []
    else
      var last := nums[|nums| - 1];
      LineWarnings(seen, nums[..|nums| - 1], c) +
      (if Abs(last) in seen + Mags(nums[..|nums| - 1]) then [(last, c)] else [])
  }

  /** Mags and LineWarnings one number further. */
  lemma LineStep(seen: set<int>, nums: seq<int>, k: nat, c: int)
    requires k < |nums|
    ensures Mags(nums[..k + 1]) == Mags(nums[..k]) + {Abs(nums[k])}
    ensures LineWarnings(seen, nums[..k + 1], c) ==
            LineWarnings(seen, nums[..k], c) + (if Abs(nums[k]) in seen + Mags(nums[..k]) then [(nums[k], c)] else [])
  {
    assert nums[..k + 1][..k] == nums[..k];
  }

  /** The warnings of the whole order file, APCF by APCF. */
  function Warnings(orders: seq<seq<int>>): seq<(int, int)>
  {
    if orders == [] then []
    else Warnings(orders[..|orders| - 1]) +
         LineWarnings(AllMags(orders[..|orders| - 1]), orders[|orders| - 1], |orders|)
  }

  /** The number at k repeats a magnitude seen before it. */
  predicate Repeated(seen: set<int>, nums: seq<int>, k: nat)
    requires k < |nums|
  {
    Abs(nums[k]) in seen + Mags(nums[..k])
  }

  /** Every warning names a repeated number of APCF c. */
  lemma {:induction false} WarningsRepeated(seen: set<int>, nums: seq<int>, c: int)
    ensures forall w :: w in LineWarnings(seen, nums, c) ==>
              w.1 == c && exists k :: 0 <= k < |nums| && w.0 == nums[k] && Repeated(seen, nums, k)
  {
    if nums != [] {
      var n := |nums| - 1;
      var init := nums[..n];
      WarningsRepeated(seen, init, c);
      forall w | w in LineWarnings(seen, nums, c)
        ensures w.1 == c && exists k :: 0 <= k < |nums| && w.0 == nums[k] && Repeated(seen, nums, k)
      {
        if w in LineWarnings(seen, init, c) {
          var k :| 0 <= k < |init| && w.0 == init[k] && Repeated(seen, init, k);
          assert init[..k] == nums[..k];
        } else {
          assert Repeated(seen, nums, n);
        }
      }
    }
  }

  /** Every repeated number of APCF c is warned about. */
  lemma {:induction false} RepeatedWarned(seen: set<int>, nums: seq<int>, c: int)
    ensures forall k :: 0 <= k < |nums| && Repeated(seen, nums, k) ==> (nums[k], c) in LineWarnings(seen, nums, c)
  {
    if nums != [] {
      var n := |nums| - 1;
      var init := nums[..n];
      RepeatedWarned(seen, init, c);
      forall k | 0 <= k < |nums| && Repeated(seen, nums, k)
        ensures (nums[k], c) in LineWarnings(seen, nums, c)
      {
        if k < n {
          assert init[..k] == nums[..k];
          assert Repeated(seen, init, k);
        }
      }
    }
  }

  // ---------------------------------------------------------------------------
  // The program state

  class CarWriter {
    const cfg: Config
    /** What ref_spe_idx returns, or its abort. */
    const ref: Result<nat>
    var blocks: seq<Block>
    /** val[]: 1 at the magnitude of every block number seen. */
    const val: array<int>
    /** The magnitudes val[] marks. */
    ghost var seen: set<int>
    /** The APCF counter and the APCF of the last species pass. */
    var count: int
    var prev: int
    /** stdout and stderr. */
    var out: seq<CarLine>
    var warnings: seq<(int, int)>

    ghost predicate Valid()
      reads this, val
    {
      cfg.WellFormed() && Shaped(blocks, |cfg.names|) && val.Length == MAXORDER &&
      (forall x :: 0 <= x < val.Length ==> (val[x] != 0 <==> x in seen)) &&
      (forall x :: x in seen ==> 0 <= x < val.Length)
    }

    /** The state at the start of main: val[] all 0, count 0, prev -1, nothing
        printed. */
    constructor (cfg: Config, ref: Result<nat>, blocks: seq<Block>)
      requires cfg.WellFormed() && Shaped(blocks, |cfg.names|)
      ensures Valid() && fresh(val)
      ensures this.cfg == cfg && this.ref == ref && this.blocks == blocks
      ensures seen == {} && count == 0 && prev == -1 && out == [] && warnings == []
    {
      this.cfg := cfg;
      this.ref := ref;
      this.blocks := blocks;
      val := new int[MAXORDER](_ => 0);
      seen := {};
      count := 0;
      prev := -1;
      out := [];
      warnings := [];
    }

    /** The duplicate check for one number: a warning when its magnitude was seen
        and this is the line's first species pass, otherwise val[] marks it. */
    method Check(num: int)
      requires Valid() && Abs(num) < MAXORDER
      modifies this, val
      ensures Valid()
      ensures blocks == old(blocks) && out == old(out) && count == old(count) && prev == old(prev)
      ensures seen == old(seen) + {Abs(num)}
      ensures warnings == old(warnings) + (if Abs(num) in old(seen) && prev != count then [(num, count)] else [])
    {
      if val[Abs(num)] != 0 && prev != count {
        warnings := warnings + [(num, count)];
      } else {
        val[Abs(num)] := 1;
        seen := seen + {Abs(num)};
      }
    }

    /** print_block(t, blocks, id) on the writer's block list. */
    method PrintBlock(t: nat, id: int) returns (r: Result<()>)
      requires Valid() && t < |cfg.names|
      modifies this
      ensures Valid()
      ensures seen == old(seen) && count == old(count) && prev == old(prev) && warnings == old(warnings)
      ensures var spec := PrintBlockSpec(cfg, ref, old(blocks), t, id);
              (r.Ok? <==> spec.Ok?) &&
              (r.Ok? ==> blocks == spec.value.0 && out == old(out) + spec.value.1)
      ensures r.Fatal? ==> out == old(out)
    {
      var found := FindBlock(blocks, Abs(id));
      assert found == Find(blocks, HasId(Abs(id)));
      match found
      case None =>
        r := Ok(());
      case Some(b) =>
        if ref.Fatal? {
          return Fatal(ref.msg);
        }
        var name, bid := cfg.names[t], blocks[b].id;
        if t == ref.value {
          if blocks[b].speseg[t] == [] {
            return Fatal("NULL dereference: no reference segment");
          }
          var s := blocks[b].speseg[t][0];
          out := out + [Piece(name, s.chr, s.beg, s.end, if id > 0 then '+' else '-', bid)];
        } else {
          var l := blocks[b].speseg[t];
          if id <= 0 {
            l := ReverseList(l);
            blocks := blocks[b := blocks[b].(speseg := blocks[b].speseg[t := l])];
          } else {
            assert blocks[b].speseg[t := l] == blocks[b].speseg;
          }
          var o := PieceLines(name, l, id > 0, bid);
          out := out + o;
        }
        r := Ok(());
    }

    /** One species' pass over the numbers of a line: for each, the duplicate check
        and print_block; then the empty line, and prev catches up with count. */
    method PrintLine(t: nat, nums: seq<int>) returns (r: Result<()>)
      requires Valid() && t < |cfg.names|
      modifies this, val
      ensures Valid() && count == old(count)
      ensures var spec := PrintRun(cfg, ref, old(blocks), t, nums);
              (r.Ok? <==> spec.Ok?) &&
              (r.Ok? ==> blocks == spec.value.0 && out == old(out) + spec.value.1)
      ensures r.Ok? ==> prev == count && seen == old(seen) + Mags(nums)
      ensures r.Ok? ==>
                warnings == old(warnings) + (if old(prev) != count then LineWarnings(old(seen), nums, count) else [])
    {
      ghost var d;
      r, d := PrintNumbers(t, nums);
      if r.Fatal? {
        return;
      }
      assert nums[..|nums|] == nums && nums[|nums|..] == [];
      PrependPrepend(d, [Blank], Ok((blocks, [])));
      out := out + [Blank];
      prev := count;
    }

    /** PrintLine's loop over the numbers; d is what it prints. */
    method PrintNumbers(t: nat, nums: seq<int>) returns (r: Result<()>, ghost d: seq<CarLine>)
      requires Valid() && t < |cfg.names|
      modifies this, val
      ensures Valid() && count == old(count) && prev == old(prev)
      ensures r.Fatal? ==> PrintRun(cfg, ref, old(blocks), t, nums).Fatal?
      ensures r.Ok? ==> PrintState(cfg, ref, t, nums, |nums|, old(blocks), old(out), d, blocks, out)
      ensures r.Ok? ==> CheckState(nums, |nums|, old(seen), old(warnings), old(prev) != count, count)
    {
      var k := 0;
      d := [];
      ghost var first := prev != count;
      PrependNothing(PrintRun(cfg, ref, blocks, t, nums));
      while k < |nums|
        invariant 0 <= k <= |nums| && Valid() && count == old(count) && prev == old(prev)
        invariant PrintState(cfg, ref, t, nums, k, old(blocks), old(out), d, blocks, out)
        invariant CheckState(nums, k, old(seen), old(warnings), first, count)
      {
        var num := nums[k];
        if Abs(num) >= MAXORDER {
          RunAt(cfg, ref, blocks, t, nums, k);
          return Fatal("block number out of range"), d;
        }
        CheckStep(nums, k, old(seen), old(warnings), first);
        r, d := PrintStep(t, nums, k, old(blocks), old(out), d);
        if r.Fatal? {
          return;
        }
        k := k + 1;
      }
      r := Ok(());
    }

    /** What the duplicate checks of PrintLine have done after k numbers, since val[]
        marked s0 and stderr held w0; first when this is the line's first pass. */
    ghost predicate CheckState(nums: seq<int>, k: nat, s0: set<int>, w0: seq<(int, int)>, first: bool, c: int)
      reads this`seen, this`warnings
    {
      k <= |nums| &&
      seen == s0 + Mags(nums[..k]) &&
      warnings == w0 + (if first then LineWarnings(s0, nums[..k], c) else [])
    }

    /** The duplicate check of number k. */
    method CheckStep(nums: seq<int>, k: nat, ghost s0: set<int>, ghost w0: seq<(int, int)>, ghost first: bool)
      requires Valid() && k < |nums| && Abs(nums[k]) < MAXORDER
      requires first == (prev != count) && CheckState(nums, k, s0, w0, first, count)
      modifies this, val
      ensures Valid() && CheckState(nums, k + 1, s0, w0, first, count)
      ensures blocks == old(blocks) && out == old(out) && count == old(count) && prev == old(prev)
    {
      Check(nums[k]);
      LineStep(s0, nums, k, count);
    }

    /** print_block for number k. */
    method PrintStep(t: nat, nums: seq<int>, k: nat, ghost b0: seq<Block>, ghost o0: seq<CarLine>, ghost d: seq<CarLine>)
      returns (r: Result<()>, ghost d': seq<CarLine>)
      requires Valid() && k < |nums| && Abs(nums[k]) < MAXORDER && PrintState(cfg, ref, t, nums, k, b0, o0, d, blocks, out)
      modifies this
      ensures Valid() && seen == old(seen) && warnings == old(warnings)
      ensures count == old(count) && prev == old(prev)
      ensures r.Fatal? ==> PrintRun(cfg, ref, b0, t, nums).Fatal?
      ensures r.Ok? ==> PrintState(cfg, ref, t, nums, k + 1, b0, o0, d', blocks, out)
    {
      RunNext(cfg, ref, t, nums, k, b0, o0, d, blocks, out);
      ghost var p := PrintBlockSpec(cfg, ref, blocks, t, nums[k]);
      r := PrintBlock(t, nums[k]);
      d' := if p.Ok? then d + p.value.1 else d;
    }

    /** The species loop of main for one order line: every species that is not an
        outgroup prints the line's blocks, the first of them with duplicate checks. */
    method SpeciesPass(nums: seq<int>) returns (r: Result<()>)
      requires Valid() && prev != count
      modifies this, val
      ensures Valid() && count == old(count)
      ensures var spec := SpeciesRun(cfg, ref, old(blocks), nums, 0);
              (r.Ok? <==> spec.Ok?) &&
              (r.Ok? ==> blocks == spec.value.0 && out == old(out) + spec.value.1)
      ensures r.Ok? && Printing(cfg.tags) ==>
                prev == count && seen == old(seen) + Mags(nums) &&
                warnings == old(warnings) + LineWarnings(old(seen), nums, count)
      ensures r.Ok? && !Printing(cfg.tags) ==>
                prev == old(prev) && seen == old(seen) && warnings == old(warnings)
    {
      var i := 0;
      ghost var d: seq<CarLine> := [];
      PrependNothing(SpeciesRun(cfg, ref, blocks, nums, 0));
      assert cfg.tags[..0] == [];
      while i < |cfg.names|
        invariant 0 <= i <= |cfg.names| && Valid() && count == old(count)
        invariant RunState(cfg, ref, nums, i, old(blocks), old(out), d, blocks, out)
        invariant TrackState(nums, old(seen), old(warnings), old(prev), Printing(cfg.tags[..i]))
      {
        PrintingStep(cfg.tags, i);
        if cfg.tags[i] != OUT {
          r, d := PassStep(nums, i, old(blocks), old(out), d);
          if r.Fatal? {
            return;
          }
        } else {
          SpeciesAt(cfg, ref, blocks, nums, i);
        }
        i := i + 1;
      }
      assert cfg.tags[..i] == cfg.tags;
      r := Ok(());
    }

    /** The duplicate checks of SpeciesPass, since val[] marked s0, stderr held w0 and
        prev was p0: done by the first species that printed, if any. */
    ghost predicate TrackState(nums: seq<int>, s0: set<int>, w0: seq<(int, int)>, p0: int, printed: bool)
      reads this`prev, this`count, this`seen, this`warnings
    {
      (printed ==> prev == count && seen == s0 + Mags(nums) && warnings == w0 + LineWarnings(s0, nums, count)) &&
      (!printed ==> prev == p0 && p0 != count && seen == s0 && warnings == w0)
    }

    /** The species loop's body for species i, which is not an outgroup. */
    method PassStep(nums: seq<int>, i: nat, ghost b0: seq<Block>, ghost o0: seq<CarLine>, ghost d: seq<CarLine>)
      returns (r: Result<()>, ghost d': seq<CarLine>)
      requires Valid() && i < |cfg.names| && cfg.tags[i] != OUT && RunState(cfg, ref, nums, i, b0, o0, d, blocks, out)
      modifies this, val
      ensures Valid() && count == old(count)
      ensures r.Fatal? ==> SpeciesRun(cfg, ref, b0, nums, 0).Fatal?
      ensures r.Ok? ==> RunState(cfg, ref, nums, i + 1, b0, o0, d', blocks, out) && prev == count
      ensures r.Ok? ==> seen == old(seen) + Mags(nums)
      ensures r.Ok? ==> warnings == old(warnings) + (if old(prev) != count then LineWarnings(old(seen), nums, count) else [])
    {
      SpeciesNext(cfg, ref, nums, i, b0, o0, d, blocks, out);
      ghost var p := PrintRun(cfg, ref, blocks, i, nums);
      r := PrintLine(i, nums);
      d' := if p.Ok? then d + p.value.1 else d;
    }

    /** One order line of main: the APCF header, the species loop, and prev set to
        the new count. */
    method OrderLinePass(nums: seq<int>) returns (r: Result<()>)
      requires Valid() && prev <= count
      modifies this, val
      ensures Valid() && count == old(count) + 1 && prev == count
      ensures var spec := SpeciesRun(cfg, ref, old(blocks), nums, 0);
              (r.Ok? <==> spec.Ok?) &&
              (r.Ok? ==> blocks == spec.value.0 && out == old(out) + [Apcf(count)] + spec.value.1)
      ensures r.Ok? && Printing(cfg.tags) ==>
                seen == old(seen) + Mags(nums) && warnings == old(warnings) + LineWarnings(old(seen), nums, count)
      ensures r.Ok? && !Printing(cfg.tags) ==> seen == old(seen) && warnings == old(warnings)
    {
      count := count + 1;
      out := out + [Apcf(count)];
      r := SpeciesPass(nums);
      prev := count;
    }

    /** The counter, val[] and stderr as main leaves them after the order lines done. */
    ghost predicate Tracks(done: seq<seq<int>>)
      reads this
    {
      count == |done| &&
      (Printing(cfg.tags) ==> seen == AllMags(done) && warnings == Warnings(done)) &&
      (!Printing(cfg.tags) ==> seen == {} && warnings == [])
    }

    /** main's loop body for order-file line k, the printing having started with the
        block list b0. */
    method ReadLine(car: seq<OrderLine>, k: nat, ghost b0: seq<Block>) returns (r: Result<()>)
      requires Valid() && prev <= count && k < |car| && Tracks(Orders(car[..k]))
      requires CarState(cfg, ref, b0, car, k, blocks, out, count)
      modifies this, val
      ensures Valid() && prev <= count
      ensures r.Ok? ==> Tracks(Orders(car[..k + 1])) && CarState(cfg, ref, b0, car, k + 1, blocks, out, count)
      ensures r.Fatal? ==> CarRun(cfg, ref, b0, Orders(car), 1).Fatal?
    {
      CarNext(cfg, ref, b0, car, k, blocks, out, count);
      OrdersStep(car, k);
      if car[k].Skip? {
        assert Orders([car[k]]) == [];
        assert Orders(car[..k]) + [] == Orders(car[..k]);
        return Ok(());
      }
      var nums := car[k].nums;
      assert Orders([car[k]]) == [nums];
      r := OrderLinePass(nums);
      if r.Ok? {
        WarningsStep(Orders(car[..k]), nums);
      }
    }
  }

  /** Some species is not an outgroup, so main prints (and checks) order lines. */
  predicate Printing(tags: seq<int>)
  {
    exists i :: 0 <= i < |tags| && tags[i] != OUT
  }

  // ---------------------------------------------------------------------------
  // main (lines 47-99)

  /** createCarFile: the block list read from the conserved-segment file, then every
      order line printed; the results are stdout, the warnings on stderr and the
      number of APCFs. */
  method CreateCarFile(cfg: Config, lines: seq<BlockLine>, car: seq<OrderLine>)
    returns (r: Result<(seq<CarLine>, seq<(int, int)>, int)>)
    requires cfg.WellFormed()
    ensures r.Ok? ==> LinesOk(lines, cfg.names)
    ensures r.Ok? ==> r.value.2 == |Orders(car)|
    ensures r.Ok? ==> r.value.1 == if Printing(cfg.tags) then Warnings(Orders(car)) else []
    ensures r.Ok? ==> ReadBlocks(lines, cfg.names).Some?
    ensures r.Ok? <==> (ReadBlocks(lines, cfg.names).Some? &&
                        CarRun(cfg, RefOf(cfg.tags), ReadBlocks(lines, cfg.names).value, Orders(car), 1).Ok?)
    ensures r.Ok? ==> r.value.0 == CarRun(cfg, RefOf(cfg.tags), ReadBlocks(lines, cfg.names).value, Orders(car), 1).value.1
  {
    var list := GetBlockList(lines, cfg.names);
    if list.Fatal? {
      return Fatal(list.msg);
    }
    var ref := RefSpeIdx(cfg);
    var w := new CarWriter(cfg, ref, list.value);
    var k := 0;
    assert car[k..] == car;
    PrependNothing(CarRun(cfg, ref, list.value, Orders(car), 1));
    while k < |car|
      invariant 0 <= k <= |car| && w.Valid() && fresh(w.val)
      invariant w.cfg == cfg && w.ref == ref && w.prev <= w.count
      invariant w.Tracks(Orders(car[..k]))
      invariant CarState(cfg, ref, list.value, car, k, w.blocks, w.out, w.count)
    {
      var p := w.ReadLine(car, k, list.value);
      if p.Fatal? {
        return Fatal(p.msg);
      }
      k := k + 1;
    }
    assert car[..k] == car && car[k..] == [];
    assert w.out + [] == w.out;
    r := Ok((w.out, w.warnings, w.count));
  }

  /** Where main stands before order-file line k: it began with block list b0 and has
      printed out, leaving blocks, with count APCFs so far. */
  ghost predicate CarState(cfg: Config, ref: Result<nat>, b0: seq<Block>, car: seq<OrderLine>, k: nat,
                           blocks: seq<Block>, out: seq<CarLine>, count: int)
  {
    cfg.WellFormed() && Shaped(b0, |cfg.names|) && Shaped(blocks, |cfg.names|) && k <= |car| &&
    CarRun(cfg, ref, b0, Orders(car), 1) == Prepend(out, CarRun(cfg, ref, blocks, Orders(car[k..]), count + 1))
  }

  /** Where main stands after order-file line k, given where it stood before it. */
  lemma CarNext(cfg: Config, ref: Result<nat>, b0: seq<Block>, car: seq<OrderLine>, k: nat,
                blocks: seq<Block>, out: seq<CarLine>, count: int)
    requires CarState(cfg, ref, b0, car, k, blocks, out, count) && k < |car|
    ensures car[k].Skip? ==> CarState(cfg, ref, b0, car, k + 1, blocks, out, count)
    ensures car[k].Order? ==>
              var p := SpeciesRun(cfg, ref, blocks, car[k].nums, 0);
              p.Ok? ==> CarState(cfg, ref, b0, car, k + 1, p.value.0, out + [Apcf(count + 1)] + p.value.1, count + 1)
    ensures car[k].Order? && SpeciesRun(cfg, ref, blocks, car[k].nums, 0).Fatal? ==>
              CarRun(cfg, ref, b0, Orders(car), 1).Fatal?
  {
    OrdersStep(car, k);
    var rest := Orders(car[k + 1..]);
    if car[k].Skip? {
      assert Orders([car[k]]) == [];
      assert [] + rest == rest;
    } else {
      var nums := car[k].nums;
      assert Orders([car[k]]) == [nums];
      var p := SpeciesRun(cfg, ref, blocks, nums, 0);
      if p.Ok? {
        CarRunStep(cfg, ref, blocks, nums, rest, count + 1);
        PrependPrepend(out, [Apcf(count + 1)] + p.value.1, CarRun(cfg, ref, p.value.0, rest, count + 2));
        assert out + ([Apcf(count + 1)] + p.value.1) == out + [Apcf(count + 1)] + p.value.1;
      } else {
        assert ([nums] + rest)[0] == nums;
        assert CarRun(cfg, ref, blocks, [nums] + rest, count + 1).Fatal?;
      }
    }
  }

  lemma WarningsStep(done: seq<seq<int>>, nums: seq<int>)
    ensures Warnings(done + [nums]) == Warnings(done) + LineWarnings(AllMags(done), nums, |done| + 1)
    ensures AllMags(done + [nums]) == AllMags(done) + Mags(nums)
  {
    assert (done + [nums])[..|done|] == done;
  }

  /** The order line at k splits the lines before and after it. */
  lemma OrdersStep(car: seq<OrderLine>, k: nat)
    requires k < |car|
    ensures Orders(car[..k + 1]) == Orders(car[..k]) + Orders([car[k]])
    ensures Orders(car[k..]) == Orders([car[k]]) + Orders(car[k + 1..])
  {
    assert car[..k + 1][..k] == car[..k];
    assert car[k..] == [car[k]] + car[k + 1..];
    OrdersAppend([car[k]], car[k + 1..]);
  }

  /** CarRun on an order line followed by others. */
  lemma CarRunStep(cfg: Config, ref: Result<nat>, blocks: seq<Block>, nums: seq<int>, rest: seq<seq<int>>, c: int)
    requires cfg.WellFormed() && Shaped(blocks, |cfg.names|) && SpeciesRun(cfg, ref, blocks, nums, 0).Ok?
    ensures var p := SpeciesRun(cfg, ref, blocks, nums, 0).value;
            CarRun(cfg, ref, blocks, [nums] + rest, c) == Prepend([Apcf(c)] + p.1, CarRun(cfg, ref, p.0, rest, c + 1))
  {
    assert ([nums] + rest)[0] == nums && ([nums] + rest)[1..] == rest;
  }

  /** Orders of lines one after the other. */
  lemma {:induction false} OrdersAppend(a: seq<OrderLine>, b: seq<OrderLine>)
    ensures Orders(a + b) == Orders(a) + Orders(b)
  {
    if b != [] {
      var n := |b| - 1;
      OrdersAppend(a, b[..n]);
      assert (a + b)[..|a + b| - 1] == a + b[..n];
    } else {
      assert a + b == a;
    }
  }

  // ---------------------------------------------------------------------------
  // The APCF headers

  /** The numbers of the "#n" headers printed, in order. */
  function Headers(out: seq<CarLine>): seq<int>
  {
    if out == [] then [] else (if out[0].Apcf? then [out[0].n] else []) + Headers(out[1..])
  }

  lemma {:induction false} HeadersAppend(a: seq<CarLine>, b: seq<CarLine>)
    ensures Headers(a + b) == Headers(a) + Headers(b)
  {
    if a != [] {
      HeadersAppend(a[1..], b);
      assert (a + b)[1..] == a[1..] + b;
    } else {
      assert a + b == b;
    }
  }

  /** Lines that hold no header. */
  predicate Headerless(out: seq<CarLine>)
  {
    forall j :: 0 <= j < |out| ==> !out[j].Apcf?
  }

  lemma {:induction false} HeaderlessHeaders(out: seq<CarLine>)
    requires Headerless(out)
    ensures Headers(out) == []
  {
    if out != [] {
      HeaderlessHeaders(out[1..]);
    }
  }

  /** A species' pass over a line prints no header. */
  lemma {:induction false} PrintRunHeaderless(cfg: Config, ref: Result<nat>, blocks: seq<Block>, t: nat, nums: seq<int>)
    requires cfg.WellFormed() && Shaped(blocks, |cfg.names|) && t < |cfg.names|
    ensures PrintRun(cfg, ref, blocks, t, nums).Ok? ==> Headerless(PrintRun(cfg, ref, blocks, t, nums).value.1)
    decreases |nums|
  {
    if nums != [] && Abs(nums[0]) < MAXORDER {
      var p := PrintBlockSpec(cfg, ref, blocks, t, nums[0]);
      if p.Ok? {
        PrintRunHeaderless(cfg, ref, p.value.0, t, nums[1..]);
      }
    }
  }

  lemma {:induction false} SpeciesRunHeaderless(cfg: Config, ref: Result<nat>, blocks: seq<Block>, nums: seq<int>, i: nat)
    requires cfg.WellFormed() && Shaped(blocks, |cfg.names|) && i <= |cfg.names|
    ensures SpeciesRun(cfg, ref, blocks, nums, i).Ok? ==> Headerless(SpeciesRun(cfg, ref, blocks, nums, i).value.1)
    decreases |cfg.names| - i
  {
    if i < |cfg.names| {
      if cfg.tags[i] == OUT {
        SpeciesRunHeaderless(cfg, ref, blocks, nums, i + 1);
      } else {
        PrintRunHeaderless(cfg, ref, blocks, i, nums);
        var p := PrintRun(cfg, ref, blocks, i, nums);
        if p.Ok? {
          SpeciesRunHeaderless(cfg, ref, p.value.0, nums, i + 1);
        }
      }
    }
  }

  lemma HeaderStep(c: int, o: seq<CarLine>, rest: seq<CarLine>, n: nat)
    requires Headerless(o) && Headers(rest) == seq(n, k => c + 1 + k)
    ensures Headers([Apcf(c)] + o + rest) == seq(n + 1, k => c + k)
  {
    HeaderlessHeaders(o);
    HeadersAppend([Apcf(c)] + o, rest);
    HeadersAppend([Apcf(c)], o);
    assert Headers([Apcf(c)]) == [c];
    assert [c] + seq(n, k => c + 1 + k) == seq(n + 1, k => c + k);
  }

  /** The order lines from APCF c on are printed under the headers c, c + 1, ...,
      one per line. */
  lemma {:induction false} CarRunHeaders(cfg: Config, ref: Result<nat>, blocks: seq<Block>, orders: seq<seq<int>>, c: int)
    requires cfg.WellFormed() && Shaped(blocks, |cfg.names|)
    ensures CarRun(cfg, ref, blocks, orders, c).Ok? ==>
              Headers(CarRun(cfg, ref, blocks, orders, c).value.1) == seq(|orders|, k => c + k)
    decreases |orders|
  {
    if orders != [] {
      var p := SpeciesRun(cfg, ref, blocks, orders[0], 0);
      if p.Ok? {
        var rest := CarRun(cfg, ref, p.value.0, orders[1..], c + 1);
        CarRunHeaders(cfg, ref, p.value.0, orders[1..], c + 1);
        if rest.Ok? {
          SpeciesRunHeaderless(cfg, ref, blocks, orders[0], 0);
          HeaderStep(c, p.value.1, rest.value.1, |orders| - 1);
        }
      }
    }
  }
}
