/** Lifting a reference coordinate to the aligned coordinate of another species along
    a pairwise alignment chain (code/makeBlocks/base.c), in the manner of liftOver.

    A chain is a run of gap-free aligned blocks: entry k of `gf` is an aligned block of
    `size` bases followed by a gap of `fgap` bases in the reference and `sgap` bases in
    the other species.  The chain file of a species pair and reference chromosome is
    read once into memory; the model takes the chains already read. */
module Base {
  import opened Wrappers

  /** gf_list */
  datatype Gf = Gf(size: int, fgap: int, sgap: int)

  /** chain_list */
  datatype Chain = Chain(cid: int, fchr: string, forient: char, fbeg: int, fend: int,
                         schr: string, slen: int, sorient: char, sbeg: int, send: int,
                         gf: seq<Gf>)

  // ---------------------------------------------------------------------------
  // read_chain (base.c, lines 22-67)

  /** The fields of a `chain` header line, in the order the source scans them. */
  datatype ChainHead = ChainHead(fchr: string, forient: char, fbeg: int, fend: int,
                                 schr: string, slen: int, sorient: char, sbeg: int,
                                 send: int, cid: int)

  /** A line of a chain file: its text, the header its sscanf finds (when it has all ten
      fields) and the integers that lead the line (what successive %d conversions read). */
  datatype ChainLine = ChainLine(text: string, head: Option<ChainHead>, lead: seq<int>)

  /** Blank lines and `#` comments are skipped. */
  predicate Skipped(line: ChainLine)
  {
    line.text == [] || line.text[0] == '#'
  }

  /** A line starting with `c` opens a chain. */
  predicate Opens(line: ChainLine)
  {
    !Skipped(line) && line.text[0] == 'c'
  }

  /** The gap/fill entry of a data line.  The first sscanf stores what it reads before
      it fails, so a line with two integers keeps the second as fgap. */
  function GfOf(lead: seq<int>): (g: Gf)
    requires |lead| >= 1
    ensures g.size == lead[0]
    ensures |lead| >= 3 ==> g.fgap == lead[1] && g.sgap == lead[2]
    ensures |lead| == 1 ==> g.fgap == 0 && g.sgap == 0
  {
    if |lead| >= 3 then Gf(lead[0], lead[1], lead[2])
    else if |lead| == 2 then Gf(lead[0], lead[1], 0)
    else Gf(lead[0], 0, 0)
  }

  function ChainOfHead(h: ChainHead): (c: Chain)
    ensures c.gf == [] && c.cid == h.cid && c.fbeg == h.fbeg && c.fend == h.fend
  {
    Chain(h.cid, h.fchr, h.forient, h.fbeg, h.fend, h.schr, h.slen, h.sorient, h.sbeg, h.send, [])
  }

  /** The line is accepted: a header has its ten fields, a data line follows a header
      and starts with an integer. */
  predicate LineOk(line: ChainLine, inChain: bool)
  {
    (Opens(line) ==> line.head.Some?) &&
    (!Skipped(line) && !Opens(line) ==> inChain && |line.lead| >= 1)
  }

  predicate LinesOk(lines: seq<ChainLine>)
  {
    lines == [] ||
    (LinesOk(lines[..|lines| - 1]) &&
     LineOk(lines[|lines| - 1], Heads(lines[..|lines| - 1]) > 0))
  }

  /** How many lines open a chain. */
  function Heads(lines: seq<ChainLine>): nat
  {
    if lines == [] then 0 else Heads(lines[..|lines| - 1]) + (if Opens(lines[|lines| - 1]) then 1 else 0)
  }

  /** How many lines are gap/fill entries. */
  function DataLines(lines: seq<ChainLine>): nat
  {
    if lines == [] then 0
    else DataLines(lines[..|lines| - 1]) +
         (var l := lines[|lines| - 1]; if !Skipped(l) && !Opens(l) then 1 else 0)
  }

  function Entries(chains: seq<Chain>): nat
  {
    if chains == [] then 0 else Entries(chains[..|chains| - 1]) + |chains[|chains| - 1].gf|
  }

  /** What one line does to the chains read so far; None where read_chain aborts. */
  function ChainStep(chains: seq<Chain>, line: ChainLine): (r: Option<seq<Chain>>)
    ensures r.Some? <==> LineOk(line, |chains| > 0)
  {
    if Skipped(line) then Some(chains)
    else if Opens(line) then
      (if line.head.None? then None else Some(chains + [ChainOfHead(line.head.value)]))
    else if |line.lead| == 0 || |chains| == 0 then None
    else
      var last := chains[|chains| - 1];
      Some(chains[|chains| - 1 := last.(gf := last.gf + [GfOf(line.lead)])])
  }

  /** read_chain's line loop from the given chains on; None where it aborts. */
  function ChainsRead(chains: seq<Chain>, lines: seq<ChainLine>): Option<seq<Chain>>
    decreases |lines|
  {
    if lines == [] then Some(chains)
    else match ChainStep(chains, lines[0])
      case None => None
      case Some(c) => ChainsRead(c, lines[1..])
  }

  /** One line of read_chain: a header appends a new chain, a data line appends an entry
      to the last chain, a skipped line changes nothing. */
  method AddChainLine(chains: seq<Chain>, line: ChainLine) returns (r: Result<seq<Chain>>)
    ensures r.Ok? <==> LineOk(line, |chains| > 0)
    ensures r.Ok? && Skipped(line) ==> r.value == chains
    ensures r.Ok? && Opens(line) ==> r.value == chains + [ChainOfHead(line.head.value)]
    ensures r.Ok? && !Skipped(line) && !Opens(line) ==>
              |r.value| == |chains| && r.value[..|chains| - 1] == chains[..|chains| - 1] &&
              r.value[|chains| - 1] == chains[|chains| - 1].(gf := chains[|chains| - 1].gf + [GfOf(line.lead)])
    ensures r.Ok? ==> ChainStep(chains, line) == Some(r.value)
  {
    if Skipped(line) {
      return Ok(chains);
    }
    if Opens(line) {
      if line.head.None? {
        return Fatal("cannot parse chain header");
      }
      return Ok(chains + [ChainOfHead(line.head.value)]);
    }
    if |line.lead| == 0 {
      return Fatal("cannot parse gap line");
    }
    if |chains| == 0 {
      // an entry before any header: the source writes through an unset chain pointer
      return Fatal("entry outside a chain");
    }
    var last := chains[|chains| - 1];
    r := Ok(chains[|chains| - 1 := last.(gf := last.gf + [GfOf(line.lead)])]);
  }

  /** read_chain: chains in file order, each with its entries in file order. */
  method ReadChain(lines: seq<ChainLine>) returns (r: Result<seq<Chain>>)
    ensures r.Ok? <==> LinesOk(lines)
    ensures r.Ok? ==> |r.value| == Heads(lines) && Entries(r.value) == DataLines(lines)
    ensures r.Ok? <==> ChainsRead([], lines).Some?
    ensures r.Ok? ==> r.value == ChainsRead([], lines).value
  {
    var chains: seq<Chain> := [];
    var k := 0;
    while k < |lines|
      invariant 0 <= k <= |lines|
      invariant LinesOk(lines[..k])
      invariant |chains| == Heads(lines[..k]) && Entries(chains) == DataLines(lines[..k])
      invariant ChainsRead(chains, lines[k..]) == ChainsRead([], lines)
    {
      assert lines[k..][1..] == lines[k + 1..];
      PrefixStep(lines, k);
      var next := AddChainLine(chains, lines[k]);
      if next.Fatal? {
        if LinesOk(lines) {
          LinesOkPrefix(lines, k + 1);
        }
        return Fatal(next.msg);
      }
      EntriesStep(chains, next.value, lines[k]);
      chains := next.value;
      k := k + 1;
    }
    assert lines[..k] == lines;
    r := Ok(chains);
  }

  /** What one more line adds to the counts of a prefix. */
  lemma PrefixStep(lines: seq<ChainLine>, k: nat)
    requires k < |lines|
    ensures LinesOk(lines[..k + 1]) == (LinesOk(lines[..k]) && LineOk(lines[k], Heads(lines[..k]) > 0))
    ensures Heads(lines[..k + 1]) == Heads(lines[..k]) + (if Opens(lines[k]) then 1 else 0)
    ensures DataLines(lines[..k + 1]) == DataLines(lines[..k]) + (if !Skipped(lines[k]) && !Opens(lines[k]) then 1 else 0)
  {
    assert lines[..k + 1][..k] == lines[..k];
  }

  lemma {:induction false} LinesOkPrefix(lines: seq<ChainLine>, m: nat)
    requires LinesOk(lines) && m <= |lines|
    ensures LinesOk(lines[..m])
  {
    if m < |lines| {
      var init := lines[..|lines| - 1];
      assert init[..m] == lines[..m];
      LinesOkPrefix(init, m);
    } else {
      assert lines[..m] == lines;
    }
  }

  lemma EntriesStep(chains: seq<Chain>, next: seq<Chain>, line: ChainLine)
    requires Skipped(line) ==> next == chains
    requires Opens(line) ==> line.head.Some? && next == chains + [ChainOfHead(line.head.value)]
    requires !Skipped(line) && !Opens(line) ==>
               |chains| > 0 && |line.lead| >= 1 && |next| == |chains| &&
               next[..|chains| - 1] == chains[..|chains| - 1] &&
               next[|chains| - 1] == chains[|chains| - 1].(gf := chains[|chains| - 1].gf + [GfOf(line.lead)])
    ensures Entries(next) == Entries(chains) + (if !Skipped(line) && !Opens(line) then 1 else 0)
  {
    if Opens(line) {
      assert next[..|chains|] == chains;
    }
  }

  /** A data line of a chain, or a skipped line: what may follow a header. */
  predicate InBody(line: ChainLine)
  {
    !Opens(line) && (Skipped(line) || |line.lead| >= 1)
  }

  /** The entries a chain's body gives, skipped lines left out, in file order. */
  function Gfs(body: seq<ChainLine>): seq<Gf>
    requires forall k :: 0 <= k < |body| ==> InBody(body[k])
  {
    if body == [] then []
    else
      assert InBody(body[0]);
      (if Skipped(body[0]) then [] else [GfOf(body[0].lead)]) + Gfs(body[1..])
  }

  /** One chain's part of the file: a header with its ten fields, then the lines up to
      the next header, each a data line or a skipped one. */
  predicate Section(sec: seq<ChainLine>)
  {
    |sec| > 0 && Opens(sec[0]) && sec[0].head.Some? &&
    forall k :: 1 <= k < |sec| ==> InBody(sec[k])
  }

  /** The chain a section describes: its header's fields and its body's entries. */
  function SectionChain(sec: seq<ChainLine>): (c: Chain)
    requires Section(sec)
    ensures c.cid == sec[0].head.value.cid && |c.gf| <= |sec| - 1
  {
    GfsLength(sec[1..]);
    ChainOfHead(sec[0].head.value).(gf := Gfs(sec[1..]))
  }

  lemma {:induction false} GfsLength(body: seq<ChainLine>)
    requires forall k :: 0 <= k < |body| ==> InBody(body[k])
    ensures |Gfs(body)| <= |body|
  {
    if body != [] {
      GfsLength(body[1..]);
    }
  }

  function Concat(secs: seq<seq<ChainLine>>): seq<ChainLine>
  {
    if secs == [] then [] else secs[0] + Concat(secs[1..])
  }

  /** Reading a + b is reading a, then reading b from where a left off. */
  lemma {:induction false} ReadAppend(chains: seq<Chain>, a: seq<ChainLine>, b: seq<ChainLine>)
    ensures ChainsRead(chains, a + b) ==
            match ChainsRead(chains, a) case None => None case Some(c) => ChainsRead(c, b)
    decreases |a|
  {
    if a == [] {
      assert a + b == b;
    } else {
      assert (a + b)[0] == a[0] && (a + b)[1..] == a[1..] + b;
      match ChainStep(chains, a[0])
      case None =>
      case Some(c) => ReadAppend(c, a[1..], b);
    }
  }

  /** A chain's body extends the last chain with the body's entries. */
  lemma {:induction false} ReadBody(chains: seq<Chain>, body: seq<ChainLine>)
    requires |chains| > 0 && forall k :: 0 <= k < |body| ==> InBody(body[k])
    ensures ChainsRead(chains, body) ==
            Some(chains[|chains| - 1 := chains[|chains| - 1].(gf := chains[|chains| - 1].gf + Gfs(body))])
    decreases |body|
  {
    var last := chains[|chains| - 1];
    if body == [] {
      assert last.gf + [] == last.gf;
      assert chains[|chains| - 1 := last.(gf := last.gf + [])] == chains;
    } else if Skipped(body[0]) {
      assert ChainStep(chains, body[0]) == Some(chains);
      assert ChainsRead(chains, body) == ChainsRead(chains, body[1..]);
      assert Gfs(body) == [] + Gfs(body[1..]) == Gfs(body[1..]);
      ReadBody(chains, body[1..]);
    } else {
      assert InBody(body[0]);
      var g := GfOf(body[0].lead);
      var next := chains[|chains| - 1 := last.(gf := last.gf + [g])];
      assert ChainStep(chains, body[0]) == Some(next);
      assert ChainsRead(chains, body) == ChainsRead(next, body[1..]);
      ReadBody(next, body[1..]);
      assert Gfs(body) == [g] + Gfs(body[1..]);
      assert last.gf + [g] + Gfs(body[1..]) == last.gf + Gfs(body);
      var nl := next[|next| - 1];
      assert nl.(gf := nl.gf + Gfs(body[1..])) == last.(gf := last.gf + Gfs(body));
      assert |next| == |chains|;
      assert next[|next| - 1 := nl.(gf := nl.gf + Gfs(body[1..]))] == chains[|chains| - 1 := last.(gf := last.gf + Gfs(body))];
      assert ChainsRead(chains, body) == Some(chains[|chains| - 1 := last.(gf := last.gf + Gfs(body))]);
    }
  }

  /** One section appends the chain it describes. */
  lemma ReadSection(chains: seq<Chain>, sec: seq<ChainLine>)
    requires Section(sec)
    ensures ChainsRead(chains, sec) == Some(chains + [SectionChain(sec)])
  {
    var started := chains + [ChainOfHead(sec[0].head.value)];
    assert sec == [sec[0]] + sec[1..];
    ReadAppend(chains, [sec[0]], sec[1..]);
    assert ChainsRead(chains, [sec[0]]) == Some(started) by {
      assert [sec[0]][1..] == [];
    }
    ReadBody(started, sec[1..]);
    assert ChainOfHead(sec[0].head.value).gf + Gfs(sec[1..]) == Gfs(sec[1..]);
    assert started[|started| - 1 := started[|started| - 1].(gf := started[|started| - 1].gf + Gfs(sec[1..]))] ==
           chains + [SectionChain(sec)];
  }

  /** A file of sections reads as one chain per section, in file order, each with its
      header's fields and its body's entries. */
  lemma {:induction false} ReadSections(chains: seq<Chain>, secs: seq<seq<ChainLine>>)
    requires forall j :: 0 <= j < |secs| ==> Section(secs[j])
    ensures ChainsRead(chains, Concat(secs)) ==
            Some(chains + seq(|secs|, j requires 0 <= j < |secs| => SectionChain(secs[j])))
    decreases |secs|
  {
    var want := seq(|secs|, j requires 0 <= j < |secs| => SectionChain(secs[j]));
    if secs == [] {
      assert chains + want == chains;
    } else {
      ReadAppend(chains, secs[0], Concat(secs[1..]));
      ReadSection(chains, secs[0]);
      var withFirst := chains + [SectionChain(secs[0])];
      ReadSections(withFirst, secs[1..]);
      assert withFirst + seq(|secs| - 1, j requires 0 <= j < |secs| - 1 => SectionChain(secs[1..][j])) == chains + want;
    }
  }

  /** Leading skipped lines change nothing. */
  lemma {:induction false} ReadSkipped(chains: seq<Chain>, pre: seq<ChainLine>, rest: seq<ChainLine>)
    requires forall k :: 0 <= k < |pre| ==> Skipped(pre[k])
    ensures ChainsRead(chains, pre + rest) == ChainsRead(chains, rest)
    decreases |pre|
  {
    if pre == [] {
      assert pre + rest == rest;
    } else {
      assert (pre + rest)[0] == pre[0] && (pre + rest)[1..] == pre[1..] + rest;
      assert ChainStep(chains, pre[0]) == Some(chains);
      ReadSkipped(chains, pre[1..], rest);
    }
  }

  /** What read_chain returns for a well-formed file: after any skipped lines, one chain
      per header in file order, each with the header's fields and the entries of the
      data lines up to the next header. */
  lemma ReadChainFile(pre: seq<ChainLine>, secs: seq<seq<ChainLine>>)
    requires forall k :: 0 <= k < |pre| ==> Skipped(pre[k])
    requires forall j :: 0 <= j < |secs| ==> Section(secs[j])
    ensures ChainsRead([], pre + Concat(secs)) ==
            Some(seq(|secs|, j requires 0 <= j < |secs| => SectionChain(secs[j])))
  {
    ReadSkipped([], pre, Concat(secs));
    ReadSections([], secs);
    var want := seq(|secs|, j requires 0 <= j < |secs| => SectionChain(secs[j]));
    assert [] + want == want;
  }

  // ---------------------------------------------------------------------------
  // mapbase (base.c, lines 102-178)

  /** The chain search of mapbase: the first chain with the id. */
  method FindChain(chains: seq<Chain>, cid: int) returns (r: Option<nat>)
    ensures r.None? <==> forall k :: 0 <= k < |chains| ==> chains[k].cid != cid
    ensures r.Some? ==> r.value < |chains| && chains[r.value].cid == cid &&
                        forall k :: 0 <= k < r.value ==> chains[k].cid != cid
  {
    var k := 0;
    while k < |chains| && chains[k].cid != cid
      invariant 0 <= k <= |chains|
      invariant forall k' :: 0 <= k' < k ==> chains[k'].cid != cid
    {
      k := k + 1;
    }
    r := if k == |chains| then None else Some(k);
  }

  /** Where the offset walk stops: the reference and query offsets reached, whether the
      position lies in the gap after entry k, and that entry's index. */
  datatype Walk = Walk(roff: int, soff: int, ingap: bool, k: nat)

  /** The offset walk over entries k.. of a chain towards reference offset `ref`. */
  function WalkFrom(gf: seq<Gf>, ref: int, k: nat, roff: int, soff: int): (w: Walk)
    requires k <= |gf|
    ensures k <= w.k <= |gf| && (w.ingap ==> w.k < |gf|)
    decreases |gf| - k
  {
    if k == |gf| || roff + gf[k].size > ref then Walk(roff, soff, false, k)
    else if roff + gf[k].size + gf[k].fgap >= ref then Walk(roff + gf[k].size, soff + gf[k].size, true, k)
    else WalkFrom(gf, ref, k + 1, roff + gf[k].size + gf[k].fgap, soff + gf[k].size + gf[k].sgap)
  }

  /** The walk never passes the target: it stops at or before `ref`, and inside a gap
      the target lies within that gap. */
  lemma {:induction false} WalkBounds(gf: seq<Gf>, ref: int, k: nat, roff: int, soff: int)
    requires k <= |gf| && roff <= ref
    ensures var w := WalkFrom(gf, ref, k, roff, soff);
            w.roff <= ref && (w.ingap ==> ref <= w.roff + gf[w.k].fgap)
    decreases |gf| - k
  {
    if k < |gf| && roff + gf[k].size <= ref && roff + gf[k].size + gf[k].fgap < ref {
      WalkBounds(gf, ref, k + 1, roff + gf[k].size + gf[k].fgap, soff + gf[k].size + gf[k].sgap);
    }
  }

  /** mapbase's result: the query position and the adjusted reference position. */
  datatype Lifted = Lifted(spos: int, newrpos: int)

  /** The offsets after the walk: a gap position is moved to the gap's far side for
      side "right"; a position in an aligned block or past the last entry is kept, and
      the query offset advances by the same amount. */
  function Offsets(c: Chain, rpos: int, side: string): (int, int)
  {
    var ref := rpos - c.fbeg;
    var w := WalkFrom(c.gf, ref, 0, 0, 0);
    if w.ingap then
      if side == "right" then (w.roff + c.gf[w.k].fgap, w.soff + c.gf[w.k].sgap) else (w.roff, w.soff)
    else (ref, w.soff + (ref - w.roff))
  }

  function Lift(c: Chain, rpos: int, orient: char, side: string): Lifted
  {
    var (roff, soff) := Offsets(c, rpos, side);
    Lifted(if orient == '+' then c.sbeg + soff else c.slen - (c.sbeg + soff), c.fbeg + roff)
  }

  /** mapbase: aborts when no chain has the id or rpos lies outside the chain's
      reference interval; otherwise walks the entries and lifts the position. */
  method Mapbase(chains: seq<Chain>, cid: int, rpos: int, orient: char, side: string) returns (r: Result<Lifted>)
    ensures r.Ok? <==> exists k :: 0 <= k < |chains| && chains[k].cid == cid &&
                         (forall k' :: 0 <= k' < k ==> chains[k'].cid != cid) &&
                         chains[k].fbeg <= rpos <= chains[k].fend
    ensures r.Ok? ==> forall k :: (0 <= k < |chains| && chains[k].cid == cid &&
                                  (forall k' :: 0 <= k' < k ==> chains[k'].cid != cid))
                                 ==> r.value == Lift(chains[k], rpos, orient, side)
    ensures r.Ok? && side == "right" ==> r.value.newrpos >= rpos
    ensures r.Ok? && side != "right" ==> r.value.newrpos <= rpos
  {
    var found := FindChain(chains, cid);
    if found.None? {
      return Fatal("chain not exist");
    }
    var chain := chains[found.value];
    if rpos < chain.fbeg || rpos > chain.fend {
      return Fatal("wrong ref position");
    }
    var l := LiftWithin(chain, rpos, orient, side);
    r := Ok(l);
  }

  /** The offset walk of mapbase over one chain, for a position inside its reference
      interval. */
  method LiftWithin(chain: Chain, rpos: int, orient: char, side: string) returns (l: Lifted)
    requires chain.fbeg <= rpos
    ensures l == Lift(chain, rpos, orient, side)
    ensures side == "right" ==> l.newrpos >= rpos
    ensures side != "right" ==> l.newrpos <= rpos
  {
    var roff, soff, ingap := 0, 0, false;
    var ref := rpos - chain.fbeg;
    var k := 0;
    while k < |chain.gf|
      invariant 0 <= k <= |chain.gf|
      invariant WalkFrom(chain.gf, ref, k, roff, soff) == WalkFrom(chain.gf, ref, 0, 0, 0)
      decreases |chain.gf| - k
    {
      var g := chain.gf[k];
      if roff + g.size > ref {
        break;
      }
      roff, soff := roff + g.size, soff + g.size;
      if roff + g.fgap >= ref {
        ingap := true;
        break;
      }
      roff, soff := roff + g.fgap, soff + g.sgap;
      k := k + 1;
    }
    var w := WalkFrom(chain.gf, ref, 0, 0, 0);
    LiftBounds(chain, rpos, orient, side);
    assert w.ingap == ingap && w.k == k;
    assert ingap ==> w.roff == roff && w.soff == soff;
    assert !ingap ==> w.roff == roff && w.soff == soff;
    if ingap {
      if side == "right" {
        roff, soff := roff + chain.gf[k].fgap, soff + chain.gf[k].sgap;
      }
    } else {
      soff := soff + (ref - roff);
      roff := ref;
    }
    if orient == '+' {
      l := Lifted(chain.sbeg + soff, chain.fbeg + roff);
    } else {
      l := Lifted(chain.slen - (chain.sbeg + soff), chain.fbeg + roff);
    }
  }

  /** The properties of a lift inside the chain's reference interval: a position in an
      aligned block, or past the last entry, is kept; in a gap, side "left" gives the
      gap start (never after rpos) and side "right" the gap end (never before rpos). */
  lemma LiftBounds(c: Chain, rpos: int, orient: char, side: string)
    requires c.fbeg <= rpos
    ensures var ref := rpos - c.fbeg;
            var w := WalkFrom(c.gf, ref, 0, 0, 0);
            var l := Lift(c, rpos, orient, side);
            (!w.ingap ==> l.newrpos == rpos && Offsets(c, rpos, side).1 - w.soff == ref - w.roff) &&
            (w.ingap && side != "right" ==> l.newrpos <= rpos) &&
            (w.ingap && side == "right" ==> l.newrpos >= rpos)
  {
    WalkBounds(c.gf, rpos - c.fbeg, 0, 0, 0);
  }

  /** The two strands: for `-` the query position is counted from the other end of the
      query sequence, and the adjusted reference position does not depend on it. */
  lemma LiftStrands(c: Chain, rpos: int, side: string, orient: char)
    requires orient != '+'
    ensures Lift(c, rpos, orient, side).spos == c.slen - Lift(c, rpos, '+', side).spos
    ensures Lift(c, rpos, orient, side).newrpos == Lift(c, rpos, '+', side).newrpos
  {
  }
}
