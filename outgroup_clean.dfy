/** Tidying the outgroup pieces of the conserved segments
    (code/makeBlocks/cleanOutgroupSegs.c).

    An outgroup species may cover one conserved segment with several pieces (sub-ids
    1, 2, ... of the block).  Where the outgroup's own order shows sub-pieces t and t + 1
    of a block next to each other, consecutive sub-pieces are merged into one segment
    spanning them all (merge_segs), remembering the chain ids of the pieces merged.
    Outgroup pieces shorter than MINOUTSEG times the block's reference span are then
    dropped (remove_tiny_pieces). */
module OutgroupClean {
  import opened Wrappers
  import opened Species
  import opened Lists

  // ---------------------------------------------------------------------------
  // merge_segs (lines 12-58)

  /** Every block has a list for species ss. */
  predicate HasSpecies(blocks: seq<Block>, ss: nat)
  {
    forall b :: 0 <= b < |blocks| ==> ss < |blocks[b].speseg|
  }

  /** The index after the run that starts at from: the first segment from there with a
      sub-id above terminal, or the end of the list. */
  function RunEnd(l: seq<Seg>, from: nat, terminal: int): (e: nat)
    requires from <= |l|
    ensures from <= e <= |l|
    ensures forall k :: from <= k < e ==> l[k].subid <= terminal
    ensures e < |l| ==> l[e].subid > terminal
  {
    match Find(l[from..], (s: Seg) => s.subid > terminal)
    case None => |l|
    case Some(k) => from + k
  }

  /** The list of one species after merge_segs found the segment at bi: a single piece
      only gets its own chain id as its list; otherwise the run from bi is replaced by
      one segment spanning it, listing the run's chain ids. */
  function MergedList(l: seq<Seg>, bi: nat, start: int, terminal: int): seq<Seg>
    requires bi < |l|
  {
    if start == terminal then l[bi := l[bi].(cidlist := [l[bi].chid])]
    else
      var e := RunEnd(l, bi + 1, terminal);
      var run := l[bi..e];
      l[..bi] + [l[bi].(beg := MinBeg(run), end := MaxEnd(run), cidlist := Chids(run))] + l[e..]
  }

  /** merge_segs as a value: it aborts when terminal < start, dereferences NULL when no
      block has the id, and aborts when the block's list of species ss has no segment
      with sub-id start. */
  function MergeSegsSpec(blocks: seq<Block>, id: int, ss: nat, start: int, terminal: int)
    : (r: Result<seq<Block>>)
    requires HasSpecies(blocks, ss)
    ensures r.Ok? ==> |r.value| == |blocks| && HasSpecies(r.value, ss)
    ensures r.Ok? ==> forall b :: 0 <= b < |blocks| ==> Kept(blocks[b], r.value[b], ss)
    ensures r.Ok? ==> forall b :: 0 <= b < |blocks| && blocks[b].id != id ==> r.value[b] == blocks[b]
  {
    if terminal < start then Fatal("DIE: start > terminal")
    else match Find(blocks, (b: Block) => b.id == id)
      case None => Fatal("NULL dereference of a missing block")
      case Some(p) =>
        var l := blocks[p].speseg[ss];
        match Find(l, (s: Seg) => s.subid == start)
        case None => Fatal("DIE: illegal subid")
        case Some(bi) =>
          Ok(blocks[p := blocks[p].(speseg := blocks[p].speseg[ss := MergedList(l, bi, start, terminal)])])
  }

  /** c is b with at most its list of species ss changed. */
  predicate Kept(b: Block, c: Block, ss: nat)
  {
    c.id == b.id && c.isdup == b.isdup && |c.speseg| == |b.speseg| &&
    forall i :: 0 <= i < |b.speseg| && i != ss ==> c.speseg[i] == b.speseg[i]
  }

  /** What merge_segs does to the list it merges: the segments before the run and after
      it are kept in order, and the merged segment spans every piece of the run and lists
      the run's chain ids in order (a single piece lists only its own). */
  lemma MergedListSpec(l: seq<Seg>, bi: nat, start: int, terminal: int)
    requires bi < |l| && start < terminal
    ensures var e := RunEnd(l, bi + 1, terminal);
            var m := MergedList(l, bi, start, terminal);
            |m| == |l| - (e - bi - 1) && m[..bi] == l[..bi] && m[bi + 1..] == l[e..] &&
            m[bi].cidlist == Chids(l[bi..e]) && m[bi].id == l[bi].id && m[bi].subid == l[bi].subid &&
            (forall k :: bi <= k < e ==> m[bi].beg <= l[k].beg && l[k].end <= m[bi].end) &&
            (forall k :: bi < k < e ==> l[k].subid <= terminal) &&
            (e < |l| ==> l[e].subid > terminal)
  {
    var e := RunEnd(l, bi + 1, terminal);
    var run := l[bi..e];
    var m := MergedList(l, bi, start, terminal);
    assert m[bi + 1..] == l[e..];
    forall k | bi <= k < e
      ensures m[bi].beg <= l[k].beg && l[k].end <= m[bi].end
    {
      assert run[k - bi] == l[k];
    }
  }

  /** The sub-id search loop of merge_segs. */
  method FindSub(l: seq<Seg>, start: int) returns (r: Option<nat>)
    ensures r == Find(l, (s: Seg) => s.subid == start)
  {
    var k := 0;
    while k < |l| && l[k].subid != start
      invariant 0 <= k <= |l|
      invariant forall j :: 0 <= j < k ==> l[j].subid != start
    {
      k := k + 1;
    }
    r := if k < |l| then Some(k) else None;
  }

  /** The first walk of merge_segs over the run from bi: the chain ids it records. */
  method RunChids(l: seq<Seg>, bi: nat, terminal: int) returns (cids: seq<int>)
    requires bi < |l| && l[bi].subid <= terminal
    ensures cids == Chids(l[bi..RunEnd(l, bi + 1, terminal)])
  {
    var e := RunEnd(l, bi + 1, terminal);
    cids := [];
    var nb := bi;
    while nb < |l| && l[nb].subid <= terminal
      invariant bi <= nb <= e
      invariant |cids| == nb - bi && forall k :: 0 <= k < nb - bi ==> cids[k] == l[bi + k].chid
    {
      cids := cids + [l[nb].chid];
      nb := nb + 1;
    }
  }

  /** The second walk of merge_segs: segment bi widened over each later piece of the
      run, which is unlinked; what follows the run. */
  method RunHull(l: seq<Seg>, bi: nat, terminal: int) returns (b: Seg, rest: seq<Seg>)
    requires bi < |l|
    ensures var e := RunEnd(l, bi + 1, terminal);
            b == l[bi].(beg := MinBeg(l[bi..e]), end := MaxEnd(l[bi..e])) && rest == l[e..]
  {
    var e := RunEnd(l, bi + 1, terminal);
    b := l[bi];
    var nb := bi + 1;
    assert l[bi..nb] == [l[bi]];
    while nb < |l| && l[nb].subid <= terminal
      invariant bi < nb <= e
      invariant b == l[bi].(beg := MinBeg(l[bi..nb]), end := MaxEnd(l[bi..nb]))
    {
      HullStep(l, bi, nb);
      b := b.(beg := Min(b.beg, l[nb].beg), end := Max(b.end, l[nb].end));
      nb := nb + 1;
    }
    rest := l[nb..];
  }

  /** merge_segs over a run of more than one piece. */
  method MergeRun(l: seq<Seg>, bi: nat, start: int, terminal: int) returns (r: seq<Seg>)
    requires bi < |l| && start < terminal && l[bi].subid == start
    ensures r == MergedList(l, bi, start, terminal)
  {
    var cids := RunChids(l, bi, terminal);
    var b, rest := RunHull(l, bi, terminal);
    r := l[..bi] + [b.(cidlist := cids)] + rest;
  }

  /** merge_segs. */
  method MergeSegs(blocks: seq<Block>, id: int, ss: nat, start: int, terminal: int)
    returns (r: Result<seq<Block>>)
    requires HasSpecies(blocks, ss)
    ensures r == MergeSegsSpec(blocks, id, ss, start, terminal)
  {
    if terminal < start {
      return Fatal("DIE: start > terminal");
    }
    var p := FindBlock(blocks, id);
    if p.None? {
      return Fatal("NULL dereference of a missing block");
    }
    var l := blocks[p.value].speseg[ss];
    var bi := FindSub(l, start);
    if bi.None? {
      return Fatal("DIE: illegal subid");
    }
    var merged: seq<Seg>;
    if start == terminal {
      merged := l[bi.value := l[bi.value].(cidlist := [l[bi.value].chid])];
    } else {
      merged := MergeRun(l, bi.value, start, terminal);
    }
    r := Ok(blocks[p.value := blocks[p.value].(speseg := blocks[p.value].speseg[ss := merged])]);
  }

  // ---------------------------------------------------------------------------
  // The outgroup order and the sub-id runs (main, lines 120-175)

  /** One outgroup's order as main stores it (pmay[i][0..outorder[i]]): entry 0 and one
      entry after each line are (0, 0) separators, each line's id.subid pairs in order. */
  function OrderArray(lines: seq<seq<(int, int)>>): (arr: seq<(int, int)>)
    ensures |arr| >= 1 && arr[0] == (0, 0) && arr[|arr| - 1] == (0, 0)
  {
    Separated(lines, (0, 0))
  }


  /** Where the search of main finds sub-piece t of block j: the first entry whose id is
      j or -j and whose sub-id is t. */
  function EntryOf(arr: seq<(int, int)>, j: int, t: int): (r: Option<nat>)
    ensures r.Some? ==> r.value < |arr| && Abs(arr[r.value].0) == j && arr[r.value].1 == t
  {
    Find(arr, (e: (int, int)) => Abs(e.0) == j && e.1 == t)
  }

  /** Sub-piece t + 1 of the same signed id is read next in the order: the following
      entry for a positive id, the preceding one for a negative id. */
  predicate Linked(arr: seq<(int, int)>, k: nat, t: int)
    requires k < |arr|
  {
    (arr[k].0 > 0 && k + 1 < |arr| && arr[k + 1].0 == arr[k].0 && arr[k + 1].1 == t + 1) ||
    (arr[k].0 < 0 && k >= 1 && arr[k - 1].0 == arr[k].0 && arr[k - 1].1 == t + 1)
  }

  /** Sub-piece t of block j is found and continues into t + 1. */
  predicate Continues(arr: seq<(int, int)>, j: int, t: int)
  {
    EntryOf(arr, j, t).Some? && Linked(arr, EntryOf(arr, j, t).value, t)
  }

  /** The largest sub-id of the order. */
  function MaxSid(arr: seq<(int, int)>): (m: nat)
    ensures forall k :: 0 <= k < |arr| ==> arr[k].1 <= m
  {
    if arr == [] then 0
    else
      var m := MaxSid(arr[..|arr| - 1]);
      if arr[|arr| - 1].1 > m then arr[|arr| - 1].1 else m
  }

  /** The (start, terminal) ranges main's endless loop merges for block j, from the
      state (start, terminal): terminal moves on while its piece continues; a piece that
      is found but does not continue closes a range; a piece not found ends the block. */
  function Runs(arr: seq<(int, int)>, j: int, start: int, terminal: int): seq<(int, int)>
    decreases MaxSid(arr) + 1 - terminal
  {
    match EntryOf(arr, j, terminal)
    case None => []
    case Some(k) =>
      if Linked(arr, k, terminal) then Runs(arr, j, start, terminal + 1)
      else [(start, terminal)] + Runs(arr, j, terminal + 1, terminal + 1)
  }

  /** The ranges are maximal chains of continuing sub-pieces: they follow each other
      without gaps from start, every sub-id inside a range continues, and every range
      ends at a sub-piece that is found but does not continue. */
  lemma {:induction false} RunsSpec(arr: seq<(int, int)>, j: int, start: int, terminal: int)
    requires start <= terminal
    requires forall t :: start <= t < terminal ==> Continues(arr, j, t)
    ensures var rs := Runs(arr, j, start, terminal);
            (|rs| > 0 ==> rs[0].0 == start && rs[0].1 >= terminal) &&
            (forall m :: 0 < m < |rs| ==> rs[m].0 == rs[m - 1].1 + 1) &&
            (forall m :: 0 <= m < |rs| ==> rs[m].0 <= rs[m].1) &&
            (forall m :: 0 <= m < |rs| ==> EntryOf(arr, j, rs[m].1).Some? && !Continues(arr, j, rs[m].1)) &&
            (forall m, t :: 0 <= m < |rs| && rs[m].0 <= t < rs[m].1 ==> Continues(arr, j, t))
    decreases MaxSid(arr) + 1 - terminal
  {
    match EntryOf(arr, j, terminal)
    case None =>
    case Some(k) =>
      if Linked(arr, k, terminal) {
        RunsSpec(arr, j, start, terminal + 1);
      } else {
        RunsSpec(arr, j, terminal + 1, terminal + 1);
        var rest := Runs(arr, j, terminal + 1, terminal + 1);
        assert Runs(arr, j, start, terminal) == [(start, terminal)] + rest;
      }
  }

  /** merge_segs applied to each range in turn; the first abort ends it. */
  function ApplyRuns(blocks: seq<Block>, id: int, ss: nat, runs: seq<(int, int)>): (r: Result<seq<Block>>)
    requires HasSpecies(blocks, ss)
    ensures r.Ok? ==> |r.value| == |blocks| && HasSpecies(r.value, ss)
    ensures r.Ok? ==> forall b :: 0 <= b < |blocks| ==> Kept(blocks[b], r.value[b], ss)
    ensures r.Ok? ==> forall b :: 0 <= b < |blocks| && blocks[b].id != id ==> r.value[b] == blocks[b]
    decreases |runs|
  {
    if runs == [] then Ok(blocks)
    else match MergeSegsSpec(blocks, id, ss, runs[0].0, runs[0].1)
      case Fatal(m) => Fatal(m)
      case Ok(b) => ApplyRuns(b, id, ss, runs[1..])
  }

  /** The search loop of main for sub-piece t of block j. */
  method FindEntry(arr: seq<(int, int)>, j: int, t: int) returns (r: Option<nat>)
    ensures r == EntryOf(arr, j, t)
  {
    var k := 0;
    while k < |arr| && !(Abs(arr[k].0) == j && arr[k].1 == t)
      invariant 0 <= k <= |arr|
      invariant forall m :: 0 <= m < k ==> !(Abs(arr[m].0) == j && arr[m].1 == t)
    {
      k := k + 1;
    }
    r := if k < |arr| then Some(k) else None;
  }

  /** The endless loop of main for block j of outgroup ss. */
  method MergeBlockPieces(blocks: seq<Block>, ss: nat, arr: seq<(int, int)>, j: int)
    returns (r: Result<seq<Block>>)
    requires HasSpecies(blocks, ss)
    ensures r == ApplyRuns(blocks, j, ss, Runs(arr, j, 1, 1))
  {
    var start, terminal := 1, 1;
    var cur := blocks;
    while true
      invariant terminal <= MaxSid(arr) + 1 && HasSpecies(cur, ss)
      invariant ApplyRuns(cur, j, ss, Runs(arr, j, start, terminal)) == ApplyRuns(blocks, j, ss, Runs(arr, j, 1, 1))
      decreases MaxSid(arr) + 1 - terminal
    {
      var k := FindEntry(arr, j, terminal);
      if k.None? {
        return Ok(cur);
      }
      if Linked(arr, k.value, terminal) {
        terminal := terminal + 1;
      } else {
        var m := MergeSegs(cur, j, ss, start, terminal);
        if m.Fatal? {
          return m;
        }
        cur := m.value;
        start := terminal + 1;
        terminal := start;
      }
    }
  }

  /** Blocks j..total of outgroup ss merged in turn. */
  function MergeFrom(blocks: seq<Block>, ss: nat, arr: seq<(int, int)>, j: int, total: int)
    : (r: Result<seq<Block>>)
    requires HasSpecies(blocks, ss)
    ensures r.Ok? ==> |r.value| == |blocks| && HasSpecies(r.value, ss)
    ensures r.Ok? ==> forall b :: 0 <= b < |blocks| ==> Kept(blocks[b], r.value[b], ss)
    decreases total - j + 1
  {
    if j > total then Ok(blocks)
    else match ApplyRuns(blocks, j, ss, Runs(arr, j, 1, 1))
      case Fatal(m) => Fatal(m)
      case Ok(b) => MergeFrom(b, ss, arr, j + 1, total)
  }

  /** The block loop of main for outgroup ss: j runs over 1..total. */
  method MergeSpeciesPieces(blocks: seq<Block>, ss: nat, arr: seq<(int, int)>, total: int)
    returns (r: Result<seq<Block>>)
    requires HasSpecies(blocks, ss)
    ensures r == MergeFrom(blocks, ss, arr, 1, total)
  {
    var cur := blocks;
    var j := 1;
    while j <= total
      invariant HasSpecies(cur, ss)
      invariant j <= total + 1 || j == 1
      invariant MergeFrom(cur, ss, arr, j, total) == MergeFrom(blocks, ss, arr, 1, total)
      decreases total - j + 1
    {
      var m := MergeBlockPieces(cur, ss, arr, j);
      if m.Fatal? {
        return m;
      }
      cur := m.value;
      j := j + 1;
    }
    r := Ok(cur);
  }

  /** Every outgroup from species i on merged in turn. */
  function MergeOutgroups(blocks: seq<Block>, tags: seq<int>, arrs: seq<seq<(int, int)>>, i: nat, total: int)
    : (r: Result<seq<Block>>)
    requires |arrs| == |tags| && Shaped(blocks, |tags|) && i <= |tags|
    ensures r.Ok? ==> |r.value| == |blocks| && Shaped(r.value, |tags|)
    ensures r.Ok? ==> forall b :: 0 <= b < |blocks| ==> r.value[b].id == blocks[b].id
    ensures r.Ok? ==> forall b, s :: 0 <= b < |blocks| && 0 <= s < |tags| && tags[s] != OUT ==>
              r.value[b].speseg[s] == blocks[b].speseg[s]
    decreases |tags| - i
  {
    if i == |tags| then Ok(blocks)
    else if tags[i] != OUT then MergeOutgroups(blocks, tags, arrs, i + 1, total)
    else match MergeFrom(blocks, i, arrs[i], 1, total)
      case Fatal(m) => Fatal(m)
      case Ok(b) => MergeOutgroups(b, tags, arrs, i + 1, total)
  }

  // ---------------------------------------------------------------------------
  // remove_tiny_pieces (lines 60-93)

  /** A piece main keeps: not shorter than MINOUTSEG times the reference span. */
  ghost function NotTiny(reflen: int): (f: Seg -> bool)
    ensures forall s: Seg :: f(s) == !(((s.end - s.beg) as real) < MINOUTSEG * (reflen as real))
  {
    (s: Seg) => !(((s.end - s.beg) as real) < MINOUTSEG * (reflen as real))
  }

  /** The segment loop of remove_tiny_pieces for one list. */
  method RemoveTiny(l: seq<Seg>, reflen: int) returns (r: seq<Seg>)
    ensures r == Filter(l, NotTiny(reflen))
  {
    r := [];
    for k := 0 to |l|
      invariant r == Filter(l[..k], NotTiny(reflen))
    {
      assert l[..k + 1][..k] == l[..k];
      if !(((l[k].end - l[k].beg) as real) < MINOUTSEG * (reflen as real)) {
        r := r + [l[k]];
      }
    }
    assert l[..|l|] == l;
  }

  /** Block b's reference span, end - beg of its first reference segment. */
  function RefSpan(b: Block, rs: nat): int
    requires rs < |b.speseg| && b.speseg[rs] != []
  {
    b.speseg[rs][0].end - b.speseg[rs][0].beg
  }

  /** c is b after remove_tiny_pieces: its outgroup lists filtered, the rest untouched. */
  ghost predicate Trimmed(b: Block, c: Block, tags: seq<int>, rs: nat)
    requires rs < |b.speseg| == |tags| && b.speseg[rs] != []
  {
    c.id == b.id && c.isdup == b.isdup && |c.speseg| == |tags| &&
    forall i :: 0 <= i < |tags| ==>
      c.speseg[i] == (if tags[i] == OUT then Filter(b.speseg[i], NotTiny(RefSpan(b, rs))) else b.speseg[i])
  }

  /** Block b after remove_tiny_pieces. */
  ghost function TrimBlock(b: Block, tags: seq<int>, rs: nat): (c: Block)
    requires rs < |b.speseg| == |tags| && b.speseg[rs] != []
    ensures Trimmed(b, c, tags, rs)
  {
    b.(speseg := seq(|tags|, i requires 0 <= i < |tags| =>
      if tags[i] == OUT then Filter(b.speseg[i], NotTiny(RefSpan(b, rs))) else b.speseg[i]))
  }

  /** The species loop of remove_tiny_pieces for one block. */
  method RemoveTinyBlock(b: Block, tags: seq<int>, rs: nat) returns (c: Block)
    requires rs < |b.speseg| == |tags| && b.speseg[rs] != []
    ensures Trimmed(b, c, tags, rs)
  {
    var reflen := b.speseg[rs][0].end - b.speseg[rs][0].beg;
    c := b;
    for i := 0 to |tags|
      invariant c.id == b.id && c.isdup == b.isdup && |c.speseg| == |tags|
      invariant forall i' :: 0 <= i' < i ==>
                  c.speseg[i'] == (if tags[i'] == OUT then Filter(b.speseg[i'], NotTiny(reflen)) else b.speseg[i'])
      invariant forall i' :: i <= i' < |tags| ==> c.speseg[i'] == b.speseg[i']
    {
      if tags[i] != OUT {
        continue;
      }
      var l := RemoveTiny(c.speseg[i], reflen);
      c := c.(speseg := c.speseg[i := l]);
    }
  }

  /** remove_tiny_pieces: in every block, outgroup pieces shorter than MINOUTSEG times
      the reference span are unlinked; nothing else changes. */
  method RemoveTinyPieces(blocks: seq<Block>, tags: seq<int>, rs: nat) returns (r: seq<Block>)
    requires forall b :: 0 <= b < |blocks| ==> rs < |blocks[b].speseg| == |tags| && blocks[b].speseg[rs] != []
    ensures |r| == |blocks|
    ensures forall b :: 0 <= b < |blocks| ==> Trimmed(blocks[b], r[b], tags, rs)
  {
    r := [];
    for b := 0 to |blocks|
      invariant |r| == b
      invariant forall b' :: 0 <= b' < b ==> Trimmed(blocks[b'], r[b'], tags, rs)
    {
      var c := RemoveTinyBlock(blocks[b], tags, rs);
      r := r + [c];
    }
  }

  /** After remove_tiny_pieces no outgroup piece is tiny, and every piece that was not
      tiny is still there. */
  lemma TrimmedSpec(b: Block, c: Block, tags: seq<int>, rs: nat)
    requires rs < |b.speseg| == |tags| && b.speseg[rs] != [] && Trimmed(b, c, tags, rs)
    ensures forall i, s :: 0 <= i < |tags| && tags[i] == OUT ==>
              (s in c.speseg[i] <==> s in b.speseg[i] &&
                                     !(((s.end - s.beg) as real) < MINOUTSEG * (RefSpan(b, rs) as real)))
  {
    forall i | 0 <= i < |tags| && tags[i] == OUT
      ensures forall s :: s in c.speseg[i] <==> s in b.speseg[i] && NotTiny(RefSpan(b, rs))(s)
    {
      FilterSpec(b.speseg[i], NotTiny(RefSpan(b, rs)));
    }
  }

  // ---------------------------------------------------------------------------
  // main (lines 95-204)

  /** The species loop of main: every outgroup's pieces merged in turn. */
  method MergeAllOutgroups(blocks: seq<Block>, tags: seq<int>, arrs: seq<seq<(int, int)>>, total: int)
    returns (r: Result<seq<Block>>)
    requires |arrs| == |tags| && Shaped(blocks, |tags|)
    ensures r == MergeOutgroups(blocks, tags, arrs, 0, total)
  {
    var cur := blocks;
    for i := 0 to |tags|
      invariant Shaped(cur, |tags|)
      invariant MergeOutgroups(cur, tags, arrs, i, total) == MergeOutgroups(blocks, tags, arrs, 0, total)
    {
      if tags[i] != OUT {
        continue;
      }
      var m := MergeSpeciesPieces(cur, i, arrs[i], total);
      if m.Fatal? {
        return m;
      }
      cur := m.value;
    }
    r := Ok(cur);
  }

  /** Block b as main prints it: no outgroup piece shorter than MINOUTSEG times its
      reference span. */
  ghost predicate NoTinyPieces(b: Block, tags: seq<int>, rs: nat)
  {
    rs < |b.speseg| == |tags| && b.speseg[rs] != [] &&
    forall i, k :: 0 <= i < |tags| && tags[i] == OUT && 0 <= k < |b.speseg[i]| ==>
      NotTiny(RefSpan(b, rs))(b.speseg[i][k])
  }

  /** c has the pieces of b at the same places (states or chain ids may differ). */
  predicate SamePlaces(b: Block, c: Block)
  {
    |c.speseg| == |b.speseg| &&
    forall i :: 0 <= i < |b.speseg| ==>
      |c.speseg[i]| == |b.speseg[i]| &&
      forall k :: 0 <= k < |b.speseg[i]| ==>
        c.speseg[i][k].beg == b.speseg[i][k].beg && c.speseg[i][k].end == b.speseg[i][k].end
  }

  lemma SamePlacesNoTiny(b: Block, c: Block, tags: seq<int>, rs: nat)
    requires SamePlaces(b, c) && NoTinyPieces(b, tags, rs)
    ensures NoTinyPieces(c, tags, rs)
  {
    assert RefSpan(c, rs) == RefSpan(b, rs);
    forall i, k | 0 <= i < |tags| && tags[i] == OUT && 0 <= k < |c.speseg[i]|
      ensures NotTiny(RefSpan(c, rs))(c.speseg[i][k])
    {
      assert NotTiny(RefSpan(b, rs))(b.speseg[i][k]);
    }
  }

  /** remove_tiny_pieces leaves no tiny piece. */
  lemma TrimmedNoTiny(b: Block, c: Block, tags: seq<int>, rs: nat)
    requires rs < |b.speseg| == |tags| && b.speseg[rs] != [] && tags[rs] == REF && Trimmed(b, c, tags, rs)
    ensures NoTinyPieces(c, tags, rs)
  {
    assert RefSpan(c, rs) == RefSpan(b, rs);
    forall i, k | 0 <= i < |tags| && tags[i] == OUT && 0 <= k < |c.speseg[i]|
      ensures NotTiny(RefSpan(c, rs))(c.speseg[i][k])
    {
      FilterSpec(b.speseg[i], NotTiny(RefSpan(b, rs)));
      assert c.speseg[i][k] in c.speseg[i];
    }
  }

  /** The order arrays main builds from each species' order lines. */
  function OrderArrays(orders: seq<seq<seq<(int, int)>>>): (arrs: seq<seq<(int, int)>>)
    ensures |arrs| == |orders|
  {
    seq(|orders|, i requires 0 <= i < |orders| => OrderArray(orders[i]))
  }

  /** The blocks main prints, or None where it aborts: the blocks read, every outgroup's
      pieces merged along its order, tiny outgroup pieces dropped, states reassigned
      and chain-id lists merged. */
  ghost function CleanedOutgroups(cfg: Config, lines: seq<BlockLine>, orders: seq<seq<seq<(int, int)>>>)
    : Option<seq<Block>>
    requires cfg.WellFormed() && |orders| == |cfg.tags|
  {
    match ReadBlocks(lines, cfg.names)
    case None => None
    case Some(blocks) => CleanedBlocks(cfg, blocks, orders)
  }

  /** The passes of main after reading, or None where they abort. */
  ghost function CleanedBlocks(cfg: Config, blocks: seq<Block>, orders: seq<seq<seq<(int, int)>>>)
    : Option<seq<Block>>
    requires cfg.WellFormed() && |orders| == |cfg.tags| && Shaped(blocks, |cfg.names|)
  {
    match MergeOutgroups(blocks, cfg.tags, OrderArrays(orders), 0, |blocks|)
    case Fatal(_) => None
    case Ok(cur) =>
      if REF !in cfg.tags then None
      else
        var rs := TagIndex(cfg.tags, REF);
        if exists b :: 0 <= b < |cur| && cur[b].speseg[rs] == [] then None
        else Some(Tidied(cur, cfg.tags, rs))
  }

  /** remove_tiny_pieces, assign_states and merge_chlist on the merged blocks. */
  ghost function Tidied(cur: seq<Block>, tags: seq<int>, rs: nat): seq<Block>
    requires forall b :: 0 <= b < |cur| ==> rs < |cur[b].speseg| == |tags| && cur[b].speseg[rs] != []
  {
    MergedChains(States(seq(|cur|, b requires 0 <= b < |cur| => TrimBlock(cur[b], tags, rs))), tags)
  }

  /** The main program: read the conserved segments, merge each outgroup's consecutive
      sub-pieces where its order shows them adjacent, drop tiny outgroup pieces, then
      assign states and merge chain-id lists.  The order file is taken as each
      species' scanned lines of id.subid pairs. */
  method CleanOutgroupSegs(cfg: Config, lines: seq<BlockLine>, orders: seq<seq<seq<(int, int)>>>)
    returns (r: Result<seq<Block>>)
    requires cfg.WellFormed() && |orders| == |cfg.tags|
    ensures r.Ok? ==> LinesOk(lines, cfg.names) && REF in cfg.tags
    ensures r.Ok? ==> |r.value| == |HeadersOf(lines)|
    ensures r.Ok? ==> forall b :: 0 <= b < |r.value| ==> r.value[b].id == b + 1
    ensures r.Ok? ==> forall rs: nat :: IsRef(cfg.tags, rs) ==>
              forall b :: 0 <= b < |r.value| ==> NoTinyPieces(r.value[b], cfg.tags, rs)
    ensures r.Ok? <==> CleanedOutgroups(cfg, lines, orders).Some?
    ensures r.Ok? ==> r.value == CleanedOutgroups(cfg, lines, orders).value
  {
    var list := GetBlockList(lines, cfg.names);
    if list.Fatal? {
      return Fatal(list.msg);
    }
    r := CleanBlocks(cfg, list.value, orders);
  }

  /** main after reading the blocks: merging, remove_tiny_pieces, assign_states and
      merge_chlist, with the reference species looked up on the way. */
  method CleanBlocks(cfg: Config, blocks: seq<Block>, orders: seq<seq<seq<(int, int)>>>)
    returns (r: Result<seq<Block>>)
    requires cfg.WellFormed() && |orders| == |cfg.tags| && Shaped(blocks, |cfg.names|)
    requires forall b :: 0 <= b < |blocks| ==> blocks[b].id == b + 1
    ensures r.Ok? ==> REF in cfg.tags && |r.value| == |blocks|
    ensures r.Ok? ==> forall b :: 0 <= b < |r.value| ==> r.value[b].id == b + 1
    ensures r.Ok? ==> forall rs: nat :: IsRef(cfg.tags, rs) ==>
              forall b :: 0 <= b < |r.value| ==> NoTinyPieces(r.value[b], cfg.tags, rs)
    ensures r.Ok? <==> CleanedBlocks(cfg, blocks, orders).Some?
    ensures r.Ok? ==> r.value == CleanedBlocks(cfg, blocks, orders).value
  {
    ghost var spec := CleanedBlocks(cfg, blocks, orders);
    var arrs := OrderArrays(orders);
    var merged := MergeAllOutgroups(blocks, cfg.tags, arrs, |blocks|);
    if merged.Fatal? {
      return Fatal(merged.msg);
    }
    var ref := RefSpeIdx(cfg);
    if ref.Fatal? {
      return Fatal(ref.msg);
    }
    var rs := ref.value;
    var cur := merged.value;
    var present := RefsPresent(cur, rs);
    if !present {
      return Fatal("NULL dereference of a missing reference segment");
    }
    assert spec == Some(Tidied(cur, cfg.tags, rs));
    var trimmed := RemoveTinyPieces(cur, cfg.tags, rs);
    var final := Finish(cur, trimmed, cfg.tags, rs);
    r := Ok(final);
    forall rs' : nat | IsRef(cfg.tags, rs')
      ensures forall b :: 0 <= b < |final| ==> NoTinyPieces(final[b], cfg.tags, rs')
    {
      assert rs' == rs;
    }
  }

  /** assign_states and merge_chlist after remove_tiny_pieces. */
  method Finish(cur: seq<Block>, trimmed: seq<Block>, tags: seq<int>, rs: nat) returns (r: seq<Block>)
    requires IsRef(tags, rs) && |trimmed| == |cur|
    requires forall b :: 0 <= b < |cur| ==>
               (rs < |cur[b].speseg| == |tags| && cur[b].speseg[rs] != [] &&
                cur[b].id == b + 1 && Trimmed(cur[b], trimmed[b], tags, rs))
    ensures |r| == |cur|
    ensures forall b :: 0 <= b < |r| ==> r[b].id == b + 1 && NoTinyPieces(r[b], tags, rs)
    ensures r == Tidied(cur, tags, rs)
  {
    forall b | 0 <= b < |cur|
      ensures trimmed[b] == TrimBlock(cur[b], tags, rs)
    {
      assert trimmed[b].speseg == TrimBlock(cur[b], tags, rs).speseg;
    }
    assert trimmed == seq(|cur|, b requires 0 <= b < |cur| => TrimBlock(cur[b], tags, rs));
    var stated := AssignStates(trimmed);
    r := MergeChlist(stated, tags);
    forall b | 0 <= b < |r|
      ensures r[b].id == b + 1 && NoTinyPieces(r[b], tags, rs)
    {
      TrimmedNoTiny(cur[b], trimmed[b], tags, rs);
      assert SamePlaces(trimmed[b], stated[b]);
      SamePlacesNoTiny(trimmed[b], stated[b], tags, rs);
      assert SamePlaces(stated[b], r[b]);
      SamePlacesNoTiny(stated[b], r[b], tags, rs);
    }
  }
}
