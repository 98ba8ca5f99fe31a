/** The species configuration and the block/segment lists shared by the makeBlocks
    programs (code/makeBlocks/species.h, code/makeBlocks/species.c).

    A block list (`block_list`) is a sequence of blocks; each block holds, per species,
    the list of that species' segments (`seg_list`).  The C lists are singly linked and
    updated in place; here they are sequences and each in-place pass is a method that
    returns the updated sequence. */
module Species {
  import opened Wrappers
  import opened Lists

  // species.h, lines 8-16
  const MAXSPE := 100
  const MAXCHR := 50000
  const MAXORDER := 900000
  const MINOVL: real := 0.4
  const AFEW: real := 0.3
  const MINOUTSEG: real := 0.05
  const MINDESSEG: real := 0.05
  const MAXNUM := 500000000

  /** Species tags of the configuration file: the reference, a descendant, an outgroup. */
  const REF := 0
  const DES := 1
  const OUT := 2

  /** enum segstate (species.h, line 20). */
  datatype State = First | Last | Both | Middle

  /** seg_list: the source's count `chnum` and array `cidlist` are modelled by the one
      sequence `cidlist`, holding the chain ids a writer actually stores. */
  datatype Seg = Seg(id: int, beg: int, end: int, subid: int, chid: int,
                     cidlist: seq<int>, chr: string, orient: char, state: State)

  /** block_list: `speseg[i]` is the segment list of species i (NULL is []). */
  datatype Block = Block(id: int, isdup: bool, speseg: seq<seq<Seg>>)

  /** The species section of the configuration file: Spename, Spetag, Spechrassm. */
  datatype Config = Config(names: seq<string>, tags: seq<int>, chrassm: seq<int>)
  {
    predicate WellFormed()
    {
      |names| == |tags| == |chrassm|
    }
  }

  /** Every block has one (possibly empty) segment list per species. */
  predicate Shaped(blocks: seq<Block>, spesz: nat)
  {
    forall b :: 0 <= b < |blocks| ==> |blocks[b].speseg| == spesz
  }

  /** ORT (species.h, line 18). */
  function Ort(c: char): (r: char)
    ensures r != c
    ensures c == '+' || c == '-' ==> r == '+' || r == '-'
  {
    if c == '+' then '-' else '+'
  }

  /** ORT reverses a strand, and applying it twice gives the strand back exactly for the
      two strand characters. */
  lemma OrtInvolution(c: char)
    ensures Ort(Ort(c)) == c <==> c == '+' || c == '-'
  {
  }

  // ---------------------------------------------------------------------------
  // Species lookup (species.c, lines 16-45)

  /** spe_idx: the first species with the given name; an unknown name aborts. */
  method SpeIdx(names: seq<string>, sname: string) returns (r: Result<nat>)
    ensures r.Ok? <==> sname in names
    ensures r.Ok? ==> r.value < |names| && names[r.value] == sname
    ensures r.Ok? ==> forall k :: 0 <= k < r.value ==> names[k] != sname
  {
    var i := 0;
    while i < |names| && names[i] != sname
      invariant 0 <= i <= |names|
      invariant forall k :: 0 <= k < i ==> names[k] != sname
    {
      i := i + 1;
    }
    if i == |names| {
      return Fatal("unknown species");
    }
    r := Ok(i);
  }

  /** The search loop of ref_spe_idx and des_spe_idx: the first species with the tag. */
  method FirstTagged(tags: seq<int>, tag: int) returns (r: Result<nat>)
    ensures r.Ok? <==> tag in tags
    ensures r.Ok? ==> r.value < |tags| && tags[r.value] == tag
    ensures r.Ok? ==> forall k :: 0 <= k < r.value ==> tags[k] != tag
    ensures r.Fatal? ==> r.msg == NoSpecies
  {
    var i := 0;
    while i < |tags| && tags[i] != tag
      invariant 0 <= i <= |tags|
      invariant forall k :: 0 <= k < i ==> tags[k] != tag
    {
      i := i + 1;
    }
    if i == |tags| {
      return Fatal(NoSpecies);
    }
    r := Ok(i);
  }

  const NoSpecies := "species not specified"

  /** The index ref_spe_idx or des_spe_idx finds for a tag that occurs. */
  function TagIndex(tags: seq<int>, tag: int): (i: nat)
    requires tag in tags
    ensures i < |tags| && tags[i] == tag && forall k :: 0 <= k < i ==> tags[k] != tag
  {
    if tags[0] == tag then 0 else 1 + TagIndex(tags[1..], tag)
  }

  /** What ref_spe_idx returns for the tags. */
  function RefOf(tags: seq<int>): (r: Result<nat>)
    ensures r.Ok? <==> REF in tags
    ensures r.Ok? ==> IsRef(tags, r.value)
  {
    if REF in tags then Ok(TagIndex(tags, REF)) else Fatal(NoSpecies)
  }

  /** ref_spe_idx: the first species tagged 0; aborts when there is none. */
  method RefSpeIdx(cfg: Config) returns (r: Result<nat>)
    ensures r.Ok? <==> REF in cfg.tags
    ensures r.Ok? ==> r.value < |cfg.tags| && cfg.tags[r.value] == REF
    ensures r.Ok? ==> forall k :: 0 <= k < r.value ==> cfg.tags[k] != REF
    ensures r.Ok? ==> r.value == TagIndex(cfg.tags, REF)
    ensures r == RefOf(cfg.tags)
  {
    r := FirstTagged(cfg.tags, REF);
  }

  /** rs is the reference species ref_spe_idx finds: the first one tagged REF. */
  predicate IsRef(tags: seq<int>, rs: nat)
  {
    rs < |tags| && tags[rs] == REF && forall k :: 0 <= k < rs ==> tags[k] != REF
  }

  /** des_spe_idx: the first species tagged 1; aborts when there is none. */
  method DesSpeIdx(cfg: Config) returns (r: Result<nat>)
    ensures r.Ok? <==> DES in cfg.tags
    ensures r.Ok? ==> r.value < |cfg.tags| && cfg.tags[r.value] == DES
    ensures r.Ok? ==> forall k :: 0 <= k < r.value ==> cfg.tags[k] != DES
  {
    r := FirstTagged(cfg.tags, DES);
  }

  /** How many entries of s equal x. */
  function Count(s: seq<int>, x: int): nat
  {
    if s == [] then 0 else Count(s[..|s| - 1], x) + (if s[|s| - 1] == x then 1 else 0)
  }

  lemma {:induction false} CountZero(s: seq<int>, x: int)
    ensures Count(s, x) == 0 <==> x !in s
  {
    if s != [] {
      CountZero(s[..|s| - 1], x);
      assert s == s[..|s| - 1] + [s[|s| - 1]];
    }
  }

  /** The closing checks of get_spename (species.c, lines 76-84): at most MAXSPE
      species and exactly one reference species, counted by a loop. */
  method CheckSpecies(cfg: Config) returns (r: Result<nat>)
    ensures r.Ok? <==> |cfg.tags| <= MAXSPE && Count(cfg.tags, REF) == 1
    ensures r.Ok? ==> r.value == |cfg.tags|
  {
    if |cfg.tags| > MAXSPE {
      return Fatal("MAXSPE too small");
    }
    var i, n := 0, 0;
    while i < |cfg.tags|
      invariant 0 <= i <= |cfg.tags|
      invariant n == Count(cfg.tags[..i], REF)
    {
      assert cfg.tags[..i + 1][..i] == cfg.tags[..i];
      if cfg.tags[i] == REF {
        n := n + 1;
      }
      i := i + 1;
    }
    assert cfg.tags[..i] == cfg.tags;
    if n == 0 {
      return Fatal("ref species not specified");
    }
    if n > 1 {
      return Fatal("ref species more than one");
    }
    r := Ok(|cfg.tags|);
  }

  /** Once the configuration passed the check, the reference species is found and it
      is the only species tagged 0. */
  lemma {:induction false} SingleReference(tags: seq<int>, k: int)
    requires Count(tags, REF) == 1
    requires 0 <= k < |tags| && tags[k] == REF
    ensures forall k' :: 0 <= k' < |tags| && tags[k'] == REF ==> k' == k
  {
    var n := |tags| - 1;
    var init := tags[..n];
    assert tags == init + [tags[n]];
    if tags[n] == REF {
      CountZero(init, REF);
      assert forall k' :: 0 <= k' < n ==> init[k'] in init;
    } else {
      assert k < n && init[k] == REF;
      SingleReference(init, k);
      forall k' | 0 <= k' < |tags| && tags[k'] == REF
        ensures k' == k
      {
        assert k' < n && init[k'] == REF;
      }
    }
  }

  // ---------------------------------------------------------------------------
  // Blocks (species.c, lines 223-232, 321-385)

  /** allocate_newblock: every species slot NULL, isdup and id 0. */
  function AllocateNewblock(spesz: nat): (r: Block)
    ensures r.id == 0 && !r.isdup
    ensures |r.speseg| == spesz && forall i :: 0 <= i < spesz ==> r.speseg[i] == []
  {
    Block(0, false, seq(spesz, _ => []))
  }

  /** The state assign_states gives the k-th of n segments. */
  function StateAt(k: int, n: int): State
  {
    if n == 1 then Both
    else if k == 0 then First
    else if k == n - 1 then Last
    else Middle
  }

  /** The segment loop of assign_states: the head FIRST, the inner segments MIDDLE and
      the tail LAST, then the head BOTH when it is alone.  Only `state` changes. */
  method AssignStatesList(l: seq<Seg>) returns (r: seq<Seg>)
    ensures |r| == |l|
    ensures forall k :: 0 <= k < |l| ==> r[k] == l[k].(state := StateAt(k, |l|))
    ensures r == Stated(l)
  {
    r := l;
    if |r| == 0 {
      return;
    }
    r := r[0 := r[0].(state := First)];
    var k := 1;
    while k < |r| - 1
      invariant 1 <= k <= if |r| > 1 then |r| - 1 else 1
      invariant |r| == |l| && r[0] == l[0].(state := First)
      invariant forall m :: 1 <= m < k ==> r[m] == l[m].(state := Middle)
      invariant forall m :: k <= m < |r| ==> r[m] == l[m]
    {
      r := r[k := r[k].(state := Middle)];
      k := k + 1;
    }
    if |r| > 1 {
      r := r[|r| - 1 := r[|r| - 1].(state := Last)];
    }
    if |r| == 1 {
      r := r[0 := r[0].(state := Both)];
    }
  }

  /** A species list with the states assign_states gives it. */
  function Stated(l: seq<Seg>): (r: seq<Seg>)
    ensures |r| == |l| && WellStated(r)
    ensures forall k :: 0 <= k < |l| ==> r[k].(state := l[k].state) == l[k]
  {
    seq(|l|, k requires 0 <= k < |l| => l[k].(state := StateAt(k, |l|)))
  }

  /** The block list assign_states leaves: every species list of every block stated. */
  function States(blocks: seq<Block>): (r: seq<Block>)
    ensures |r| == |blocks|
    ensures forall b :: 0 <= b < |r| ==> StatedBlock(blocks[b], r[b])
  {
    seq(|blocks|, b requires 0 <= b < |blocks| =>
      blocks[b].(speseg := seq(|blocks[b].speseg|, i requires 0 <= i < |blocks[b].speseg| =>
        Stated(blocks[b].speseg[i]))))
  }

  /** A species list of block id after assign_orders. */
  function Renumbered(l: seq<Seg>, id: int): seq<Seg>
  {
    seq(|l|, k requires 0 <= k < |l| => l[k].(id := id, subid := k + 1))
  }

  /** The block list assign_orders leaves. */
  function Numbers(blocks: seq<Block>): (r: seq<Block>)
    ensures |r| == |blocks|
    ensures forall b :: 0 <= b < |r| ==> Numbered(blocks[b], r[b], b + 1)
  {
    seq(|blocks|, b requires 0 <= b < |blocks| =>
      blocks[b].(id := b + 1, speseg := seq(|blocks[b].speseg|, i requires 0 <= i < |blocks[b].speseg| =>
        Renumbered(blocks[b].speseg[i], b + 1))))
  }

  /** The list states: exactly one BOTH for a single segment, otherwise one FIRST at
      the head, one LAST at the tail and MIDDLE in between. */
  predicate WellStated(l: seq<Seg>)
  {
    (|l| == 1 ==> l[0].state == Both) &&
    (|l| > 1 ==> l[0].state == First && l[|l| - 1].state == Last &&
                 forall k :: 0 < k < |l| - 1 ==> l[k].state == Middle)
  }

  lemma StatesAreWellStated(l: seq<Seg>, r: seq<Seg>)
    requires |r| == |l|
    requires forall k :: 0 <= k < |l| ==> r[k] == l[k].(state := StateAt(k, |l|))
    ensures WellStated(r)
    ensures forall k :: 0 <= k < |l| ==> r[k].(state := l[k].state) == l[k]
  {
  }

  /** assign_states: every species list of every block gets its states. */
  method AssignStates(blocks: seq<Block>) returns (r: seq<Block>)
    ensures |r| == |blocks|
    ensures forall b :: 0 <= b < |r| ==> StatedBlock(blocks[b], r[b])
    ensures r == States(blocks)
  {
    r := [];
    var b := 0;
    while b < |blocks|
      invariant 0 <= b <= |blocks| && |r| == b
      invariant forall b' :: 0 <= b' < b ==> StatedBlock(blocks[b'], r[b'])
      invariant r == States(blocks)[..b]
    {
      var segs := StatedLists(blocks[b].speseg);
      assert segs == States(blocks)[b].speseg;
      r := r + [blocks[b].(speseg := segs)];
      assert States(blocks)[..b + 1] == States(blocks)[..b] + [States(blocks)[b]];
      b := b + 1;
    }
  }

  /** One block of assign_states' result against the block it came from. */
  predicate StatedBlock(old_b: Block, b: Block)
  {
    b.id == old_b.id && b.isdup == old_b.isdup && |b.speseg| == |old_b.speseg| &&
    forall i :: 0 <= i < |b.speseg| ==>
      |b.speseg[i]| == |old_b.speseg[i]| && WellStated(b.speseg[i]) &&
      forall k :: 0 <= k < |b.speseg[i]| ==>
        b.speseg[i][k] == old_b.speseg[i][k].(state := b.speseg[i][k].state)
  }

  /** The species loop of assign_states for one block. */
  method StatedLists(ls: seq<seq<Seg>>) returns (r: seq<seq<Seg>>)
    ensures |r| == |ls|
    ensures forall i :: 0 <= i < |r| ==> r[i] == Stated(ls[i])
    ensures forall i :: 0 <= i < |r| ==>
              |r[i]| == |ls[i]| && WellStated(r[i]) &&
              forall k :: 0 <= k < |r[i]| ==> r[i][k] == ls[i][k].(state := r[i][k].state)
  {
    r := [];
    var i := 0;
    while i < |ls|
      invariant 0 <= i <= |ls| && |r| == i
      invariant forall i' :: 0 <= i' < i ==>
                  |r[i']| == |ls[i']| && WellStated(r[i']) &&
                  forall k :: 0 <= k < |r[i']| ==> r[i'][k] == ls[i'][k].(state := r[i'][k].state)
      invariant forall i' :: 0 <= i' < i ==> r[i'] == Stated(ls[i'])
    {
      var l := AssignStatesList(ls[i]);
      StatesAreWellStated(ls[i], l);
      r := r + [l];
      i := i + 1;
    }
  }

  /** assign_orders: blocks are numbered 1..n in list order; each segment takes its
      block's id and its 1-based position in its species list as subid. */
  method AssignOrders(blocks: seq<Block>) returns (r: seq<Block>)
    ensures |r| == |blocks|
    ensures forall b :: 0 <= b < |r| ==> Numbered(blocks[b], r[b], b + 1)
    ensures r == Numbers(blocks)
  {
    r := [];
    var id := 0;
    while id < |blocks|
      invariant 0 <= id <= |blocks| && |r| == id
      invariant forall b :: 0 <= b < id ==> Numbered(blocks[b], r[b], b + 1)
      invariant r == Numbers(blocks)[..id]
    {
      var segs := NumberedLists(blocks[id].speseg, id + 1);
      assert segs == Numbers(blocks)[id].speseg;
      r := r + [blocks[id].(id := id + 1, speseg := segs)];
      assert Numbers(blocks)[..id + 1] == Numbers(blocks)[..id] + [Numbers(blocks)[id]];
      id := id + 1;
    }
  }

  /** Block b of assign_orders' result: its id, and every segment renumbered. */
  predicate Numbered(old_b: Block, b: Block, id: int)
  {
    b.id == id && b.isdup == old_b.isdup && |b.speseg| == |old_b.speseg| &&
    forall i :: 0 <= i < |b.speseg| ==>
      |b.speseg[i]| == |old_b.speseg[i]| &&
      forall k :: 0 <= k < |b.speseg[i]| ==> b.speseg[i][k] == old_b.speseg[i][k].(id := id, subid := k + 1)
  }

  /** The species and segment loops of assign_orders for one block. */
  method NumberedLists(ls: seq<seq<Seg>>, id: int) returns (r: seq<seq<Seg>>)
    ensures |r| == |ls|
    ensures forall i :: 0 <= i < |r| ==> r[i] == Renumbered(ls[i], id)
    ensures forall i :: 0 <= i < |r| ==>
              |r[i]| == |ls[i]| &&
              forall k :: 0 <= k < |r[i]| ==> r[i][k] == ls[i][k].(id := id, subid := k + 1)
  {
    r := [];
    var i := 0;
    while i < |ls|
      invariant 0 <= i <= |ls| && |r| == i
      invariant forall i' :: 0 <= i' < i ==>
                  |r[i']| == |ls[i']| &&
                  forall k :: 0 <= k < |r[i']| ==> r[i'][k] == ls[i'][k].(id := id, subid := k + 1)
    {
      var l := ls[i];
      var subid := 0;
      while subid < |l|
        invariant 0 <= subid <= |l| && |l| == |ls[i]|
        invariant forall k :: 0 <= k < subid ==> l[k] == ls[i][k].(id := id, subid := k + 1)
        invariant forall k :: subid <= k < |l| ==> l[k] == ls[i][k]
      {
        l := l[subid := l[subid].(id := id, subid := subid + 1)];
        subid := subid + 1;
      }
      r := r + [l];
      i := i + 1;
    }
  }

  /** After assign_orders the block ids are strictly increasing, hence distinct, and
      within a species list the subids are strictly increasing from 1. */
  lemma NumberingIsStrict(blocks: seq<Block>, r: seq<Block>)
    requires |r| == |blocks|
    requires forall b :: 0 <= b < |r| ==> Numbered(blocks[b], r[b], b + 1)
    ensures forall b, b' :: 0 <= b < b' < |r| ==> r[b].id < r[b'].id
    ensures forall b, i, k, k' :: 0 <= b < |r| && 0 <= i < |r[b].speseg| &&
              0 <= k < k' < |r[b].speseg[i]|
              ==> (r[b].speseg[i][k].subid < r[b].speseg[i][k'].subid &&
                   r[b].speseg[i][k].id == r[b].speseg[i][k'].id == r[b].id)
  {
  }

  /** The cid loop of merge_chlist: a chain id is kept when it differs from the last
      one kept, which starts as 0. */
  function Dedup(s: seq<int>, prev: int): (r: seq<int>)
    ensures |r| <= |s|
    ensures forall x :: x in r ==> x in s
  {
    if s == [] then []
    else if s[0] != prev then [s[0]] + Dedup(s[1..], s[0])
    else Dedup(s[1..], prev)
  }

  /** No entry equals its predecessor, with `prev` before the first. */
  predicate NoRepeats(s: seq<int>, prev: int)
  {
    (|s| > 0 ==> s[0] != prev) && forall k :: 0 < k < |s| ==> s[k] != s[k - 1]
  }

  /** merge_chlist's dedup leaves no repeats, and it changes a list exactly when the
      list has repeats (so the source's "rewrite only when shorter" changes nothing). */
  lemma {:induction false} DedupSpec(s: seq<int>, prev: int)
    ensures NoRepeats(Dedup(s, prev), prev)
    ensures Dedup(s, prev) == s <==> NoRepeats(s, prev)
    ensures |Dedup(s, prev)| == |s| <==> NoRepeats(s, prev)
  {
    if s != [] {
      DedupSpec(s[1..], s[0]);
      DedupSpec(s[1..], prev);
      var t := s[1..];
      if s[0] != prev {
        var d := Dedup(t, s[0]);
        assert Dedup(s, prev) == [s[0]] + d;
        if |d| > 0 {
          assert d[0] != s[0];
        }
        assert NoRepeats(s, prev) <==> NoRepeats(t, s[0]) by {
          if NoRepeats(t, s[0]) {
            forall k | 0 < k < |s|
              ensures s[k] != s[k - 1]
            {
              if k > 1 {
                assert t[k - 1] != t[k - 2];
              }
            }
          }
          if NoRepeats(s, prev) && |t| > 0 {
            assert s[1] != s[0];
            forall k | 0 < k < |t|
              ensures t[k] != t[k - 1]
            {
              assert s[k + 1] != s[k];
            }
          }
        }
      } else {
        assert !NoRepeats(s, prev);
      }
    }
  }

  /** Dedup is idempotent: a second merge_chlist changes nothing. */
  lemma DedupIdempotent(s: seq<int>)
    ensures Dedup(Dedup(s, 0), 0) == Dedup(s, 0)
  {
    DedupSpec(s, 0);
    DedupSpec(Dedup(s, 0), 0);
  }

  /** The cid loop of merge_chlist, over the kept buffer. */
  method MergeCids(cids: seq<int>) returns (r: seq<int>)
    ensures r == Dedup(cids, 0)
  {
    var buf: seq<int> := [];
    var prev, k := 0, 0;
    while k < |cids|
      invariant 0 <= k <= |cids|
      invariant buf + Dedup(cids[k..], prev) == Dedup(cids, 0)
    {
      assert cids[k..] == [cids[k]] + cids[k + 1..];
      if cids[k] != prev {
        buf := buf + [cids[k]];
        prev := cids[k];
      }
      k := k + 1;
    }
    if |buf| != |cids| {
      r := buf;
    } else {
      r := cids;
      DedupSpec(cids, 0);
    }
  }

  /** merge_chlist: every non-reference segment's chain-id list loses its repeats;
      reference lists and everything else are untouched. */
  method MergeChlist(blocks: seq<Block>, tags: seq<int>) returns (r: seq<Block>)
    requires Shaped(blocks, |tags|)
    ensures |r| == |blocks|
    ensures forall b :: 0 <= b < |r| ==> ChainsMerged(blocks[b], r[b], tags)
    ensures r == MergedChains(blocks, tags)
  {
    r := [];
    var b := 0;
    while b < |blocks|
      invariant 0 <= b <= |blocks| && |r| == b
      invariant forall b' :: 0 <= b' < b ==> ChainsMerged(blocks[b'], r[b'], tags)
      invariant r == MergedChains(blocks, tags)[..b]
    {
      var segs := MergedLists(blocks[b].speseg, tags);
      assert segs == MergedChains(blocks, tags)[b].speseg;
      assert MergedChains(blocks, tags)[..b + 1] == MergedChains(blocks, tags)[..b] + [MergedChains(blocks, tags)[b]];
      r := r + [blocks[b].(speseg := segs)];
      b := b + 1;
    }
  }

  /** The block list merge_chlist leaves. */
  function MergedChains(blocks: seq<Block>, tags: seq<int>): (r: seq<Block>)
    requires Shaped(blocks, |tags|)
    ensures |r| == |blocks| && forall b :: 0 <= b < |r| ==> ChainsMerged(blocks[b], r[b], tags)
  {
    seq(|blocks|, b requires 0 <= b < |blocks| =>
      blocks[b].(speseg := seq(|tags|, i requires 0 <= i < |tags| =>
        if tags[i] == REF then blocks[b].speseg[i] else DedupCids(blocks[b].speseg[i]))))
  }

  /** A species list with every chain-id list merged. */
  function DedupCids(l: seq<Seg>): seq<Seg>
  {
    seq(|l|, k requires 0 <= k < |l| => l[k].(cidlist := Dedup(l[k].cidlist, 0)))
  }

  predicate ChainsMerged(old_b: Block, b: Block, tags: seq<int>)
  {
    b.id == old_b.id && b.isdup == old_b.isdup &&
    |b.speseg| == |old_b.speseg| == |tags| &&
    forall i :: 0 <= i < |tags| ==>
      |b.speseg[i]| == |old_b.speseg[i]| &&
      forall k :: 0 <= k < |b.speseg[i]| ==>
        b.speseg[i][k] == (if tags[i] == REF then old_b.speseg[i][k]
                           else old_b.speseg[i][k].(cidlist := Dedup(old_b.speseg[i][k].cidlist, 0)))
  }

  /** The species and segment loops of merge_chlist for one block. */
  method MergedLists(ls: seq<seq<Seg>>, tags: seq<int>) returns (r: seq<seq<Seg>>)
    requires |ls| == |tags|
    ensures |r| == |ls|
    ensures forall i :: 0 <= i < |r| ==>
              |r[i]| == |ls[i]| &&
              forall k :: 0 <= k < |r[i]| ==>
                r[i][k] == (if tags[i] == REF then ls[i][k] else ls[i][k].(cidlist := Dedup(ls[i][k].cidlist, 0)))
    ensures forall i :: 0 <= i < |r| ==> r[i] == if tags[i] == REF then ls[i] else DedupCids(ls[i])
  {
    r := [];
    var i := 0;
    while i < |ls|
      invariant 0 <= i <= |ls| && |r| == i
      invariant forall i' :: 0 <= i' < i ==>
                  |r[i']| == |ls[i']| &&
                  forall k :: 0 <= k < |r[i']| ==>
                    r[i'][k] == (if tags[i'] == REF then ls[i'][k] else ls[i'][k].(cidlist := Dedup(ls[i'][k].cidlist, 0)))
      invariant forall i' :: 0 <= i' < i ==> r[i'] == if tags[i'] == REF then ls[i'] else DedupCids(ls[i'])
    {
      var l := ls[i];
      if tags[i] != REF {
        var k := 0;
        while k < |l|
          invariant 0 <= k <= |l| && |l| == |ls[i]|
          invariant forall m :: 0 <= m < k ==> l[m] == ls[i][m].(cidlist := Dedup(ls[i][m].cidlist, 0))
          invariant forall m :: k <= m < |l| ==> l[m] == ls[i][m]
        {
          var cids := MergeCids(l[k].cidlist);
          l := l[k := l[k].(cidlist := cids)];
          k := k + 1;
        }
        assert l == DedupCids(ls[i]);
      }
      r := r + [l];
      i := i + 1;
    }
  }

  /** Whether every block has a segment of species rs: the reference segment that
      clean_up, trim and remove_tiny_pieces read without a check. */
  method RefsPresent(blocks: seq<Block>, rs: nat) returns (r: bool)
    requires forall b :: 0 <= b < |blocks| ==> rs < |blocks[b].speseg|
    ensures r <==> forall b :: 0 <= b < |blocks| ==> blocks[b].speseg[rs] != []
  {
    for b := 0 to |blocks|
      invariant forall b' :: 0 <= b' < b ==> blocks[b'].speseg[rs] != []
    {
      if blocks[b].speseg[rs] == [] {
        return false;
      }
    }
    r := true;
  }

  // ---------------------------------------------------------------------------
  // Reading a block list (get_block_list, species.c, lines 234-319)

  /** A line of a block file, as its sscanf calls see it: a `>` header with the number
      it carries (if any), a segment line with its scanned fields, or a blank or `#`
      line.  `bracket` is the `[state]` field with the optional `[id.subid]`, `chid`
      the `(cid)` field and `chain` the `{n,c1,...}` field as n and the ids listed. */
  datatype BlockLine =
    | Skip
    | Header(num: Option<int>)
    | SegLine(spe: string, chr: string, beg: int, end: int, orient: char,
              bracket: Option<Option<(int, int)>>, chid: Option<int>,
              chain: Option<(int, seq<int>)>)

  /** The segment a segment line describes inside block `cur`.  A missing `[id.subid]`
      gives the block's id, as in the source.  A missing `(cid)` gives chid 0 here; the
      source leaves that field as its allocator returned it, which is not modelled. */
  function SegOf(line: BlockLine, cur: Block): (s: Seg)
    requires line.SegLine?
    ensures s.beg == line.beg && s.end == line.end && s.chr == line.chr && s.orient == line.orient
    ensures line.chain.Some? ==> s.cidlist == line.chain.value.1
    ensures line.chain.None? ==> s.cidlist == []
  {
    var idsub := match line.bracket
      case Some(Some(ids)) => ids
      case _ => (cur.id, 0);
    Seg(idsub.0, line.beg, line.end, idsub.1,
        match line.chid case Some(c) => c case None => 0,
        match line.chain case Some(ch) => ch.1 case None => [],
        line.chr, line.orient, First)
  }

  /** The line is accepted by get_block_list's per-line checks. */
  predicate LineOk(line: BlockLine, names: seq<string>, seenHeader: bool)
  {
    line.SegLine? ==>
      seenHeader && line.spe in names &&
      (line.chain.Some? ==> |line.chain.value.1| == line.chain.value.0)
  }

  /** Appends one segment to species `idx` of the last block. */
  function Append(blocks: seq<Block>, idx: nat, s: Seg): (r: seq<Block>)
    requires |blocks| > 0 && idx < |blocks[|blocks| - 1].speseg|
    ensures |r| == |blocks| && r[..|r| - 1] == blocks[..|blocks| - 1]
  {
    var last := blocks[|blocks| - 1];
    blocks[|blocks| - 1 := last.(speseg := last.speseg[idx := last.speseg[idx] + [s]])]
  }

  /** The index spe_idx finds for a name that is listed. */
  function IndexOf(names: seq<string>, name: string): (i: nat)
    requires name in names
    ensures FirstIndex(names, name, i)
  {
    if names[0] == name then 0 else 1 + IndexOf(names[1..], name)
  }

  /** What one line of a block file does to the blocks read so far; None where
      get_block_list aborts. */
  function BlockLineStep(blocks: seq<Block>, line: BlockLine, names: seq<string>): (r: Option<seq<Block>>)
    requires Shaped(blocks, |names|)
    ensures r.Some? <==> LineOk(line, names, |blocks| > 0)
    ensures r.Some? ==> Shaped(r.value, |names|)
  {
    match line
    case Skip => Some(blocks)
    case Header(num) =>
      var nb := AllocateNewblock(|names|);
      Some(blocks + [match num case Some(n) => nb.(id := n) case None => nb])
    case SegLine(_, _, _, _, _, _, _, _) =>
      if !LineOk(line, names, |blocks| > 0) then None
      else
        var last := blocks[|blocks| - 1];
        var i := IndexOf(names, line.spe);
        Some(blocks[|blocks| - 1 := last.(speseg := last.speseg[i := last.speseg[i] + [SegOf(line, last)]])])
  }

  /** get_block_list's line loop from the given blocks on; None where it aborts. */
  function Collected(blocks: seq<Block>, lines: seq<BlockLine>, names: seq<string>): (r: Option<seq<Block>>)
    requires Shaped(blocks, |names|)
    ensures r.Some? ==> Shaped(r.value, |names|)
    decreases |lines|
  {
    if lines == [] then Some(blocks)
    else match BlockLineStep(blocks, lines[0], names)
      case None => None
      case Some(b) => Collected(b, lines[1..], names)
  }

  /** The block list get_block_list returns for a file, or None where it aborts. */
  function ReadBlocks(lines: seq<BlockLine>, names: seq<string>): (r: Option<seq<Block>>)
    ensures r.Some? ==> Shaped(r.value, |names|)
  {
    match Collected([], lines, names)
    case None => None
    case Some(c) => Some(Numbers(States(c)))
  }

  /** The per-line logic of get_block_list: a `>` line opens a new block, a segment
      line is appended to its species' list in the last block, other lines are skipped.
      A segment line before any block, with a short `{n,...}` list or with an unknown
      species aborts. */
  method AddLine(blocks: seq<Block>, line: BlockLine, names: seq<string>) returns (r: Result<seq<Block>>)
    requires Shaped(blocks, |names|)
    ensures r.Ok? <==> LineOk(line, names, |blocks| > 0)
    ensures r.Ok? ==> Shaped(r.value, |names|) && |r.value| == |blocks| + (if line.Header? then 1 else 0)
    ensures r.Ok? ==> SegCount(r.value) == SegCount(blocks) + (if line.SegLine? then 1 else 0)
    ensures r.Ok? && line.SegLine? ==> SegAppended(blocks, r.value, line, names)
    ensures r.Ok? ==> BlockLineStep(blocks, line, names) == Some(r.value)
  {
    match line {
      case Skip =>
        r := Ok(blocks);
      case Header(num) =>
        var nb := AllocateNewblock(|names|);
        if num.Some? {
          nb := nb.(id := num.value);
        }
        SegCountAppend(blocks, nb);
        r := Ok(blocks + [nb]);
      case SegLine(_, _, _, _, _, _, _, chain) =>
        if |blocks| == 0 {
          // a segment before any `>` line: the source dereferences a NULL block
          return Fatal("segment outside a block");
        }
        if chain.Some? && |chain.value.1| != chain.value.0 {
          return Fatal("not enough cid");
        }
        var idx := SpeIdx(names, line.spe);
        if idx.Fatal? {
          return Fatal(idx.msg);
        }
        var s := SegOf(line, blocks[|blocks| - 1]);
        SegCountAddSeg(blocks, idx.value, s);
        r := Ok(Append(blocks, idx.value, s));
    }
  }

  /** i is the first index of name in names, the index spe_idx returns. */
  predicate FirstIndex(names: seq<string>, name: string, i: int)
  {
    0 <= i < |names| && names[i] == name && forall k :: 0 <= k < i ==> names[k] != name
  }

  /** b' is b with s appended to the list of species i and nothing else changed. */
  predicate AppendedTo(b: Block, b': Block, i: nat, s: Seg)
  {
    i < |b.speseg| && b' == b.(speseg := b.speseg[i := b.speseg[i] + [s]])
  }

  /** A segment line's segment went to the end of its species' list in the last block. */
  ghost predicate SegAppended(blocks: seq<Block>, r: seq<Block>, line: BlockLine, names: seq<string>)
    requires line.SegLine?
  {
    |blocks| > 0 && |r| == |blocks| && r[..|blocks| - 1] == blocks[..|blocks| - 1] &&
    forall i :: FirstIndex(names, line.spe, i) ==>
      AppendedTo(blocks[|blocks| - 1], r[|blocks| - 1], i, SegOf(line, blocks[|blocks| - 1]))
  }

  /** The line loop of get_block_list, before assign_states and assign_orders. */
  method CollectBlocks(lines: seq<BlockLine>, names: seq<string>) returns (r: Result<seq<Block>>)
    ensures r.Ok? <==> LinesOk(lines, names)
    ensures r.Ok? ==> |r.value| == |HeadersOf(lines)| && Shaped(r.value, |names|)
    ensures r.Ok? ==> SegCount(r.value) == SegLines(lines)
    ensures r.Ok? <==> Collected([], lines, names).Some?
    ensures r.Ok? ==> r.value == Collected([], lines, names).value
  {
    var blocks: seq<Block> := [];
    var k := 0;
    while k < |lines|
      invariant 0 <= k <= |lines|
      invariant LinesOk(lines[..k], names)
      invariant |blocks| == |HeadersOf(lines[..k])| && Shaped(blocks, |names|)
      invariant SegCount(blocks) == SegLines(lines[..k])
      invariant Collected(blocks, lines[k..], names) == Collected([], lines, names)
    {
      assert lines[k..][1..] == lines[k + 1..];
      assert lines[..k + 1] == lines[..k] + [lines[k]];
      assert lines[..k + 1][..k] == lines[..k];
      HeadersOfAppend(lines[..k], lines[k]);
      SegLinesAppend(lines[..k], lines[k]);
      var next := AddLine(blocks, lines[k], names);
      if next.Fatal? {
        if LinesOk(lines, names) {
          LinesOkPrefix(lines, names, k + 1);
        }
        return Fatal(next.msg);
      }
      blocks := next.value;
      k := k + 1;
    }
    assert lines[..k] == lines;
    r := Ok(blocks);
  }

  /** get_block_list: the collected blocks, with states and orders reassigned. */
  method GetBlockList(lines: seq<BlockLine>, names: seq<string>) returns (r: Result<seq<Block>>)
    ensures r.Ok? <==> LinesOk(lines, names)
    ensures r.Ok? ==> |r.value| == |HeadersOf(lines)| && SegCount(r.value) == SegLines(lines)
    ensures r.Ok? <==> ReadBlocks(lines, names).Some?
    ensures r.Ok? ==> r.value == ReadBlocks(lines, names).value
    ensures r.Ok? ==> forall b :: 0 <= b < |r.value| ==>
              r.value[b].id == b + 1 && |r.value[b].speseg| == |names| &&
              forall i :: 0 <= i < |names| ==> WellStated(r.value[b].speseg[i])
  {
    var c := CollectBlocks(lines, names);
    if c.Fatal? {
      return Fatal(c.msg);
    }
    var st := AssignStates(c.value);
    var ord := AssignOrders(st);
    forall b, i | 0 <= b < |ord| && 0 <= i < |names|
      ensures WellStated(ord[b].speseg[i])
    {
      assert Numbered(st[b], ord[b], b + 1);
      RenumberKeepsStates(st[b].speseg[i], ord[b].speseg[i], b + 1);
    }
    SegCountNumbered(c.value, st, ord);
    r := Ok(ord);
  }

  lemma RenumberKeepsStates(l: seq<Seg>, r: seq<Seg>, id: int)
    requires WellStated(l) && |r| == |l|
    requires forall k :: 0 <= k < |r| ==> r[k] == l[k].(id := id, subid := k + 1)
    ensures WellStated(r)
  {
  }

  /** Every line passes get_block_list's checks, given the lines before it. */
  predicate LinesOk(lines: seq<BlockLine>, names: seq<string>)
  {
    lines == [] ||
    (LinesOk(lines[..|lines| - 1], names) &&
     LineOk(lines[|lines| - 1], names, |HeadersOf(lines[..|lines| - 1])| > 0))
  }

  /** The checks of a file include those of each of its prefixes. */
  lemma {:induction false} LinesOkPrefix(lines: seq<BlockLine>, names: seq<string>, m: nat)
    requires LinesOk(lines, names) && m <= |lines|
    ensures LinesOk(lines[..m], names)
  {
    if m < |lines| {
      var init := lines[..|lines| - 1];
      assert init[..m] == lines[..m];
      LinesOkPrefix(init, names, m);
    } else {
      assert lines[..m] == lines;
    }
  }

  /** The header lines among the lines. */
  function HeadersOf(lines: seq<BlockLine>): seq<BlockLine>
  {
    if lines == [] then []
    else HeadersOf(lines[..|lines| - 1]) + (if lines[|lines| - 1].Header? then [lines[|lines| - 1]] else [])
  }

  lemma HeadersOfAppend(lines: seq<BlockLine>, line: BlockLine)
    ensures HeadersOf(lines + [line]) == HeadersOf(lines) + (if line.Header? then [line] else [])
  {
    assert (lines + [line])[..|lines|] == lines;
  }

  /** A line that may follow a header inside its block: a skipped line, or a
      well-formed segment line of a listed species. */
  predicate InBlock(line: BlockLine, names: seq<string>)
  {
    !line.Header? && LineOk(line, names, true)
  }

  /** The segments the lines give species i inside block cur, in file order. */
  function SegsFor(body: seq<BlockLine>, names: seq<string>, i: nat, cur: Block): seq<Seg>
    requires forall k :: 0 <= k < |body| ==> InBlock(body[k], names)
  {
    if body == [] then []
    else
      assert InBlock(body[0], names);
      (if body[0].SegLine? && IndexOf(names, body[0].spe) == i then [SegOf(body[0], cur)] else []) +
      SegsFor(body[1..], names, i, cur)
  }

  /** The block a `>` line opens. */
  function HeaderBlock(h: BlockLine, spesz: nat): (b: Block)
    requires h.Header?
    ensures |b.speseg| == spesz && forall i :: 0 <= i < spesz ==> b.speseg[i] == []
  {
    var nb := AllocateNewblock(spesz);
    match h.num case Some(n) => nb.(id := n) case None => nb
  }

  /** One block's part of the file: a `>` line, then the lines up to the next one. */
  predicate BlockSection(sec: seq<BlockLine>, names: seq<string>)
  {
    |sec| > 0 && sec[0].Header? && forall k :: 1 <= k < |sec| ==> InBlock(sec[k], names)
  }

  /** The block a section describes: the header's block with, for every species, the
      segments of its lines in file order. */
  function SectionBlock(sec: seq<BlockLine>, names: seq<string>): (b: Block)
    requires BlockSection(sec, names)
    ensures |b.speseg| == |names|
  {
    var nb := HeaderBlock(sec[0], |names|);
    nb.(speseg := seq(|names|, i requires 0 <= i < |names| => SegsFor(sec[1..], names, i, nb)))
  }

  /** Block b with the segments of the lines appended to each species' list. */
  function Extended(b: Block, body: seq<BlockLine>, names: seq<string>): (r: Block)
    requires |b.speseg| == |names| && forall k :: 0 <= k < |body| ==> InBlock(body[k], names)
    ensures |r.speseg| == |names|
  {
    b.(speseg := seq(|names|, i requires 0 <= i < |names| => b.speseg[i] + SegsFor(body, names, i, b)))
  }

  function BlockFile(secs: seq<seq<BlockLine>>): seq<BlockLine>
  {
    if secs == [] then [] else secs[0] + BlockFile(secs[1..])
  }

  /** A segment depends on its block only through the block's id. */
  lemma {:induction false} SegsForId(body: seq<BlockLine>, names: seq<string>, i: nat, b: Block, c: Block)
    requires forall k :: 0 <= k < |body| ==> InBlock(body[k], names)
    requires b.id == c.id
    ensures SegsFor(body, names, i, b) == SegsFor(body, names, i, c)
    decreases |body|
  {
    if body != [] {
      SegsForId(body[1..], names, i, b, c);
    }
  }

  /** Reading a + b is reading a, then reading b from where a left off. */
  lemma {:induction false} CollectedAppend(blocks: seq<Block>, a: seq<BlockLine>, b: seq<BlockLine>, names: seq<string>)
    requires Shaped(blocks, |names|)
    ensures Collected(blocks, a + b, names) ==
            match Collected(blocks, a, names) case None => None case Some(c) => Collected(c, b, names)
    decreases |a|
  {
    if a == [] {
      assert a + b == b;
    } else {
      assert (a + b)[0] == a[0] && (a + b)[1..] == a[1..] + b;
      match BlockLineStep(blocks, a[0], names)
      case None =>
      case Some(c) => CollectedAppend(c, a[1..], b, names);
    }
  }

  /** The lines of a block append their segments to the last block. */
  lemma {:induction false} CollectedBody(blocks: seq<Block>, body: seq<BlockLine>, names: seq<string>)
    requires Shaped(blocks, |names|) && |blocks| > 0
    requires forall k :: 0 <= k < |body| ==> InBlock(body[k], names)
    ensures Collected(blocks, body, names) ==
            Some(blocks[|blocks| - 1 := Extended(blocks[|blocks| - 1], body, names)])
    decreases |body|
  {
    var n := |blocks| - 1;
    var b := blocks[n];
    if body == [] {
      assert Extended(b, body, names).speseg == b.speseg by {
        forall i | 0 <= i < |names|
          ensures b.speseg[i] + SegsFor(body, names, i, b) == b.speseg[i]
        {
          assert b.speseg[i] + [] == b.speseg[i];
        }
      }
      assert blocks[n := b] == blocks;
    } else {
      var line := body[0];
      var rest := body[1..];
      assert InBlock(line, names);
      assert Collected(blocks, body, names) ==
             match BlockLineStep(blocks, line, names) case None => None case Some(c) => Collected(c, rest, names);
      if line.Skip? {
        assert BlockLineStep(blocks, line, names) == Some(blocks);
        CollectedBody(blocks, rest, names);
        forall i | 0 <= i < |names|
          ensures SegsFor(body, names, i, b) == SegsFor(rest, names, i, b)
        {
          assert SegsFor(body, names, i, b) == [] + SegsFor(rest, names, i, b);
        }
        assert Extended(b, rest, names) == Extended(b, body, names);
      } else {
        var j := IndexOf(names, line.spe);
        var b1 := b.(speseg := b.speseg[j := b.speseg[j] + [SegOf(line, b)]]);
        var next := blocks[n := b1];
        assert BlockLineStep(blocks, line, names) == Some(next);
        CollectedBody(next, rest, names);
        assert next[n := Extended(b1, rest, names)] == blocks[n := Extended(b1, rest, names)];
        ExtendedStep(b, body, names);
      }
    }
  }

  /** Appending the first line's segment, then the rest, is appending them all. */
  lemma ExtendedStep(b: Block, body: seq<BlockLine>, names: seq<string>)
    requires |b.speseg| == |names| && |body| > 0 && body[0].SegLine? && body[0].spe in names
    requires forall k :: 0 <= k < |body| ==> InBlock(body[k], names)
    ensures var j := IndexOf(names, body[0].spe);
            Extended(b.(speseg := b.speseg[j := b.speseg[j] + [SegOf(body[0], b)]]), body[1..], names) ==
            Extended(b, body, names)
  {
    var line, rest := body[0], body[1..];
    assert InBlock(line, names);
    var j := IndexOf(names, line.spe);
    var b1 := b.(speseg := b.speseg[j := b.speseg[j] + [SegOf(line, b)]]);
    forall i | 0 <= i < |names|
      ensures b1.speseg[i] + SegsFor(rest, names, i, b1) == b.speseg[i] + SegsFor(body, names, i, b)
    {
      SegsForId(rest, names, i, b1, b);
      if i == j {
        assert b.speseg[i] + [SegOf(line, b)] + SegsFor(rest, names, i, b) ==
               b.speseg[i] + SegsFor(body, names, i, b);
      } else {
        assert SegsFor(body, names, i, b) == [] + SegsFor(rest, names, i, b);
      }
    }
  }

  /** One section appends the block it describes. */
  lemma CollectedSection(blocks: seq<Block>, sec: seq<BlockLine>, names: seq<string>)
    requires Shaped(blocks, |names|) && BlockSection(sec, names)
    ensures Collected(blocks, sec, names) == Some(blocks + [SectionBlock(sec, names)])
  {
    var nb := HeaderBlock(sec[0], |names|);
    var started := blocks + [nb];
    assert sec == [sec[0]] + sec[1..];
    CollectedAppend(blocks, [sec[0]], sec[1..], names);
    assert Collected(blocks, [sec[0]], names) == Some(started) by {
      assert [sec[0]][1..] == [];
      assert BlockLineStep(blocks, sec[0], names) == Some(started);
    }
    CollectedBody(started, sec[1..], names);
    assert Extended(nb, sec[1..], names) == SectionBlock(sec, names) by {
      forall i | 0 <= i < |names|
        ensures nb.speseg[i] + SegsFor(sec[1..], names, i, nb) == SegsFor(sec[1..], names, i, nb)
      {
        assert nb.speseg[i] == [];
      }
    }
    assert started[|blocks| := SectionBlock(sec, names)] == blocks + [SectionBlock(sec, names)];
  }

  /** A file of sections reads as one block per section, in file order. */
  lemma {:induction false} CollectedSections(blocks: seq<Block>, secs: seq<seq<BlockLine>>, names: seq<string>)
    requires Shaped(blocks, |names|)
    requires forall j :: 0 <= j < |secs| ==> BlockSection(secs[j], names)
    ensures Collected(blocks, BlockFile(secs), names) ==
            Some(blocks + seq(|secs|, j requires 0 <= j < |secs| => SectionBlock(secs[j], names)))
    decreases |secs|
  {
    var want := seq(|secs|, j requires 0 <= j < |secs| => SectionBlock(secs[j], names));
    if secs == [] {
      assert blocks + want == blocks;
    } else {
      CollectedAppend(blocks, secs[0], BlockFile(secs[1..]), names);
      CollectedSection(blocks, secs[0], names);
      var withFirst := blocks + [SectionBlock(secs[0], names)];
      CollectedSections(withFirst, secs[1..], names);
      assert withFirst + seq(|secs| - 1, j requires 0 <= j < |secs| - 1 => SectionBlock(secs[1..][j], names)) ==
             blocks + want;
    }
  }

  /** Leading skipped lines change nothing. */
  lemma {:induction false} CollectedSkipped(blocks: seq<Block>, pre: seq<BlockLine>, rest: seq<BlockLine>, names: seq<string>)
    requires Shaped(blocks, |names|)
    requires forall k :: 0 <= k < |pre| ==> pre[k].Skip?
    ensures Collected(blocks, pre + rest, names) == Collected(blocks, rest, names)
    decreases |pre|
  {
    if pre == [] {
      assert pre + rest == rest;
    } else {
      assert (pre + rest)[0] == pre[0] && (pre + rest)[1..] == pre[1..] + rest;
      assert BlockLineStep(blocks, pre[0], names) == Some(blocks);
      CollectedSkipped(blocks, pre[1..], rest, names);
    }
  }

  /** What get_block_list returns for a well-formed file: after any skipped lines, one
      block per `>` line in file order, each holding, per species, the segments of its
      lines in file order; then states and numbers are assigned. */
  lemma ReadBlockFile(pre: seq<BlockLine>, secs: seq<seq<BlockLine>>, names: seq<string>)
    requires forall k :: 0 <= k < |pre| ==> pre[k].Skip?
    requires forall j :: 0 <= j < |secs| ==> BlockSection(secs[j], names)
    ensures ReadBlocks(pre + BlockFile(secs), names) ==
            Some(Numbers(States(seq(|secs|, j requires 0 <= j < |secs| => SectionBlock(secs[j], names)))))
  {
    CollectedSkipped([], pre, BlockFile(secs), names);
    CollectedSections([], secs, names);
    var want := seq(|secs|, j requires 0 <= j < |secs| => SectionBlock(secs[j], names));
    assert [] + want == want;
  }

  /** How many segment lines there are. */
  function SegLines(lines: seq<BlockLine>): nat
  {
    if lines == [] then 0
    else SegLines(lines[..|lines| - 1]) + (if lines[|lines| - 1].SegLine? then 1 else 0)
  }

  lemma SegLinesAppend(lines: seq<BlockLine>, line: BlockLine)
    ensures SegLines(lines + [line]) == SegLines(lines) + (if line.SegLine? then 1 else 0)
  {
    assert (lines + [line])[..|lines|] == lines;
  }

  /** How many segments a block list holds, over all species. */
  function SegCount(blocks: seq<Block>): nat
  {
    if blocks == [] then 0
    else SegCount(blocks[..|blocks| - 1]) + SpeciesSegs(blocks[|blocks| - 1].speseg)
  }

  function SpeciesSegs(ls: seq<seq<Seg>>): nat
  {
    if ls == [] then 0 else SpeciesSegs(ls[..|ls| - 1]) + |ls[|ls| - 1]|
  }

  lemma SegCountAppend(blocks: seq<Block>, nb: Block)
    requires forall i :: 0 <= i < |nb.speseg| ==> nb.speseg[i] == []
    ensures SegCount(blocks + [nb]) == SegCount(blocks)
  {
    assert (blocks + [nb])[..|blocks|] == blocks;
    SpeciesSegsEmpty(nb.speseg);
  }

  lemma {:induction false} SpeciesSegsEmpty(ls: seq<seq<Seg>>)
    requires forall i :: 0 <= i < |ls| ==> ls[i] == []
    ensures SpeciesSegs(ls) == 0
  {
    if ls != [] {
      SpeciesSegsEmpty(ls[..|ls| - 1]);
    }
  }

  lemma {:induction false} SpeciesSegsUpdate(ls: seq<seq<Seg>>, i: nat, l: seq<Seg>)
    requires i < |ls|
    ensures SpeciesSegs(ls[i := l]) == SpeciesSegs(ls) - |ls[i]| + |l|
  {
    var n := |ls| - 1;
    if i < n {
      assert ls[i := l][..n] == ls[..n][i := l];
      SpeciesSegsUpdate(ls[..n], i, l);
    } else {
      assert ls[i := l][..n] == ls[..n];
    }
  }

  lemma SegCountAddSeg(blocks: seq<Block>, idx: nat, s: Seg)
    requires |blocks| > 0 && idx < |blocks[|blocks| - 1].speseg|
    ensures SegCount(Append(blocks, idx, s)) == SegCount(blocks) + 1
  {
    var n := |blocks| - 1;
    assert Append(blocks, idx, s)[..n] == blocks[..n];
    var ls := blocks[n].speseg;
    SpeciesSegsUpdate(ls, idx, ls[idx] + [s]);
  }

  /** Two block lists whose species lists have the same lengths hold as many segments. */
  lemma {:induction false} SegCountSameShape(a: seq<Block>, b: seq<Block>)
    requires |a| == |b|
    requires forall k :: 0 <= k < |a| ==>
               |a[k].speseg| == |b[k].speseg| &&
               forall i :: 0 <= i < |a[k].speseg| ==> |a[k].speseg[i]| == |b[k].speseg[i]|
    ensures SegCount(a) == SegCount(b)
  {
    if a != [] {
      var n := |a| - 1;
      SegCountSameShape(a[..n], b[..n]);
      SpeciesSegsSameShape(a[n].speseg, b[n].speseg);
    }
  }

  lemma {:induction false} SpeciesSegsSameShape(a: seq<seq<Seg>>, b: seq<seq<Seg>>)
    requires |a| == |b| && forall i :: 0 <= i < |a| ==> |a[i]| == |b[i]|
    ensures SpeciesSegs(a) == SpeciesSegs(b)
  {
    if a != [] {
      SpeciesSegsSameShape(a[..|a| - 1], b[..|b| - 1]);
    }
  }

  lemma SegCountNumbered(c: seq<Block>, st: seq<Block>, ord: seq<Block>)
    requires |st| == |c| && |ord| == |st|
    requires forall b :: 0 <= b < |st| ==> StatedBlock(c[b], st[b])
    requires forall b :: 0 <= b < |ord| ==> Numbered(st[b], ord[b], b + 1)
    ensures SegCount(ord) == SegCount(c)
  {
    SegCountSameShape(c, st);
    SegCountSameShape(st, ord);
  }

  // ---------------------------------------------------------------------------
  // Runs of segments merged into one (merge_segs in cleanOutgroupSegs.c, merge_blocks
  // in makeConservedSegments.c)

  function Abs(x: int): nat { if x < 0 then -x else x }

  function Min(a: int, b: int): int { if a < b then a else b }
  function Max(a: int, b: int): int { if a > b then a else b }

  /** The smallest begin of a non-empty run of segments. */
  function MinBeg(run: seq<Seg>): (m: int)
    requires run != []
    ensures forall k :: 0 <= k < |run| ==> m <= run[k].beg
  {
    if |run| == 1 then run[0].beg
    else Min(MinBeg(run[..|run| - 1]), run[|run| - 1].beg)
  }

  /** The largest end of a non-empty run of segments. */
  function MaxEnd(run: seq<Seg>): (m: int)
    requires run != []
    ensures forall k :: 0 <= k < |run| ==> run[k].end <= m
  {
    if |run| == 1 then run[0].end
    else Max(MaxEnd(run[..|run| - 1]), run[|run| - 1].end)
  }

  /** The span of a merged run is the tightest one: its ends are a begin and an end of
      pieces of the run. */
  lemma {:induction false} HullAttained(run: seq<Seg>)
    requires run != []
    ensures exists k :: 0 <= k < |run| && MinBeg(run) == run[k].beg
    ensures exists k :: 0 <= k < |run| && MaxEnd(run) == run[k].end
  {
    if |run| == 1 {
      assert MinBeg(run) == run[0].beg && MaxEnd(run) == run[0].end;
    } else {
      var init := run[..|run| - 1];
      HullAttained(init);
      var i :| 0 <= i < |init| && MinBeg(init) == init[i].beg;
      var j :| 0 <= j < |init| && MaxEnd(init) == init[j].end;
      var n := |run| - 1;
      if MinBeg(run) == run[n].beg {
        assert MinBeg(run) == run[n].beg;
      } else {
        assert MinBeg(run) == run[i].beg;
      }
      if MaxEnd(run) == run[n].end {
        assert MaxEnd(run) == run[n].end;
      } else {
        assert MaxEnd(run) == run[j].end;
      }
    }
  }

  /** The chain ids of a run, in order. */
  function Chids(run: seq<Seg>): (r: seq<int>)
    ensures |r| == |run| && forall k :: 0 <= k < |run| ==> r[k] == run[k].chid
  {
    seq(|run|, k requires 0 <= k < |run| => run[k].chid)
  }

  lemma HullStep(l: seq<Seg>, bi: nat, nb: nat)
    requires bi < nb < |l|
    ensures MinBeg(l[bi..nb + 1]) == Min(MinBeg(l[bi..nb]), l[nb].beg)
    ensures MaxEnd(l[bi..nb + 1]) == Max(MaxEnd(l[bi..nb]), l[nb].end)
  {
    assert l[bi..nb + 1][..nb - bi] == l[bi..nb];
  }

  /** The loop merge_segs and merge_blocks use to find the first block with an id. */
  method FindBlock(blocks: seq<Block>, id: int) returns (r: Option<nat>)
    ensures r == Find(blocks, (b: Block) => b.id == id)
  {
    var p := 0;
    while p < |blocks| && blocks[p].id != id
      invariant 0 <= p <= |blocks|
      invariant forall k :: 0 <= k < p ==> blocks[k].id != id
    {
      p := p + 1;
    }
    r := if p < |blocks| then Some(p) else None;
  }
}
