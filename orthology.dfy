/** Orthology blocks (code/makeBlocks/makeOrthologyBlocks.c).

    The building blocks read back from the partition step are cleaned in three passes:
    of two blocks whose shared reference/descendant segments all overlap, the one with
    the shorter reference span is dropped (clean_up); non-reference segments on
    unassembled chromosomes or nested in another block's segment are dropped
    (clean_up_again); blocks too short, or with a descendant segment too short, are
    dropped (trim).  Unlinking from the C lists is filtering here. */
module Orthology {
  import opened Wrappers
  import opened Species
  import opened Lists

  // ---------------------------------------------------------------------------
  // Chromosome names (random_piece, lines 13-25)

  /** t occurs in s at position i. */
  predicate StartsAt(s: string, t: string, i: nat)
  {
    i + |t| <= |s| && s[i..i + |t|] == t
  }

  /** strstr(s, t) != NULL, tried at the first position of s and then further on. */
  function Occurs(s: string, t: string): (r: bool)
    ensures r <==> exists i: nat :: StartsAt(s, t, i)
    decreases |s|
  {
    if |s| < |t| then false
    else if s[..|t|] == t then assert StartsAt(s, t, 0); true
    else
      var r := Occurs(s[1..], t);
      assert forall i: nat :: StartsAt(s[1..], t, i) <==> StartsAt(s, t, i + 1);
      assert !StartsAt(s, t, 0);
      assert forall i: nat :: StartsAt(s, t, i) ==> i > 0 && StartsAt(s[1..], t, i - 1);
      r
  }

  /** random_piece: a segment lies on an unassembled or unwanted chromosome when the
      name does not start with "chr" (strncpy of the first three characters), or names
      an unplaced ("chrUn"), random, Y or mitochondrial sequence. */
  function RandomPiece(chr: string): (r: bool)
    ensures r <==> !(|chr| >= 3 && chr[..3] == "chr") || Occurs(chr, "chrUn") || Occurs(chr, "random")
                   || Occurs(chr, "chrY") || Occurs(chr, "chrM")
  {
    var buf := if |chr| < 3 then chr else chr[..3];
    if buf != "chr" then true
    else Occurs(chr, "chrUn") || Occurs(chr, "random") || Occurs(chr, "chrY") || Occurs(chr, "chrM")
  }

  /** An ordinary chromosome name passes. */
  lemma AssembledChromosome()
    ensures !RandomPiece("chr1")
  {
    assert "chr1"[..3] == "chr";
    assert !Occurs("chr1", "chrUn") && !Occurs("chr1", "random");
    assert "chr1"[..4] != "chrY" && "chr1"[..4] != "chrM";
    assert !Occurs("hr1", "chrY") && !Occurs("hr1", "chrM");
  }

  /** Scaffolds and the flagged kinds do not. */
  lemma UnassembledPieces()
    ensures RandomPiece("scaffold_7") && RandomPiece("chr1_random") && RandomPiece("chrY")
  {
    assert "scaffold_7"[0] != "chr"[0];
    assert StartsAt("chr1_random", "random", 5);
    assert StartsAt("chrY", "chrY", 0);
  }

  // ---------------------------------------------------------------------------
  // Overlap of two segments (overlap, lines 88-105)

  /** overlap: on one chromosome, one segment contains the other, or they overlap at one
      end by more than MINOVL times the shorter length. */
  predicate Overlap(x: Seg, y: Seg)
  {
    var b1, e1, b2, e2 := x.beg, x.end, y.beg, y.end;
    var m := Min(e1 - b1, e2 - b2) as real;
    x.chr == y.chr &&
    ((b1 >= b2 && e1 <= e2) || (b1 <= b2 && e1 >= e2) ||
     (b1 < b2 && e1 > b2 && (e1 - b2) as real > MINOVL * m) ||
     (b1 < e2 && e1 > e2 && (e2 - b1) as real > MINOVL * m))
  }

  /** Overlap does not depend on the order of its arguments, and every segment overlaps
      itself. */
  lemma OverlapSymmetric(x: Seg, y: Seg)
    ensures Overlap(x, y) <==> Overlap(y, x)
    ensures Overlap(x, x)
  {
    var b1, e1, b2, e2 := x.beg, x.end, y.beg, y.end;
    assert Min(e1 - b1, e2 - b2) == Min(e2 - b2, e1 - b1);
  }

  // ---------------------------------------------------------------------------
  // Block predicates (contain_all, illegal_block, messy_piece)

  /** contain_all: every descendant has a segment in the block. */
  method ContainAll(b: Block, tags: seq<int>) returns (r: bool)
    requires |b.speseg| == |tags|
    ensures r <==> forall i :: 0 <= i < |tags| && tags[i] == DES ==> b.speseg[i] != []
  {
    var i := 0;
    while i < |tags|
      invariant 0 <= i <= |tags|
      invariant forall j :: 0 <= j < i && tags[j] == DES ==> b.speseg[j] != []
    {
      if tags[i] == DES && b.speseg[i] == [] {
        break;
      }
      i := i + 1;
    }
    r := i == |tags|;
  }

  /** The block has a reference segment; every reader of the reference span needs one. */
  predicate HasRef(b: Block, rs: nat)
  {
    rs < |b.speseg| && b.speseg[rs] != []
  }

  /** The reference span of a block, end - beg of its first reference segment. */
  function RefLen(b: Block, rs: nat): int
    requires HasRef(b, rs)
  {
    b.speseg[rs][0].end - b.speseg[rs][0].beg
  }

  /** Species i is a descendant whose first segment is shorter than MINDESSEG times
      len. */
  predicate ShortDescendant(b: Block, tags: seq<int>, i: nat, len: int)
    requires i < |tags| <= |b.speseg|
  {
    tags[i] == DES && b.speseg[i] != [] &&
    ((b.speseg[i][0].end - b.speseg[i][0].beg) as real) < (len as real) * MINDESSEG
  }

  /** What illegal_block decides: the reference span is below MINLEN, or some descendant
      segment is too short against it. */
  ghost predicate Illegal(b: Block, tags: seq<int>, rs: nat, minlen: int)
    requires HasRef(b, rs) && |tags| <= |b.speseg|
  {
    RefLen(b, rs) < minlen || exists i :: 0 <= i < |tags| && ShortDescendant(b, tags, i, RefLen(b, rs))
  }

  /** illegal_block.  The count of reference/descendant species it also computes is
      never used. */
  method IllegalBlock(b: Block, tags: seq<int>, rs: nat, minlen: int) returns (r: bool)
    requires HasRef(b, rs) && |tags| <= |b.speseg|
    ensures r == Illegal(b, tags, rs, minlen)
  {
    var len := b.speseg[rs][0].end - b.speseg[rs][0].beg;
    var illegal := len < minlen;
    for i := 0 to |tags|
      invariant forall j :: 0 <= j < i ==> !ShortDescendant(b, tags, j, len)
    {
      if tags[i] == DES && b.speseg[i] != [] &&
         ((b.speseg[i][0].end - b.speseg[i][0].beg) as real) < (len as real) * MINDESSEG {
        assert ShortDescendant(b, tags, i, RefLen(b, rs));
        return true;
      }
    }
    r := illegal;
  }

  /** One block's first segment of a species makes sg messy: on the same chromosome it
      contains sg, or covers sg but for an overhang of less than AFEW times sg's length
      at one end while being at least as long. */
  predicate MessyAgainst(sg: Seg, p: Seg)
  {
    var b1, e1, b2, e2 := sg.beg, sg.end, p.beg, p.end;
    var len1, len2 := e1 - b1, e2 - b2;
    p.chr == sg.chr &&
    ((b1 >= b2 && e1 <= e2) ||
     (b1 <= b2 && e1 <= e2 && e1 > b2 && ((b2 - b1) as real) < AFEW * (len1 as real) && len1 <= len2) ||
     (b1 >= b2 && e1 >= e2 && b1 < e2 && ((e1 - e2) as real) < AFEW * (len1 as real) && len1 <= len2))
  }

  /** Whether the first segment of species idx in block b, unless it is sg itself (block
      self), makes sg messy. */
  predicate MessyAt(sg: Seg, blocks: seq<Block>, idx: nat, self: Option<nat>, b: nat)
    requires b < |blocks|
  {
    idx < |blocks[b].speseg| && blocks[b].speseg[idx] != [] && Some(b) != self &&
    MessyAgainst(sg, blocks[b].speseg[idx][0])
  }

  /** messy_piece: some block's first segment of species idx, other than sg itself,
      makes sg messy.  self is the block whose first segment is sg, if any. */
  method MessyPiece(sg: Seg, blocks: seq<Block>, idx: nat, self: Option<nat>) returns (r: bool)
    ensures r <==> exists b :: 0 <= b < |blocks| && MessyAt(sg, blocks, idx, self, b)
  {
    for b := 0 to |blocks|
      invariant forall b' :: 0 <= b' < b ==> !MessyAt(sg, blocks, idx, self, b')
    {
      if idx < |blocks[b].speseg| && blocks[b].speseg[idx] != [] {
        if Some(b) == self {
          continue;
        }
        var p := blocks[b].speseg[idx][0];
        if MessyAgainst(sg, p) {
          assert MessyAt(sg, blocks, idx, self, b);
          return true;
        }
      }
    }
    r := false;
  }

  /** A segment that contains another on the same chromosome, and is not the same block's
      first segment, makes it messy. */
  lemma ContainedIsMessy(sg: Seg, p: Seg)
    requires p.chr == sg.chr && p.beg <= sg.beg && sg.end <= p.end
    ensures MessyAgainst(sg, p)
  {
  }

  // ---------------------------------------------------------------------------
  // trim (lines 61-86)

  /** A block trim keeps: it has its reference segment and is not illegal. */
  ghost predicate Legal(b: Block, tags: seq<int>, rs: nat, minlen: int)
  {
    HasRef(b, rs) && |tags| <= |b.speseg| && !Illegal(b, tags, rs, minlen)
  }

  ghost function LegalTest(tags: seq<int>, rs: nat, minlen: int): (f: Block -> bool)
    ensures forall b :: f(b) == Legal(b, tags, rs, minlen)
  {
    b => Legal(b, tags, rs, minlen)
  }

  ghost predicate AllRef(blocks: seq<Block>, tags: seq<int>, rs: nat)
  {
    forall b :: 0 <= b < |blocks| ==> HasRef(blocks[b], rs) && |blocks[b].speseg| == |tags|
  }

  /** trim: the illegal blocks are unlinked (the head moving when the first ones go)
      and the legal ones stay in order. */
  method Trim(blocks: seq<Block>, tags: seq<int>, rs: nat, minlen: int) returns (r: seq<Block>)
    requires AllRef(blocks, tags, rs)
    ensures r == Filter(blocks, LegalTest(tags, rs, minlen))
  {
    r := [];
    for k := 0 to |blocks|
      invariant r == Filter(blocks[..k], LegalTest(tags, rs, minlen))
    {
      assert blocks[..k + 1][..k] == blocks[..k];
      var illegal := IllegalBlock(blocks[k], tags, rs, minlen);
      if !illegal {
        r := r + [blocks[k]];
      }
    }
    assert blocks[..|blocks|] == blocks;
  }

  /** After trim every block is legal, every legal block is still there, and trimming
      again changes nothing. */
  lemma TrimSpec(blocks: seq<Block>, tags: seq<int>, rs: nat, minlen: int)
    ensures forall b :: b in Filter(blocks, LegalTest(tags, rs, minlen)) <==>
                        b in blocks && Legal(b, tags, rs, minlen)
    ensures Filter(Filter(blocks, LegalTest(tags, rs, minlen)), LegalTest(tags, rs, minlen)) ==
            Filter(blocks, LegalTest(tags, rs, minlen))
  {
    FilterSpec(blocks, LegalTest(tags, rs, minlen));
    FilterIdempotent(blocks, LegalTest(tags, rs, minlen));
  }

  // ---------------------------------------------------------------------------
  // clean_up (lines 142-189)

  /** Species i takes part in the comparison of blocks p and q: the reference or a
      descendant, with a segment in both. */
  predicate Shared(blocks: seq<Block>, tags: seq<int>, p: nat, q: nat, i: nat)
    requires p < |blocks| && q < |blocks| && i < |tags|
    requires |blocks[p].speseg| == |blocks[q].speseg| == |tags|
  {
    (tags[i] == REF || tags[i] == DES) && blocks[p].speseg[i] != [] && blocks[q].speseg[i] != []
  }

  /** Blocks p and q duplicate each other: every shared species' first segments overlap
      (stotal == ovtotal in clean_up). */
  ghost predicate Twins(blocks: seq<Block>, tags: seq<int>, p: nat, q: nat)
    requires p < |blocks| && q < |blocks|
    requires |blocks[p].speseg| == |blocks[q].speseg| == |tags|
  {
    forall i :: 0 <= i < |tags| && Shared(blocks, tags, p, q, i) ==>
      Overlap(blocks[p].speseg[i][0], blocks[q].speseg[i][0])
  }

  /** The species loop of clean_up for the pair p, q, counting shared species and
      overlapping ones. */
  method SharedOverlap(blocks: seq<Block>, tags: seq<int>, p: nat, q: nat) returns (r: bool)
    requires p < |blocks| && q < |blocks|
    requires |blocks[p].speseg| == |blocks[q].speseg| == |tags|
    ensures r == Twins(blocks, tags, p, q)
  {
    var stotal, ovtotal := 0, 0;
    for i := 0 to |tags|
      invariant 0 <= ovtotal <= stotal
      invariant ovtotal == stotal <==>
                  forall j :: 0 <= j < i && Shared(blocks, tags, p, q, j) ==>
                    Overlap(blocks[p].speseg[j][0], blocks[q].speseg[j][0])
    {
      if (tags[i] == REF || tags[i] == DES) && blocks[p].speseg[i] != [] && blocks[q].speseg[i] != [] {
        stotal := stotal + 1;
        if Overlap(blocks[p].speseg[i][0], blocks[q].speseg[i][0]) {
          ovtotal := ovtotal + 1;
        }
      }
    }
    r := stotal == ovtotal;
  }

  /** The pair a < b marks block k as a duplicate: they are twins and k is the one with
      the shorter reference span (b on a tie). */
  ghost predicate DupBy(blocks: seq<Block>, tags: seq<int>, rs: nat, a: nat, b: nat, k: nat)
    requires AllRef(blocks, tags, rs)
  {
    a < b < |blocks| && Twins(blocks, tags, a, b) &&
    k == (if RefLen(blocks[a], rs) < RefLen(blocks[b], rs) then a else b)
  }

  /** Block k is marked once the pairs before (P, Q) in clean_up's loop order are done. */
  ghost predicate MarkedBefore(blocks: seq<Block>, tags: seq<int>, rs: nat, k: nat, P: nat, Q: nat)
    requires AllRef(blocks, tags, rs) && k < |blocks|
  {
    blocks[k].isdup ||
    exists a: nat, b: nat :: (a < P || (a == P && b < Q)) && DupBy(blocks, tags, rs, a, b, k)
  }

  /** Block k is a duplicate after clean_up's marking loops: it was one, or some twin
      pair marks it. */
  ghost predicate Dup(blocks: seq<Block>, tags: seq<int>, rs: nat, k: nat)
    requires AllRef(blocks, tags, rs) && k < |blocks|
  {
    blocks[k].isdup || exists a: nat, b: nat :: DupBy(blocks, tags, rs, a, b, k)
  }

  ghost function Marked(blocks: seq<Block>, tags: seq<int>, rs: nat): (r: seq<Block>)
    requires AllRef(blocks, tags, rs)
    ensures |r| == |blocks|
  {
    seq(|blocks|, k requires 0 <= k < |blocks| => blocks[k].(isdup := Dup(blocks, tags, rs, k)))
  }

  /** The inner loop of clean_up's marking for p: q runs over the later blocks. */
  method MarkRow(cur: seq<Block>, blocks: seq<Block>, tags: seq<int>, rs: nat, p: nat)
    returns (r: seq<Block>)
    requires AllRef(blocks, tags, rs) && p < |blocks| && |cur| == |blocks|
    requires forall k :: 0 <= k < |blocks| ==>
               cur[k] == blocks[k].(isdup := MarkedBefore(blocks, tags, rs, k, p, p + 1))
    ensures |r| == |blocks|
    ensures forall k :: 0 <= k < |blocks| ==>
              r[k] == blocks[k].(isdup := MarkedBefore(blocks, tags, rs, k, p + 1, p + 2))
  {
    r := cur;
    for q := p + 1 to |blocks|
      invariant |r| == |blocks|
      invariant forall k :: 0 <= k < |blocks| ==>
                  r[k] == blocks[k].(isdup := MarkedBefore(blocks, tags, rs, k, p, q))
    {
      var twins := SharedOverlap(r, tags, p, q);
      assert twins == Twins(blocks, tags, p, q) by {
        assert forall i :: 0 <= i < |tags| ==> r[p].speseg[i] == blocks[p].speseg[i];
      }
      var lenp := r[p].speseg[rs][0].end - r[p].speseg[rs][0].beg;
      var lenq := r[q].speseg[rs][0].end - r[q].speseg[rs][0].beg;
      var old_r := r;
      if twins {
        if lenp < lenq {
          r := r[p := r[p].(isdup := true)];
        } else {
          r := r[q := r[q].(isdup := true)];
        }
      }
      forall k | 0 <= k < |blocks|
        ensures r[k] == blocks[k].(isdup := MarkedBefore(blocks, tags, rs, k, p, q + 1))
      {
        MarkedStep(blocks, tags, rs, k, p, q);
      }
    }
    forall k | 0 <= k < |blocks|
      ensures MarkedBefore(blocks, tags, rs, k, p, |blocks|) == MarkedBefore(blocks, tags, rs, k, p + 1, p + 2)
    {
      MarkedRowDone(blocks, tags, rs, k, p);
    }
  }

  /** Taking the pair (P, Q) adds exactly the block it marks. */
  lemma MarkedStep(blocks: seq<Block>, tags: seq<int>, rs: nat, k: nat, P: nat, Q: nat)
    requires AllRef(blocks, tags, rs) && k < |blocks| && P < Q < |blocks|
    ensures MarkedBefore(blocks, tags, rs, k, P, Q + 1) ==
            (MarkedBefore(blocks, tags, rs, k, P, Q) || DupBy(blocks, tags, rs, P, Q, k))
  {
    if MarkedBefore(blocks, tags, rs, k, P, Q + 1) && !blocks[k].isdup {
      var a: nat, b: nat :| (a < P || (a == P && b < Q + 1)) && DupBy(blocks, tags, rs, a, b, k);
      if !(a == P && b == Q) {
        assert (a < P || (a == P && b < Q)) && DupBy(blocks, tags, rs, a, b, k);
      }
    }
  }

  /** Once q has run out, row P is done: the pairs before (P, |blocks|) are those before
      (P + 1, P + 2). */
  lemma MarkedRowDone(blocks: seq<Block>, tags: seq<int>, rs: nat, k: nat, P: nat)
    requires AllRef(blocks, tags, rs) && k < |blocks|
    ensures MarkedBefore(blocks, tags, rs, k, P, |blocks|) == MarkedBefore(blocks, tags, rs, k, P + 1, P + 2)
  {
    if MarkedBefore(blocks, tags, rs, k, P + 1, P + 2) && !blocks[k].isdup {
      var a: nat, b: nat :| (a < P + 1 || (a == P + 1 && b < P + 2)) && DupBy(blocks, tags, rs, a, b, k);
      assert (a < P || (a == P && b < |blocks|)) && DupBy(blocks, tags, rs, a, b, k);
    }
  }

  /** The marking loops of clean_up: every pair p < q of twins marks the block with the
      shorter reference span (q on a tie). */
  method MarkDups(blocks: seq<Block>, tags: seq<int>, rs: nat) returns (r: seq<Block>)
    requires AllRef(blocks, tags, rs)
    ensures r == Marked(blocks, tags, rs)
  {
    r := blocks;
    forall k | 0 <= k < |blocks|
      ensures r[k] == blocks[k].(isdup := MarkedBefore(blocks, tags, rs, k, 0, 1))
    {
    }
    for p := 0 to |blocks|
      invariant |r| == |blocks|
      invariant forall k :: 0 <= k < |blocks| ==>
                  r[k] == blocks[k].(isdup := MarkedBefore(blocks, tags, rs, k, p, p + 1))
    {
      r := MarkRow(r, blocks, tags, rs, p);
    }
    forall k | 0 <= k < |blocks|
      ensures r[k] == Marked(blocks, tags, rs)[k]
    {
      if Dup(blocks, tags, rs, k) && !blocks[k].isdup {
        var a: nat, b: nat :| DupBy(blocks, tags, rs, a, b, k);
        assert (a < |blocks| || (a == |blocks| && b < |blocks| + 1)) && DupBy(blocks, tags, rs, a, b, k);
      }
    }
  }

  ghost function NotDup(): (f: Block -> bool)
    ensures forall b: Block :: f(b) == !b.isdup
  {
    (b: Block) => !b.isdup
  }

  /** clean_up: duplicates are marked and then unlinked, the rest kept in order. */
  method CleanUp(blocks: seq<Block>, tags: seq<int>, rs: nat) returns (r: seq<Block>)
    requires AllRef(blocks, tags, rs)
    ensures r == Filter(Marked(blocks, tags, rs), NotDup())
  {
    var marked := MarkDups(blocks, tags, rs);
    r := [];
    for k := 0 to |marked|
      invariant r == Filter(marked[..k], NotDup())
    {
      assert marked[..k + 1][..k] == marked[..k];
      if !marked[k].isdup {
        r := r + [marked[k]];
      }
    }
    assert marked[..|marked|] == marked;
  }

  /** Of two twin blocks clean_up drops the one with the shorter reference span (the
      later one on a tie), and a block stays marked once marked. */
  lemma CleanUpSpec(blocks: seq<Block>, tags: seq<int>, rs: nat, a: nat, b: nat)
    requires AllRef(blocks, tags, rs) && a < b < |blocks|
    ensures Twins(blocks, tags, a, b) && RefLen(blocks[a], rs) < RefLen(blocks[b], rs) ==>
              Marked(blocks, tags, rs)[a].isdup
    ensures Twins(blocks, tags, a, b) && RefLen(blocks[a], rs) >= RefLen(blocks[b], rs) ==>
              Marked(blocks, tags, rs)[b].isdup
    ensures blocks[a].isdup ==> Marked(blocks, tags, rs)[a].isdup
    ensures forall c :: (a < c < |blocks| && Twins(blocks, tags, a, c) &&
                         RefLen(blocks[a], rs) < RefLen(blocks[c], rs)) ==> Marked(blocks, tags, rs)[a].isdup
    ensures forall c :: (0 <= c < a && Twins(blocks, tags, c, a) &&
                         RefLen(blocks[c], rs) >= RefLen(blocks[a], rs)) ==> Marked(blocks, tags, rs)[a].isdup
  {
    if Twins(blocks, tags, a, b) {
      if RefLen(blocks[a], rs) < RefLen(blocks[b], rs) {
        assert DupBy(blocks, tags, rs, a, b, a);
      } else {
        assert DupBy(blocks, tags, rs, a, b, b);
      }
    }
    forall c | a < c < |blocks| && Twins(blocks, tags, a, c) && RefLen(blocks[a], rs) < RefLen(blocks[c], rs)
      ensures Marked(blocks, tags, rs)[a].isdup
    {
      assert DupBy(blocks, tags, rs, a, c, a);
    }
    forall c | 0 <= c < a && Twins(blocks, tags, c, a) && RefLen(blocks[c], rs) >= RefLen(blocks[a], rs)
      ensures Marked(blocks, tags, rs)[a].isdup
    {
      assert DupBy(blocks, tags, rs, c, a, a);
    }
  }

  // ---------------------------------------------------------------------------
  // clean_up_again (lines 191-219)

  /** No segment of l lies on an unassembled or unwanted chromosome. */
  ghost predicate NoRandom(l: seq<Seg>)
  {
    forall x :: x in l ==> !RandomPiece(x.chr)
  }

  /** blocks with list i of block p replaced by l. */
  function WithList(blocks: seq<Block>, p: nat, i: nat, l: seq<Seg>): (r: seq<Block>)
    requires p < |blocks| && i < |blocks[p].speseg|
    ensures |r| == |blocks| && |r[p].speseg| == |blocks[p].speseg| && r[p].speseg[i] == l
    ensures forall k :: 0 <= k < |blocks| && k != p ==> r[k] == blocks[k]
    ensures forall j :: 0 <= j < |blocks[p].speseg| && j != i ==> r[p].speseg[j] == blocks[p].speseg[j]
    ensures r[p].id == blocks[p].id && r[p].isdup == blocks[p].isdup
  {
    blocks[p := blocks[p].(speseg := blocks[p].speseg[i := l])]
  }

  /** Whether clean_up_again unlinks sg: its chromosome is random and the species is
      assembled, or it is messy against the blocks cur as they stand. */
  ghost predicate Drops(sg: Seg, cur: seq<Block>, i: nat, self: Option<nat>, assembled: bool)
  {
    (assembled && RandomPiece(sg.chr)) || exists b :: 0 <= b < |cur| && MessyAt(sg, cur, i, self, b)
  }

  /** The pieces of l[k..] the innermost loop of clean_up_again keeps, given the pieces
      kept before k: each is tested against the blocks with list i of block p holding
      the kept pieces and the rest of l, and as its own block's first segment when no
      piece was kept before it. */
  ghost function KeptFrom(blocks: seq<Block>, p: nat, i: nat, l: seq<Seg>, kept: seq<Seg>, k: nat, assembled: bool)
    : seq<Seg>
    requires p < |blocks| && i < |blocks[p].speseg| && k <= |l|
    decreases |l| - k
  {
    if k == |l| then kept
    else
      var cur := WithList(blocks, p, i, kept + l[k..]);
      var self := if kept == [] then Some(p) else None;
      KeptFrom(blocks, p, i, l, if Drops(l[k], cur, i, self, assembled) then kept else kept + [l[k]], k + 1, assembled)
  }

  /** Block list blocks after the innermost loop of clean_up_again on list i of block p. */
  ghost function ListCleaned(blocks: seq<Block>, p: nat, i: nat, assembled: bool): (r: seq<Block>)
    requires p < |blocks| && i < |blocks[p].speseg|
    ensures |r| == |blocks| && forall k :: 0 <= k < |blocks| ==> |r[k].speseg| == |blocks[k].speseg|
  {
    WithList(blocks, p, i, KeptFrom(blocks, p, i, blocks[p].speseg[i], [], 0, assembled))
  }

  /** The innermost loop of clean_up_again, over list i of block p: a segment is
      unlinked when its chromosome is random and the species is assembled, or when it is
      messy against the blocks as they are at that moment (the segments before it
      already cleaned); the first segment still in the list is skipped as itself. */
  method CleanList(blocks: seq<Block>, p: nat, i: nat, assembled: bool) returns (r: seq<Block>)
    requires p < |blocks| && i < |blocks[p].speseg|
    ensures |r| == |blocks| && |r[p].speseg| == |blocks[p].speseg|
    ensures forall k :: 0 <= k < |blocks| && k != p ==> r[k] == blocks[k]
    ensures forall j :: 0 <= j < |blocks[p].speseg| && j != i ==> r[p].speseg[j] == blocks[p].speseg[j]
    ensures r[p].id == blocks[p].id && r[p].isdup == blocks[p].isdup
    ensures Sublist(r[p].speseg[i], blocks[p].speseg[i])
    ensures assembled ==> NoRandom(r[p].speseg[i])
    ensures r == ListCleaned(blocks, p, i, assembled)
  {
    var l := blocks[p].speseg[i];
    var kept: seq<Seg> := [];
    for k := 0 to |l|
      invariant Sublist(kept, l[..k])
      invariant assembled ==> NoRandom(kept)
      invariant KeptFrom(blocks, p, i, l, kept, k, assembled) == KeptFrom(blocks, p, i, l, [], 0, assembled)
    {
      var sg := l[k];
      var cur := WithList(blocks, p, i, kept + l[k..]);
      var self := if kept == [] then Some(p) else None;
      var messy := MessyPiece(sg, cur, i, self);
      assert l[..k + 1][..k] == l[..k];
      if !((assembled && RandomPiece(sg.chr)) || messy) {
        assert (kept + [sg])[..|kept|] == kept;
        kept := kept + [sg];
      }
    }
    assert l[..|l|] == l;
    r := WithList(blocks, p, i, kept);
  }

  /** Block c is block b after clean_up_again has cleaned its first n species: the
      reference list untouched, every other list a sublist, and the random pieces of the
      assembled species among the first n gone. */
  ghost predicate Cleaned(b: Block, c: Block, chrassm: seq<int>, rs: nat, n: nat)
  {
    c.id == b.id && c.isdup == b.isdup && |c.speseg| == |b.speseg| &&
    (rs < |b.speseg| ==> c.speseg[rs] == b.speseg[rs]) &&
    (forall j :: 0 <= j < |b.speseg| ==> Sublist(c.speseg[j], b.speseg[j])) &&
    (forall j :: 0 <= j < n && j < |b.speseg| && j < |chrassm| && j != rs && chrassm[j] == 1 ==>
       NoRandom(c.speseg[j]))
  }

  /** The species loop of clean_up_again for block p from species i on: every list
      but the reference one cleaned in species order. */
  ghost function BlockCleaned(blocks: seq<Block>, p: nat, chrassm: seq<int>, rs: nat, i: nat): (r: seq<Block>)
    requires p < |blocks| && |blocks[p].speseg| <= |chrassm|
    ensures |r| == |blocks| && forall k :: 0 <= k < |blocks| ==> |r[k].speseg| == |blocks[k].speseg|
    decreases |blocks[p].speseg| - i
  {
    if i >= |blocks[p].speseg| then blocks
    else if i == rs then BlockCleaned(blocks, p, chrassm, rs, i + 1)
    else BlockCleaned(ListCleaned(blocks, p, i, chrassm[i] == 1), p, chrassm, rs, i + 1)
  }

  /** clean_up_again from block p on, each block cleaned against the blocks as they
      stand. */
  ghost function AllCleaned(blocks: seq<Block>, chrassm: seq<int>, rs: nat, p: nat): (r: seq<Block>)
    requires forall b :: 0 <= b < |blocks| ==> |blocks[b].speseg| <= |chrassm|
    ensures |r| == |blocks| && forall k :: 0 <= k < |blocks| ==> |r[k].speseg| == |blocks[k].speseg|
    decreases |blocks| - p
  {
    if p >= |blocks| then blocks
    else AllCleaned(BlockCleaned(blocks, p, chrassm, rs, 0), chrassm, rs, p + 1)
  }

  /** The species loop of clean_up_again for block p. */
  method CleanBlock(blocks: seq<Block>, p: nat, chrassm: seq<int>, rs: nat) returns (r: seq<Block>)
    requires p < |blocks| && |blocks[p].speseg| <= |chrassm|
    ensures |r| == |blocks|
    ensures forall k :: 0 <= k < |blocks| && k != p ==> r[k] == blocks[k]
    ensures Cleaned(blocks[p], r[p], chrassm, rs, |blocks[p].speseg|)
    ensures r == BlockCleaned(blocks, p, chrassm, rs, 0)
  {
    r := blocks;
    var n := |blocks[p].speseg|;
    forall j | 0 <= j < n
      ensures Sublist(r[p].speseg[j], blocks[p].speseg[j])
    {
      SublistRefl(blocks[p].speseg[j]);
    }
    for i := 0 to n
      invariant |r| == |blocks|
      invariant forall k :: 0 <= k < |blocks| && k != p ==> r[k] == blocks[k]
      invariant Cleaned(blocks[p], r[p], chrassm, rs, i)
      invariant p < |r| && |r[p].speseg| == n
      invariant BlockCleaned(r, p, chrassm, rs, i) == BlockCleaned(blocks, p, chrassm, rs, 0)
    {
      if i == rs {
        continue;
      }
      var prev := r;
      r := CleanList(r, p, i, chrassm[i] == 1);
      SublistTrans(r[p].speseg[i], prev[p].speseg[i], blocks[p].speseg[i]);
      if chrassm[i] == 1 {
        assert NoRandom(r[p].speseg[i]);
      }
      forall j | 0 <= j < i && j != rs && chrassm[j] == 1
        ensures NoRandom(r[p].speseg[j])
      {
        assert r[p].speseg[j] == prev[p].speseg[j];
      }
    }
  }

  /** clean_up_again: every block's non-reference lists are cleaned in list order, each
      against the blocks as already cleaned. */
  method CleanUpAgain(blocks: seq<Block>, chrassm: seq<int>, rs: nat) returns (r: seq<Block>)
    requires forall b :: 0 <= b < |blocks| ==> |blocks[b].speseg| <= |chrassm|
    ensures |r| == |blocks|
    ensures forall b :: 0 <= b < |blocks| ==> Cleaned(blocks[b], r[b], chrassm, rs, |blocks[b].speseg|)
    ensures r == AllCleaned(blocks, chrassm, rs, 0)
  {
    r := blocks;
    for p := 0 to |blocks|
      invariant |r| == |blocks|
      invariant forall b :: p <= b < |blocks| ==> r[b] == blocks[b]
      invariant forall b :: 0 <= b < |blocks| ==> |r[b].speseg| == |blocks[b].speseg|
      invariant AllCleaned(r, chrassm, rs, p) == AllCleaned(blocks, chrassm, rs, 0)
      invariant forall b :: 0 <= b < p ==> Cleaned(blocks[b], r[b], chrassm, rs, |blocks[b].speseg|)
    {
      r := CleanBlock(r, p, chrassm, rs);
    }
  }

  // ---------------------------------------------------------------------------
  // main (lines 221-255)

  /** A block as main prints it: legal, and no random piece of an assembled species. */
  ghost predicate Final(b: Block, cfg: Config, rs: nat, minlen: int)
  {
    Legal(b, cfg.tags, rs, minlen) &&
    forall j :: 0 <= j < |b.speseg| && j < |cfg.chrassm| && j != rs && cfg.chrassm[j] == 1 ==>
      NoRandom(b.speseg[j])
  }

  /** c is b with only states or numbers changed: the same lists of the same places. */
  predicate Relabeled(b: Block, c: Block)
  {
    |c.speseg| == |b.speseg| &&
    forall i :: 0 <= i < |b.speseg| ==>
      |c.speseg[i]| == |b.speseg[i]| &&
      forall k :: 0 <= k < |b.speseg[i]| ==>
        c.speseg[i][k].chr == b.speseg[i][k].chr && c.speseg[i][k].beg == b.speseg[i][k].beg &&
        c.speseg[i][k].end == b.speseg[i][k].end
  }

  /** Renumbering and restating a block keeps it final. */
  lemma RelabeledFinal(b: Block, c: Block, cfg: Config, rs: nat, minlen: int)
    requires Relabeled(b, c) && Final(b, cfg, rs, minlen)
    ensures Final(c, cfg, rs, minlen)
  {
    assert RefLen(c, rs) == RefLen(b, rs);
    forall i | 0 <= i < |cfg.tags|
      ensures !ShortDescendant(c, cfg.tags, i, RefLen(c, rs))
    {
      assert !ShortDescendant(b, cfg.tags, i, RefLen(b, rs));
    }
    forall j | 0 <= j < |c.speseg| && j < |cfg.chrassm| && j != rs && cfg.chrassm[j] == 1
      ensures NoRandom(c.speseg[j])
    {
      forall x | x in c.speseg[j]
        ensures !RandomPiece(x.chr)
      {
        var k :| 0 <= k < |c.speseg[j]| && c.speseg[j][k] == x;
        assert b.speseg[j][k] in b.speseg[j];
      }
    }
  }

  /** The blocks main prints for a block file, or None where it aborts: the blocks read,
      duplicates dropped by clean_up, lists cleaned by clean_up_again, illegal blocks
      dropped by trim, then states and numbers reassigned. */
  ghost function OrthologyBlocks(cfg: Config, minlen: int, lines: seq<BlockLine>): Option<seq<Block>>
    requires cfg.WellFormed()
  {
    if REF !in cfg.tags then None
    else
      var rs := TagIndex(cfg.tags, REF);
      match ReadBlocks(lines, cfg.names)
      case None => None
      case Some(blocks) =>
        if !AllRef(blocks, cfg.tags, rs) then None else Some(Pruned(blocks, cfg, rs, minlen))
  }

  /** The passes of main after reading, as functions. */
  ghost function Pruned(blocks: seq<Block>, cfg: Config, rs: nat, minlen: int): seq<Block>
    requires cfg.WellFormed() && AllRef(blocks, cfg.tags, rs)
  {
    var unique := Filter(Marked(blocks, cfg.tags, rs), NotDup());
    CleanUpKeepsRef(blocks, cfg.tags, rs);
    Numbers(States(Filter(AllCleaned(unique, cfg.chrassm, rs, 0), LegalTest(cfg.tags, rs, minlen))))
  }

  /** The main program: read the species and the building blocks, drop duplicates,
      random and messy pieces and illegal blocks, then assign states and numbers.  A
      block without a reference segment is dereferenced by clean_up or trim. */
  method MakeOrthologyBlocks(cfg: Config, minlen: int, lines: seq<BlockLine>)
    returns (r: Result<seq<Block>>)
    requires cfg.WellFormed()
    ensures r.Ok? ==> REF in cfg.tags && LinesOk(lines, cfg.names)
    ensures r.Ok? ==> |r.value| <= |HeadersOf(lines)|
    ensures r.Ok? ==> forall rs: nat :: IsRef(cfg.tags, rs) ==>
              forall b :: 0 <= b < |r.value| ==> r.value[b].id == b + 1 && Final(r.value[b], cfg, rs, minlen)
    ensures r.Ok? <==> OrthologyBlocks(cfg, minlen, lines).Some?
    ensures r.Ok? ==> r.value == OrthologyBlocks(cfg, minlen, lines).value
  {
    var ref := RefSpeIdx(cfg);
    if ref.Fatal? {
      return Fatal(ref.msg);
    }
    var rs := ref.value;
    var list := GetBlockList(lines, cfg.names);
    if list.Fatal? {
      return Fatal(list.msg);
    }
    var blocks := list.value;
    ghost var spec := OrthologyBlocks(cfg, minlen, lines);
    assert spec == if AllRef(blocks, cfg.tags, rs) then Some(Pruned(blocks, cfg, rs, minlen)) else None;
    var present := RefsPresent(blocks, rs);
    if !present {
      return Fatal("NULL dereference of a missing reference segment");
    }
    assert AllRef(blocks, cfg.tags, rs);
    var numbered := CleanAll(blocks, cfg, rs, minlen);
    r := Ok(numbered);
    forall rs' : nat | IsRef(cfg.tags, rs')
      ensures forall b :: 0 <= b < |r.value| ==> r.value[b].id == b + 1 && Final(r.value[b], cfg, rs', minlen)
    {
      assert rs' == rs;
    }
  }

  /** The passes of main after reading: clean_up, clean_up_again, trim, then
      assign_states and assign_orders. */
  method CleanAll(blocks: seq<Block>, cfg: Config, rs: nat, minlen: int) returns (r: seq<Block>)
    requires cfg.WellFormed() && AllRef(blocks, cfg.tags, rs)
    ensures forall b :: 0 <= b < |r| ==> r[b].id == b + 1 && Final(r[b], cfg, rs, minlen)
    ensures |r| <= |blocks|
    ensures r == Pruned(blocks, cfg, rs, minlen)
  {
    var unique := CleanUp(blocks, cfg.tags, rs);
    CleanUpKeepsRef(blocks, cfg.tags, rs);
    var cleaned := CleanUpAgain(unique, cfg.chrassm, rs);
    var legal := Trim(cleaned, cfg.tags, rs, minlen);
    TrimmedFinal(unique, cleaned, cfg, rs, minlen);
    FilterSpec(Marked(blocks, cfg.tags, rs), NotDup());
    FilterSpec(cleaned, LegalTest(cfg.tags, rs, minlen));
    r := Renumber(legal, cfg, rs, minlen);
  }

  /** clean_up keeps every block's reference segment and species lists. */
  lemma CleanUpKeepsRef(blocks: seq<Block>, tags: seq<int>, rs: nat)
    requires AllRef(blocks, tags, rs)
    ensures AllRef(Filter(Marked(blocks, tags, rs), NotDup()), tags, rs)
  {
    var unique := Filter(Marked(blocks, tags, rs), NotDup());
    FilterSpec(Marked(blocks, tags, rs), NotDup());
    forall b | 0 <= b < |unique|
      ensures HasRef(unique[b], rs) && |unique[b].speseg| == |tags|
    {
      assert unique[b] in Marked(blocks, tags, rs);
    }
  }

  /** After clean_up_again and trim every block left is final. */
  lemma TrimmedFinal(unique: seq<Block>, cleaned: seq<Block>, cfg: Config, rs: nat, minlen: int)
    requires |cleaned| == |unique|
    requires forall b :: 0 <= b < |unique| ==> Cleaned(unique[b], cleaned[b], cfg.chrassm, rs, |unique[b].speseg|)
    ensures forall x :: x in Filter(cleaned, LegalTest(cfg.tags, rs, minlen)) ==> Final(x, cfg, rs, minlen)
  {
    var f := LegalTest(cfg.tags, rs, minlen);
    FilterSpec(cleaned, f);
    forall x | x in Filter(cleaned, f)
      ensures Final(x, cfg, rs, minlen)
    {
      var k :| 0 <= k < |cleaned| && cleaned[k] == x;
      CleanedFinal(unique[k], x, cfg, rs, minlen);
    }
  }

  /** A legal block cleaned by clean_up_again is final. */
  lemma CleanedFinal(u: Block, c: Block, cfg: Config, rs: nat, minlen: int)
    requires Cleaned(u, c, cfg.chrassm, rs, |u.speseg|) && Legal(c, cfg.tags, rs, minlen)
    ensures Final(c, cfg, rs, minlen)
  {
  }

  /** assign_states and assign_orders: final blocks stay final and are numbered 1..n. */
  method Renumber(legal: seq<Block>, cfg: Config, rs: nat, minlen: int) returns (r: seq<Block>)
    requires forall x :: x in legal ==> Final(x, cfg, rs, minlen)
    ensures |r| == |legal|
    ensures forall b :: 0 <= b < |r| ==> r[b].id == b + 1 && Final(r[b], cfg, rs, minlen)
    ensures r == Numbers(States(legal))
  {
    var stated := AssignStates(legal);
    r := AssignOrders(stated);
    forall b | 0 <= b < |r|
      ensures r[b].id == b + 1 && Final(r[b], cfg, rs, minlen)
    {
      assert legal[b] in legal;
      assert Relabeled(legal[b], stated[b]);
      RelabeledFinal(legal[b], stated[b], cfg, rs, minlen);
      assert Relabeled(stated[b], r[b]);
      RelabeledFinal(stated[b], r[b], cfg, rs, minlen);
    }
  }

}
