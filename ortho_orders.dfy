/** orthoBlocksToOrders (code/makeBlocks/orthoBlocksToOrders.c): from the orthology
    blocks, the block order of every reference or descendant species along each of its
    chromosomes.  A block counts once per species, by the head of its list.  The output
    is a value: per species its name and, per chromosome, the name and the signed ids. */
module OrthoOrders {
  import opened Wrappers
  import opened Species
  import opened Lists
  import opened Chromosomes

  /** One species' part of the output. */
  datatype OrderSection = OrderSection(name: string, chroms: seq<(string, seq<int>)>)

  function SectionOf(name: string, h: seq<seq<Seg>>): OrderSection
  {
    OrderSection(name, seq(|h|, j requires 0 <= j < |h| => (Chrs(h)[j], Order(h[j]))))
  }

  /** The output: a section per species that is not an outgroup, in species order. */
  function Sections(names: seq<string>, tags: seq<int>, heads: seq<seq<seq<Seg>>>): seq<OrderSection>
    requires |names| == |tags| == |heads|
  {
    if names == [] then []
    else
      var n := |names| - 1;
      Sections(names[..n], tags[..n], heads[..n]) +
      (if tags[n] == OUT then [] else [SectionOf(names[n], heads[n])])
  }

  /** The printing loop of main. */
  method PrintSections(names: seq<string>, tags: seq<int>, heads: seq<seq<seq<Seg>>>)
    returns (r: seq<OrderSection>)
    requires |names| == |tags| == |heads|
    ensures r == Sections(names, tags, heads)
  {
    r := [];
    for i := 0 to |names|
      invariant r == Sections(names[..i], tags[..i], heads[..i])
    {
      assert names[..i + 1][..i] == names[..i] && tags[..i + 1][..i] == tags[..i] &&
             heads[..i + 1][..i] == heads[..i];
      if tags[i] != OUT {
        r := r + [SectionOf(names[i], heads[i])];
      }
    }
    assert names[..|names|] == names && tags[..|tags|] == tags && heads[..|heads|] == heads;
  }

  /** The species main groups: all but the outgroups. */
  function NotOutgroup(tags: seq<int>): (c: seq<bool>)
    ensures |c| == |tags| && forall i :: 0 <= i < |tags| ==> c[i] == (tags[i] != OUT)
  {
    seq(|tags|, i requires 0 <= i < |tags| => tags[i] != OUT)
  }

  /** The lists of every species: the head segments of the reference and descendant
      species grouped by chromosome; none for an outgroup. */
  function HeadLists(blocks: seq<Block>, tags: seq<int>): (h: seq<seq<seq<Seg>>>)
    requires Shaped(blocks, |tags|)
    ensures |h| == |tags|
  {
    seq(|tags|, i requires 0 <= i < |tags| =>
      if tags[i] != OUT then GroupInto([], PickedSegs(blocks, i, HeadSeg)) else [])
  }

  /** main: read the species and the block list, group the head segments of every
      reference and descendant species by chromosome, and print the orders. */
  method OrthoBlocksToOrders(cfg: Config, lines: seq<BlockLine>) returns (r: Result<seq<OrderSection>>)
    requires cfg.WellFormed()
    ensures r.Ok? <==> LinesOk(lines, cfg.names)
    ensures r.Ok? ==> ReadBlocks(lines, cfg.names).Some?
    ensures r.Ok? ==> r.value == Sections(cfg.names, cfg.tags, HeadLists(ReadBlocks(lines, cfg.names).value, cfg.tags))
  {
    var list := GetBlockList(lines, cfg.names);
    if list.Fatal? {
      return Fatal(list.msg);
    }
    var blocks := list.value;
    var heads := GroupSpecies(blocks, NotOutgroup(cfg.tags), HeadSeg);
    assert heads == HeadLists(blocks, cfg.tags);
    var out := PrintSections(cfg.names, cfg.tags, heads);
    r := Ok(out);
  }

  // ---------------------------------------------------------------------------
  // What the orders say

  /** The head segments picked are one per block in which the species has a segment,
      in block order. */
  lemma {:induction false} HeadsPicked(blocks: seq<Block>, i: nat)
    requires forall b :: 0 <= b < |blocks| ==> i < |blocks[b].speseg|
    ensures forall b :: 0 <= b < |blocks| && blocks[b].speseg[i] != [] ==>
              blocks[b].speseg[i][0] in PickedSegs(blocks, i, HeadSeg)
    ensures forall s :: s in PickedSegs(blocks, i, HeadSeg) ==>
              exists b :: 0 <= b < |blocks| && blocks[b].speseg[i] != [] && s == blocks[b].speseg[i][0]
    ensures |PickedSegs(blocks, i, HeadSeg)| <= |blocks|
  {
    if blocks != [] {
      var n := |blocks| - 1;
      HeadsPicked(blocks[..n], i);
      forall s | s in PickedSegs(blocks, i, HeadSeg)
        ensures exists b :: 0 <= b < |blocks| && blocks[b].speseg[i] != [] && s == blocks[b].speseg[i][0]
      {
        if s in PickedSegs(blocks[..n], i, HeadSeg) {
          var b :| 0 <= b < n && blocks[..n][b].speseg[i] != [] && s == blocks[..n][b].speseg[i][0];
          assert blocks[b] == blocks[..n][b];
        } else {
          assert s == blocks[n].speseg[i][0];
        }
      }
      forall b | 0 <= b < |blocks| && blocks[b].speseg[i] != []
        ensures blocks[b].speseg[i][0] in PickedSegs(blocks, i, HeadSeg)
      {
        if b < n {
          assert blocks[..n][b] == blocks[b];
        }
      }
    }
  }

  /** A species' section: one line per chromosome, in order of first appearance,
      holding exactly the head segments of the blocks on that chromosome, printed as
      signed ids, in ascending order of begin when no two of them share a begin. */
  lemma SectionOfSpecies(blocks: seq<Block>, tags: seq<int>, i: nat, name: string)
    requires Shaped(blocks, |tags|) && i < |tags| && tags[i] != OUT
    ensures var segs := PickedSegs(blocks, i, HeadSeg);
            var h := HeadLists(blocks, tags)[i];
            var sec := SectionOf(name, h);
            |sec.chroms| == |ChrsAfter([], segs)| &&
            (forall j :: 0 <= j < |sec.chroms| ==>
               sec.chroms[j].0 == ChrsAfter([], segs)[j] &&
               multiset(h[j]) == multiset(OnChr(segs, sec.chroms[j].0)) &&
               sec.chroms[j].1 == Order(h[j])) &&
            (DistinctBegs(segs) ==> forall j :: 0 <= j < |sec.chroms| ==> Ascending(h[j]))
  {
    Grouping(PickedSegs(blocks, i, HeadSeg));
  }
}
