/** outgroupSegsToOrders (code/makeBlocks/outgroupSegsToOrders.c): from the block
    list, the order of every outgroup segment along each outgroup chromosome.  Every
    segment of an outgroup list counts; each is printed as its block id, signed by its
    orientation, and its sub-id.  The output is a value. */
module OutgroupOrders {
  import opened Wrappers
  import opened Species
  import opened Lists
  import opened Chromosomes

  /** One outgroup's part of the output: per chromosome, (signed id, subid) pairs. */
  datatype OrderSection = OrderSection(name: string, chroms: seq<(string, seq<(int, int)>)>)

  /** A chromosome list as its line of id.subid entries, the id negated unless the
      orientation is '+'. */
  function Pieces(l: seq<Seg>): (o: seq<(int, int)>)
    ensures |o| == |l| && forall k :: 0 <= k < |l| ==> o[k] == (Signed(l[k]), l[k].subid)
  {
    seq(|l|, k requires 0 <= k < |l| => (Signed(l[k]), l[k].subid))
  }

  function SectionOf(name: string, h: seq<seq<Seg>>): OrderSection
  {
    OrderSection(name, seq(|h|, j requires 0 <= j < |h| => (Chrs(h)[j], Pieces(h[j]))))
  }

  /** The output: a section per outgroup, in species order. */
  function Sections(names: seq<string>, tags: seq<int>, heads: seq<seq<seq<Seg>>>): seq<OrderSection>
    requires |names| == |tags| == |heads|
  {
    if names == [] then []
    else
      var n := |names| - 1;
      Sections(names[..n], tags[..n], heads[..n]) +
      (if tags[n] != OUT then [] else [SectionOf(names[n], heads[n])])
  }

  /** The printing loop of main. */
  method PrintSections(names: seq<string>, tags: seq<int>, heads: seq<seq<seq<Seg>>>)
    returns (r: seq<OrderSection>)
    requires |names| == |tags| == |heads|
    ensures r == Sections(names, tags, heads)
  {
    r := [];
    for i := 0 to |names|
      invariant r == Sections(names[..i], tags[..i], heads[..i])
    {
      assert names[..i + 1][..i] == names[..i] && tags[..i + 1][..i] == tags[..i] &&
             heads[..i + 1][..i] == heads[..i];
      if tags[i] == OUT {
        r := r + [SectionOf(names[i], heads[i])];
      }
    }
    assert names[..|names|] == names && tags[..|tags|] == tags && heads[..|heads|] == heads;
  }

  function Outgroup(tags: seq<int>): (c: seq<bool>)
    ensures |c| == |tags| && forall i :: 0 <= i < |tags| ==> c[i] == (tags[i] == OUT)
  {
    seq(|tags|, i requires 0 <= i < |tags| => tags[i] == OUT)
  }

  /** The lists of every species: all segments of each outgroup grouped by
      chromosome; none for the other species. */
  function OutgroupLists(blocks: seq<Block>, tags: seq<int>): (h: seq<seq<seq<Seg>>>)
    requires Shaped(blocks, |tags|)
    ensures |h| == |tags|
  {
    seq(|tags|, i requires 0 <= i < |tags| =>
      if tags[i] == OUT then GroupInto([], PickedSegs(blocks, i, EverySeg)) else [])
  }

  /** main: read the species and the block list, group every outgroup segment by
      chromosome, and print the orders. */
  method OutgroupSegsToOrders(cfg: Config, lines: seq<BlockLine>) returns (r: Result<seq<OrderSection>>)
    requires cfg.WellFormed()
    ensures r.Ok? <==> LinesOk(lines, cfg.names)
    ensures r.Ok? ==> ReadBlocks(lines, cfg.names).Some?
    ensures r.Ok? ==> r.value == Sections(cfg.names, cfg.tags, OutgroupLists(ReadBlocks(lines, cfg.names).value, cfg.tags))
  {
    var list := GetBlockList(lines, cfg.names);
    if list.Fatal? {
      return Fatal(list.msg);
    }
    var blocks := list.value;
    var heads := GroupSpecies(blocks, Outgroup(cfg.tags), EverySeg);
    assert heads == OutgroupLists(blocks, cfg.tags);
    var out := PrintSections(cfg.names, cfg.tags, heads);
    r := Ok(out);
  }

  /** Every segment of an outgroup list is picked, and only those. */
  lemma {:induction false} AllPicked(blocks: seq<Block>, i: nat)
    requires forall b :: 0 <= b < |blocks| ==> i < |blocks[b].speseg|
    ensures forall s :: s in PickedSegs(blocks, i, EverySeg) <==>
              exists b :: 0 <= b < |blocks| && s in blocks[b].speseg[i]
  {
    if blocks != [] {
      var n := |blocks| - 1;
      AllPicked(blocks[..n], i);
      forall s
        ensures s in PickedSegs(blocks, i, EverySeg) <==>
                exists b :: 0 <= b < |blocks| && s in blocks[b].speseg[i]
      {
        if s in PickedSegs(blocks[..n], i, EverySeg) {
          var b :| 0 <= b < n && s in blocks[..n][b].speseg[i];
          assert blocks[b] == blocks[..n][b];
        }
        if exists b :: 0 <= b < |blocks| && s in blocks[b].speseg[i] {
          var b :| 0 <= b < |blocks| && s in blocks[b].speseg[i];
          if b < n {
            assert blocks[..n][b] == blocks[b];
          }
        }
      }
    }
  }

  /** An outgroup's section: one line per chromosome, in order of first appearance,
      holding exactly its segments on that chromosome as id.subid entries, in
      ascending order of begin when no two of them share a begin. */
  lemma SectionOfOutgroup(blocks: seq<Block>, tags: seq<int>, i: nat, name: string)
    requires Shaped(blocks, |tags|) && i < |tags| && tags[i] == OUT
    ensures var segs := PickedSegs(blocks, i, EverySeg);
            var h := OutgroupLists(blocks, tags)[i];
            var sec := SectionOf(name, h);
            |sec.chroms| == |ChrsAfter([], segs)| &&
            (forall j :: 0 <= j < |sec.chroms| ==>
               sec.chroms[j].0 == ChrsAfter([], segs)[j] &&
               multiset(h[j]) == multiset(OnChr(segs, sec.chroms[j].0)) &&
               sec.chroms[j].1 == Pieces(h[j])) &&
            (DistinctBegs(segs) ==> forall j :: 0 <= j < |sec.chroms| ==> Ascending(h[j]))
  {
    Grouping(PickedSegs(blocks, i, EverySeg));
  }
}
