/** createGenomeFile (code/makeBlocks/createGenomeFile.c): from the final block list,
    the genome file (per reference or descendant species, its chromosomes as signed
    block orders) and one joins file per species (the block adjacencies the species
    shows, 0 standing for a chromosome end).

    The files are values: a genome section per printed species and a joins file per
    species, holding the numbers printed; the printf layout is not modelled. */
module GenomeFile {
  import opened Wrappers
  import opened Species
  import opened Lists
  import opened Chromosomes

  // ---------------------------------------------------------------------------
  // Joins (lines 9-18, 103-139)

  /** print_join: nothing when the two numbers are equal, otherwise the pair with
      each number negated when its orientation is '-'. */
  function PrintJoin(l: int, ol: char, r: int, or: char): (js: seq<(int, int)>)
    ensures js == [] <==> l == r
    ensures |js| <= 1
    ensures js != [] ==> js[0].0 == (if ol == '-' then -l else l) && js[0].1 == (if or == '-' then -r else r)
  {
    if l == r then [] else [(if ol == '-' then -l else l, if or == '-' then -r else r)]
  }

  /** A segment a species' adjacency can enter: read forward from its head (FIRST
      and '+', LAST and '-') or a segment alone in its block (BOTH). */
  predicate Enters(s: Seg)
  {
    (s.state == First && s.orient == '+') || s.state == Both || (s.state == Last && s.orient == '-')
  }

  /** A segment an adjacency can leave: the mirror image of Enters. */
  predicate Leaves(s: Seg)
  {
    s.state == Both || (s.state == Last && s.orient == '+') || (s.state == First && s.orient == '-')
  }

  /** The four neighbour tests of main, as written. */
  predicate Branch1(p: Seg, q: Seg)
  {
    ((p.state == First && p.orient == '-') || (p.state == Last && p.orient == '+')) &&
    ((q.state == First && q.orient == '+') || (q.state == Last && q.orient == '-'))
  }

  predicate Branch2(p: Seg, q: Seg)
  {
    p.state == Both && ((q.state == First && q.orient == '+') || (q.state == Last && q.orient == '-'))
  }

  predicate Branch3(p: Seg, q: Seg)
  {
    ((p.state == First && p.orient == '-') || (p.state == Last && p.orient == '+')) && q.state == Both
  }

  predicate Branch4(p: Seg, q: Seg)
  {
    p.state == Both && q.state == Both
  }

  /** The four tests are mutually exclusive, so a pair of neighbours gives at most one
      join, and together they hold exactly when p can be left and q entered. */
  lemma NeighbourBranches(p: Seg, q: Seg)
    ensures !(Branch1(p, q) && Branch2(p, q)) && !(Branch1(p, q) && Branch3(p, q)) &&
            !(Branch1(p, q) && Branch4(p, q)) && !(Branch2(p, q) && Branch3(p, q)) &&
            !(Branch2(p, q) && Branch4(p, q)) && !(Branch3(p, q) && Branch4(p, q))
    ensures (Branch1(p, q) || Branch2(p, q) || Branch3(p, q) || Branch4(p, q)) <==> Leaves(p) && Enters(q)
  {
  }

  /** The join main writes for neighbours p, q. */
  function PairJoin(p: Seg, q: Seg): (js: seq<(int, int)>)
    ensures js != [] <==> Leaves(p) && Enters(q) && p.id != q.id
    ensures |js| <= 1
  {
    if Leaves(p) && Enters(q) then PrintJoin(p.id, p.orient, q.id, q.orient) else []
  }

  /** The joins between neighbours of a chromosome list, left to right. */
  function Pairs(l: seq<Seg>): (js: seq<(int, int)>)
    ensures |l| >= 1 ==> |js| <= |l| - 1
  {
    if |l| < 2 then [] else Pairs(l[..|l| - 1]) + PairJoin(l[|l| - 2], l[|l| - 1])
  }

  /** The joins of one chromosome list: (0, head) when the head can be entered, the
      neighbour joins, and (tail, 0) when the tail can be left; an outgroup writes
      only the neighbour joins. */
  function ListJoins(l: seq<Seg>, outgroup: bool): seq<(int, int)>
    requires l != []
  {
    (if !outgroup && Enters(l[0]) then PrintJoin(0, '+', l[0].id, l[0].orient) else []) +
    Pairs(l) +
    (if !outgroup && Leaves(l[|l| - 1]) then PrintJoin(l[|l| - 1].id, l[|l| - 1].orient, 0, '+') else [])
  }

  /** The four neighbour tests of the join loop, each writing its join. */
  method NeighbourJoin(p: Seg, q: Seg) returns (js: seq<(int, int)>)
    ensures js == PairJoin(p, q)
  {
    NeighbourBranches(p, q);
    js := [];
    if Branch1(p, q) {
      js := js + PrintJoin(p.id, p.orient, q.id, q.orient);
    }
    if Branch2(p, q) {
      js := js + PrintJoin(p.id, p.orient, q.id, q.orient);
    }
    if Branch3(p, q) {
      js := js + PrintJoin(p.id, p.orient, q.id, q.orient);
    }
    if Branch4(p, q) {
      js := js + PrintJoin(p.id, p.orient, q.id, q.orient);
    }
  }

  lemma PairsStep(l: seq<Seg>, k: nat)
    requires k + 1 < |l|
    ensures Pairs(l[..k + 2]) == Pairs(l[..k + 1]) + PairJoin(l[k], l[k + 1])
  {
    assert l[..k + 2][..k + 1] == l[..k + 1];
  }

  /** The join loop for one chromosome list, with the tests as main writes them. */
  method JoinsOfList(l: seq<Seg>, outgroup: bool) returns (js: seq<(int, int)>)
    requires l != []
    ensures js == ListJoins(l, outgroup)
  {
    var p := l[0];
    js := [];
    if !outgroup {
      if (p.state == First && p.orient == '+') || p.state == Both || (p.state == Last && p.orient == '-') {
        js := PrintJoin(0, '+', p.id, p.orient);
      }
    }
    var inner := NeighbourJoins(l);
    js := js + inner;
    p := l[|l| - 1];
    if !outgroup {
      if p.state == Both || (p.state == Last && p.orient == '+') || (p.state == First && p.orient == '-') {
        js := js + PrintJoin(p.id, p.orient, 0, '+');
      }
    }
  }

  /** The walk over neighbours p, q = p->next of the join loop. */
  method NeighbourJoins(l: seq<Seg>) returns (js: seq<(int, int)>)
    requires l != []
    ensures js == Pairs(l)
  {
    var p := l[0];
    js := [];
    var k := 0;
    while k + 1 < |l|
      invariant 0 <= k < |l| && p == l[k]
      invariant js == Pairs(l[..k + 1])
    {
      var q := l[k + 1];
      var pj := NeighbourJoin(p, q);
      PairsStep(l, k);
      js := js + pj;
      p := q;
      k := k + 1;
    }
    assert l[..k + 1] == l;
  }

  /** Segments alone in their blocks, oriented, with non-zero ids no two neighbours
      share. */
  predicate Singletons(l: seq<Seg>)
  {
    (forall k :: 0 <= k < |l| ==> l[k].state == Both && l[k].orient in {'+', '-'} && l[k].id != 0) &&
    forall k :: 0 <= k < |l| - 1 ==> l[k].id != l[k + 1].id
  }

  lemma {:induction false} PairsOfSingletons(l: seq<Seg>)
    requires Singletons(l) && |l| >= 1
    ensures |Pairs(l)| == |l| - 1
    ensures forall k :: 0 <= k < |l| - 1 ==> Pairs(l)[k] == (Signed(l[k]), Signed(l[k + 1]))
  {
    if |l| >= 2 {
      var n := |l|;
      var init := l[..n - 1];
      PairsOfSingletons(init);
      assert Pairs(l) == Pairs(init) + PairJoin(l[n - 2], l[n - 1]);
      assert PairJoin(l[n - 2], l[n - 1]) == [(Signed(l[n - 2]), Signed(l[n - 1]))];
      forall k | 0 <= k < n - 1
        ensures Pairs(l)[k] == (Signed(l[k]), Signed(l[k + 1]))
      {
        if k < n - 2 {
          assert Pairs(l)[k] == Pairs(init)[k];
          assert init[k] == l[k] && init[k + 1] == l[k + 1];
        }
      }
    }
  }

  /** For a chromosome on which every block shows the species once, the joins file
      lists every adjacency of its signed order, chromosome ends (0) included. */
  lemma SingletonJoins(l: seq<Seg>)
    requires Singletons(l) && l != []
    ensures var js := ListJoins(l, false);
            |js| == |l| + 1 && js[0] == (0, Signed(l[0])) && js[|l|] == (Signed(l[|l| - 1]), 0) &&
            forall k :: 1 <= k < |l| ==> js[k] == (Signed(l[k - 1]), Signed(l[k]))
  {
    PairsOfSingletons(l);
    var js := ListJoins(l, false);
    var n := |l|;
    assert js == [(0, Signed(l[0]))] + Pairs(l) + [(Signed(l[n - 1]), 0)];
    forall k | 1 <= k < n
      ensures js[k] == (Signed(l[k - 1]), Signed(l[k]))
    {
      assert js[k] == Pairs(l)[k - 1];
    }
  }

  // ---------------------------------------------------------------------------
  // The files

  /** One species' section of the genome file: its name, its number of chromosomes,
      and per chromosome its name and signed block order. */
  datatype Section = Section(name: string, total: nat, chroms: seq<(string, seq<int>)>)

  /** A joins file: the number of blocks, then the joins. */
  datatype JoinsFile = JoinsFile(name: string, count: nat, joins: seq<(int, int)>)

  function SectionOf(name: string, h: seq<seq<Seg>>): Section
  {
    Section(name, |h|, seq(|h|, j requires 0 <= j < |h| => (Chrs(h)[j], Order(h[j]))))
  }

  /** The genome file: a section per species that is not an outgroup, in species
      order. */
  function Sections(names: seq<string>, tags: seq<int>, heads: seq<seq<seq<Seg>>>): seq<Section>
    requires |names| == |tags| == |heads|
  {
    if names == [] then []
    else
      var n := |names| - 1;
      Sections(names[..n], tags[..n], heads[..n]) +
      (if tags[n] == OUT then [] else [SectionOf(names[n], heads[n])])
  }

  /** The joins of one species, chromosome after chromosome. */
  function SpeciesJoins(h: seq<seq<Seg>>, outgroup: bool): seq<(int, int)>
  {
    if h == [] then []
    else SpeciesJoins(h[..|h| - 1], outgroup) +
         (if h[|h| - 1] == [] then [] else ListJoins(h[|h| - 1], outgroup))
  }

  /** The chromosome loop of the joins output for one species. */
  method JoinsOfSpecies(h: seq<seq<Seg>>, outgroup: bool) returns (js: seq<(int, int)>)
    ensures js == SpeciesJoins(h, outgroup)
  {
    js := [];
    for j := 0 to |h|
      invariant js == SpeciesJoins(h[..j], outgroup)
    {
      assert h[..j + 1][..j] == h[..j];
      if h[j] != [] {
        var lj := JoinsOfList(h[j], outgroup);
        js := js + lj;
      }
    }
    assert h[..|h|] == h;
  }

  /** The genome loop of main. */
  method GenomeSections(names: seq<string>, tags: seq<int>, heads: seq<seq<seq<Seg>>>)
    returns (r: seq<Section>)
    requires |names| == |tags| == |heads|
    ensures r == Sections(names, tags, heads)
  {
    r := [];
    for i := 0 to |names|
      invariant r == Sections(names[..i], tags[..i], heads[..i])
    {
      assert names[..i + 1][..i] == names[..i] && tags[..i + 1][..i] == tags[..i] &&
             heads[..i + 1][..i] == heads[..i];
      if tags[i] != OUT {
        r := r + [SectionOf(names[i], heads[i])];
      }
    }
    assert names[..|names|] == names && tags[..|tags|] == tags && heads[..|heads|] == heads;
  }

  /** The joins file of species i. */
  predicate FileOf(names: seq<string>, tags: seq<int>, heads: seq<seq<seq<Seg>>>, count: nat, i: nat, f: JoinsFile)
    requires |names| == |tags| == |heads| && i < |names|
  {
    f == JoinsFile(names[i], count, SpeciesJoins(heads[i], tags[i] == OUT))
  }

  /** The joins loop of main: a file per species, headed by the number of blocks. */
  method JoinsFiles(names: seq<string>, tags: seq<int>, heads: seq<seq<seq<Seg>>>, count: nat)
    returns (r: seq<JoinsFile>)
    requires |names| == |tags| == |heads|
    ensures |r| == |names|
    ensures forall i :: 0 <= i < |r| ==> FileOf(names, tags, heads, count, i, r[i])
  {
    r := [];
    for i := 0 to |names|
      invariant |r| == i
      invariant forall i' :: 0 <= i' < i ==> FileOf(names, tags, heads, count, i', r[i'])
    {
      var js := JoinsOfSpecies(heads[i], tags[i] == OUT);
      r := r + [JoinsFile(names[i], count, js)];
    }
  }

  /** Every species' chromosome lists, built from all its segments. */
  function AllHeads(blocks: seq<Block>, spesz: nat): (h: seq<seq<seq<Seg>>>)
    requires Shaped(blocks, spesz)
    ensures |h| == spesz
  {
    seq(spesz, i requires 0 <= i < spesz => GroupInto([], PickedSegs(blocks, i, EverySeg)))
  }

  /** The outputs of main for a block list. */
  predicate Written(cfg: Config, blocks: seq<Block>, genome: seq<Section>, joins: seq<JoinsFile>)
    requires cfg.WellFormed() && Shaped(blocks, |cfg.names|)
  {
    var heads := AllHeads(blocks, |cfg.names|);
    genome == Sections(cfg.names, cfg.tags, heads) &&
    |joins| == |cfg.names| &&
    forall i :: 0 <= i < |joins| ==> FileOf(cfg.names, cfg.tags, heads, |blocks|, i, joins[i])
  }

  /** main: read the species and the block list, group every species' segments by
      chromosome, then write the genome file and the joins files. */
  method CreateGenomeFile(cfg: Config, lines: seq<BlockLine>) returns (r: Result<(seq<Section>, seq<JoinsFile>)>)
    requires cfg.WellFormed()
    ensures r.Ok? <==> LinesOk(lines, cfg.names)
    ensures r.Ok? ==> ReadBlocks(lines, cfg.names).Some?
    ensures r.Ok? ==> Written(cfg, ReadBlocks(lines, cfg.names).value, r.value.0, r.value.1)
  {
    var list := GetBlockList(lines, cfg.names);
    if list.Fatal? {
      return Fatal(list.msg);
    }
    var blocks := list.value;
    var heads := GroupSpecies(blocks, seq(|cfg.names|, _ => true), EverySeg);
    assert heads == AllHeads(blocks, |cfg.names|);
    var genome := GenomeSections(cfg.names, cfg.tags, heads);
    var joins := JoinsFiles(cfg.names, cfg.tags, heads, |blocks|);
    r := Ok((genome, joins));
    assert Written(cfg, blocks, genome, joins);
  }

  // ---------------------------------------------------------------------------
  // What the genome file says

  /** Section k of the genome file belongs to a species that is not an outgroup;
      every such species has a section, in species order. */
  lemma {:induction false} SectionsSpec(names: seq<string>, tags: seq<int>, heads: seq<seq<seq<Seg>>>)
    requires |names| == |tags| == |heads|
    ensures var r := Sections(names, tags, heads);
            |r| == |Filter(tags, (t: int) => t != OUT)| &&
            forall k :: 0 <= k < |r| ==> exists i :: 0 <= i < |names| && tags[i] != OUT && r[k] == SectionOf(names[i], heads[i])
  {
    if names != [] {
      var n := |names| - 1;
      SectionsSpec(names[..n], tags[..n], heads[..n]);
      var r := Sections(names, tags, heads);
      var r0 := Sections(names[..n], tags[..n], heads[..n]);
      forall k | 0 <= k < |r|
        ensures exists i :: 0 <= i < |names| && tags[i] != OUT && r[k] == SectionOf(names[i], heads[i])
      {
        if k < |r0| {
          var i :| 0 <= i < n && tags[..n][i] != OUT && r0[k] == SectionOf(names[..n][i], heads[..n][i]);
          assert r[k] == r0[k];
        } else {
          assert r[k] == SectionOf(names[n], heads[n]);
        }
      }
    }
  }

  /** A species' section: one line per chromosome its segments lie on, in order of
      first appearance, each holding exactly the signed ids of its segments there,
      in ascending order of begin when no two of its segments share a begin. */
  lemma SectionOfSpecies(blocks: seq<Block>, spesz: nat, i: nat, name: string)
    requires Shaped(blocks, spesz) && i < spesz
    ensures var segs := PickedSegs(blocks, i, EverySeg);
            var h := AllHeads(blocks, spesz)[i];
            var sec := SectionOf(name, h);
            sec.total == |ChrsAfter([], segs)| &&
            (forall j :: 0 <= j < sec.total ==>
               sec.chroms[j].0 == ChrsAfter([], segs)[j] &&
               multiset(h[j]) == multiset(OnChr(segs, sec.chroms[j].0)) &&
               sec.chroms[j].1 == Order(h[j])) &&
            (DistinctBegs(segs) ==> forall j :: 0 <= j < sec.total ==> Ascending(h[j]))
  {
    Grouping(PickedSegs(blocks, i, EverySeg));
  }
}
