/** bpPosition (code/makeBlocks/bpPosition.c): compares the adjacencies of a real
    genome with predicted ones and prints each real adjacency the prediction lacks.

    Elements are signed ids 1..T; 0 stands for a chromosome end.  The predicted
    adjacencies are recorded in an N x N byte matrix R, N = Z + 2 with Z = 2T + 1, in
    which the row or column of a negative id -e is map(e): the ids 1..T and their
    reversals T+1..2T share the range 0..Z.  A right-hand 0 is stored in column Z. */
module BpPosition {
  import opened Wrappers

  const YES: bv8 := 1
  const NO: bv8 := 0

  /** Z, the last index, for T ancestral elements. */
  function Last(t: nat): int { 2 * t + 1 }

  /** N, the matrix's side. */
  function Width(t: nat): nat { 2 * t + 3 }

  /** A line of a join file: two ids, a '#' comment, or anything else. */
  datatype JoinLine = Join(i: int, j: int) | Comment | Bad(text: string)

  // ---------------------------------------------------------------------------
  // map, Val, Set (lines 12-36)

  /** map: 0 and Z are fixed, i <= T moves up by T and anything else down by T. */
  function Map(t: nat, i: int): (r: int)
    ensures 0 <= i <= Last(t) ==> 0 <= r <= Last(t)
    ensures 1 <= i <= 2 * t ==> 1 <= r <= 2 * t && (i <= t <==> r > t)
  {
    if i == 0 then 0
    else if i == Last(t) then Last(t)
    else if i <= t then i + t
    else i - t
  }

  /** map is an involution on 0..Z. */
  lemma MapInvolution(t: nat, i: int)
    requires 0 <= i <= Last(t)
    ensures Map(t, Map(t, i)) == i
  {
  }

  /** The row or column of a signed index: a negative -e is map(e). */
  function Resolve(t: nat, i: int): int
  {
    if i < 0 then Map(t, -i) else i
  }

  /** The byte that Val and Set address for cell (i, j). */
  function Offset(t: nat, c: (int, int)): int
  {
    Resolve(t, c.0) * Width(t) + Resolve(t, c.1)
  }

  /** Val on the matrix's contents: reading outside the buffer aborts. */
  function Cell(g: seq<bv8>, t: nat, c: (int, int)): (r: Result<bv8>)
    ensures r.Ok? <==> 0 <= Offset(t, c) < |g|
  {
    var o := Offset(t, c);
    if 0 <= o < |g| then Ok(g[o]) else Fatal("outside the matrix")
  }

  /** Val(R, i, j). */
  function Val(R: array<bv8>, t: nat, i: int, j: int): (r: Result<bv8>)
    reads R
    ensures r == Cell(R[..], t, (i, j))
  {
    var o := Resolve(t, i) * Width(t) + Resolve(t, j);
    if 0 <= o < R.Length then Ok(R[o]) else Fatal("outside the matrix")
  }

  /** Set(R, i, j, value): afterwards Val(R, i, j) reads value, and every cell at
      another byte reads as before. */
  method Set(R: array<bv8>, t: nat, i: int, j: int, v: bv8) returns (r: Result<()>)
    modifies R
    ensures r.Ok? <==> 0 <= Offset(t, (i, j)) < R.Length
    ensures r.Ok? ==> R[..] == old(R[..])[Offset(t, (i, j)) := v]
    ensures r.Fatal? ==> R[..] == old(R[..])
    ensures r.Ok? ==> Val(R, t, i, j) == Ok(v)
  {
    var ii, jj := i, j;
    if ii < 0 {
      ii := Map(t, -ii);
    }
    if jj < 0 {
      jj := Map(t, -jj);
    }
    var o := ii * Width(t) + jj;
    if !(0 <= o < R.Length) {
      return Fatal("outside the matrix");
    }
    R[o] := v;
    r := Ok(());
  }

  /** Val after Set: the cell written reads the value written, the others keep theirs. */
  lemma CellAfterSet(g: seq<bv8>, t: nat, c: (int, int), v: bv8, d: (int, int))
    requires 0 <= Offset(t, c) < |g|
    ensures Cell(g[Offset(t, c) := v], t, c) == Ok(v)
    ensures Offset(t, d) != Offset(t, c) ==> Cell(g[Offset(t, c) := v], t, d) == Cell(g, t, d)
  {
  }

  // ---------------------------------------------------------------------------
  // The predicted joins (lines 48-72)

  /** The matrix after the initialising loop: every cell NO. */
  function Empty(t: nat): seq<bv8>
  {
    seq(Width(t) * Width(t), _ => NO)
  }

  /** The two cells a predicted join (i, j) marks: (i, j) with a right-hand 0 as Z,
      and its reversal (-j, -i), whose right-hand 0 (i == 0) is Z as well. */
  function MarkCells(t: nat, i: int, j: int): ((int, int), (int, int))
  {
    ((i, if j == 0 then Last(t) else j), if i == 0 then (-j, Last(t)) else (-j, -i))
  }

  /** The matrix after marking the predicted joins; a line that is not two
      numbers aborts, as does a cell outside the buffer. */
  function Mark(t: nat, g: seq<bv8>, preds: seq<JoinLine>): (r: Result<seq<bv8>>)
    ensures r.Ok? ==> |r.value| == |g|
    decreases |preds|
  {
    if preds == [] then Ok(g)
    else match preds[0]
      case Join(i, j) =>
        var (c1, c2) := MarkCells(t, i, j);
        var o1, o2 := Offset(t, c1), Offset(t, c2);
        if !(0 <= o1 < |g|) then Fatal("outside the matrix")
        else if !(0 <= o2 < |g|) then Fatal("outside the matrix")
        else Mark(t, g[o1 := YES][o2 := YES], preds[1..])
      case Comment => Fatal("bad line")
      case Bad(text) => Fatal(text)
  }

  // ---------------------------------------------------------------------------
  // The real joins (lines 75-90)

  /** The two cells a real join (i, j) probes, a right-hand 0 read as Z. */
  function Probes(t: nat, i: int, j: int): ((int, int), (int, int))
  {
    var j' := if j == 0 then Last(t) else j;
    ((i, j'), (-j', -i))
  }

  /** rightjoin: the first probe is marked, or else the second one is. */
  function RightJoin(t: nat, g: seq<bv8>, i: int, j: int): Result<bool>
  {
    var (p1, p2) := Probes(t, i, j);
    match Cell(g, t, p1)
    case Fatal(m) => Fatal(m)
    case Ok(v) =>
      if v != NO then Ok(true)
      else match Cell(g, t, p2)
        case Fatal(m) => Fatal(m)
        case Ok(w) => Ok(w != NO)
  }

  /** The real joins printed against the matrix g: comment lines are skipped, a
      line that is not two numbers aborts, and a join is printed when it is not a
      right join, a right-hand Z printed as 0. */
  function Report(t: nat, g: seq<bv8>, reals: seq<JoinLine>): Result<seq<(int, int)>>
    decreases |reals|
  {
    if reals == [] then Ok([])
    else match reals[0]
      case Comment => Report(t, g, reals[1..])
      case Bad(text) => Fatal(text)
      case Join(i, j) =>
        var j' := if j == 0 then Last(t) else j;
        match RightJoin(t, g, i, j)
        case Fatal(m) => Fatal(m)
        case Ok(right) =>
          Prefixed(if right then [] else [(i, if j' == Last(t) then 0 else j')], Report(t, g, reals[1..]))
  }

  /** The whole program: the header "#total" of the predicted file (None when it is
      missing or malformed), the predicted joins after it, and the real joins. */
  function Run(header: Option<int>, preds: seq<JoinLine>, reals: seq<JoinLine>): Result<seq<(int, int)>>
  {
    match header
    case None => Fatal("bad file")
    case Some(total) =>
      if total < 0 then Fatal("negative total")
      else match Mark(total, Empty(total), preds)
        case Fatal(m) => Fatal(m)
        case Ok(g) => Report(total, g, reals)
  }

  // ---------------------------------------------------------------------------
  // What the comparison means

  /** An element id or a chromosome end. */
  predicate Elem(t: nat, x: int) { -(t as int) <= x <= t }

  /** Join lines whose ids are elements; comments are allowed where allowComments. */
  predicate JoinsOf(t: nat, lines: seq<JoinLine>, allowComments: bool)
  {
    forall k :: 0 <= k < |lines| ==>
      (lines[k].Join? && Elem(t, lines[k].i) && Elem(t, lines[k].j)) || (allowComments && lines[k].Comment?)
  }

  /** (a, b) is the adjacency (i, j) read on either strand. */
  predicate Same(a: int, b: int, i: int, j: int)
  {
    (a == i && b == j) || (a == -j && b == -i)
  }

  /** Some predicted join is the adjacency (i, j) on either strand. */
  predicate Predicted(preds: seq<JoinLine>, i: int, j: int)
  {
    exists k :: 0 <= k < |preds| && preds[k].Join? && Same(preds[k].i, preds[k].j, i, j)
  }

  /** The real joins that no predicted join matches, in file order. */
  function Missing(preds: seq<JoinLine>, reals: seq<JoinLine>): seq<(int, int)>
    decreases |reals|
  {
    if reals == [] then []
    else if reals[0].Join? && !Predicted(preds, reals[0].i, reals[0].j) then
      [(reals[0].i, reals[0].j)] + Missing(preds, reals[1..])
    else Missing(preds, reals[1..])
  }

  /** Rows below row c end before row c starts. */
  lemma {:induction false} RowBefore(w: nat, a: nat, b: int, c: nat)
    requires a < c && b < w
    ensures a * w + b < c * w
    decreases c - a
  {
    if a + 1 < c {
      RowBefore(w, a + 1, b, c);
    }
  }

  /** Two cells with coordinates in 0..N-1 are one byte only when they are one cell. */
  lemma OffsetInjective(w: nat, a: int, b: int, c: int, d: int)
    requires 0 <= a < w && 0 <= b < w && 0 <= c < w && 0 <= d < w
    ensures a * w + b == c * w + d ==> a == c && b == d
    ensures 0 <= a * w + b < w * w
  {
    if a < c {
      RowBefore(w, a, b, c);
    } else if c < a {
      RowBefore(w, c, d, a);
    }
    RowBefore(w, a, b, w);
  }

  /** Resolved coordinates of element ids and of Z. */
  lemma ResolveRange(t: nat, x: int)
    ensures Elem(t, x) ==> 0 <= Resolve(t, x) <= 2 * t && (x >= 0 ==> Resolve(t, x) == x) && (x < 0 ==> Resolve(t, x) == t - x)
    ensures x == Last(t) || x == -Last(t) ==> Resolve(t, x) == Last(t)
  {
  }

  /** The byte of a cell whose coordinates are elements or Z, as a pair. */
  lemma CellOffset(t: nat, c: (int, int), d: (int, int))
    requires Elem(t, c.0) || c.0 == -Last(t)
    requires Elem(t, c.1) || c.1 == Last(t)
    requires Elem(t, d.0) || d.0 == -Last(t)
    requires Elem(t, d.1) || d.1 == Last(t)
    ensures 0 <= Offset(t, c) < Width(t) * Width(t)
    ensures Offset(t, c) == Offset(t, d) <==> Resolve(t, c.0) == Resolve(t, d.0) && Resolve(t, c.1) == Resolve(t, d.1)
  {
    ResolveRange(t, c.0);
    ResolveRange(t, c.1);
    ResolveRange(t, d.0);
    ResolveRange(t, d.1);
    OffsetInjective(Width(t), Resolve(t, c.0), Resolve(t, c.1), Resolve(t, d.0), Resolve(t, d.1));
  }

  /** A cell's resolved row and column. */
  function Key(t: nat, c: (int, int)): (int, int)
  {
    (Resolve(t, c.0), Resolve(t, c.1))
  }

  /** The resolved coordinates of the ids and ends involved. */
  lemma Resolved(t: nat, a: int, b: int, i: int, j: int)
    requires Elem(t, a) && Elem(t, b) && Elem(t, i) && Elem(t, j)
    ensures forall x :: x in {a, b, i, j, -a, -b, -i, -j} ==> Resolve(t, x) == if x >= 0 then x else t - x
    ensures Resolve(t, Last(t)) == Last(t) && Resolve(t, -Last(t)) == Last(t)
  {
    forall x | x in {a, b, i, j, -a, -b, -i, -j}
      ensures Resolve(t, x) == if x >= 0 then x else t - x
    {
      ResolveRange(t, x);
    }
    ResolveRange(t, Last(t));
    ResolveRange(t, -Last(t));
  }

  /** The direct probe hits the direct mark exactly for the same join. */
  lemma DirectDirect(t: nat, a: int, b: int, i: int, j: int)
    requires Elem(t, a) && Elem(t, b) && Elem(t, i) && Elem(t, j)
    ensures Key(t, Probes(t, i, j).0) == Key(t, MarkCells(t, a, b).0) <==> a == i && b == j
  {
    Resolved(t, a, b, i, j);
  }

  /** The direct probe hits the reversed mark exactly for the reversed join. */
  lemma DirectReversed(t: nat, a: int, b: int, i: int, j: int)
    requires Elem(t, a) && Elem(t, b) && Elem(t, i) && Elem(t, j)
    ensures Key(t, Probes(t, i, j).0) == Key(t, MarkCells(t, a, b).1) <==> a == -j && b == -i
  {
    Resolved(t, a, b, i, j);
  }

  /** The reversed probe hits the direct mark for the reversed join not ending in 0. */
  lemma ReversedDirect(t: nat, a: int, b: int, i: int, j: int)
    requires Elem(t, a) && Elem(t, b) && Elem(t, i) && Elem(t, j)
    ensures Key(t, Probes(t, i, j).1) == Key(t, MarkCells(t, a, b).0) <==> a == -j && b == -i && j != 0 && i != 0
  {
    Resolved(t, a, b, i, j);
  }

  /** The reversed probe hits the reversed mark for the same join, no end 0 on the
      left of the mark or the right of the probe. */
  lemma ReversedReversed(t: nat, a: int, b: int, i: int, j: int)
    requires Elem(t, a) && Elem(t, b) && Elem(t, i) && Elem(t, j)
    ensures Key(t, Probes(t, i, j).1) == Key(t, MarkCells(t, a, b).1) <==> a == i && b == j && a != 0 && j != 0
  {
    Resolved(t, a, b, i, j);
  }

  /** The cells of predicted (a, b) and the probes of real (i, j) resolve alike only
      when (a, b) is (i, j) on either strand. */
  lemma ProbeHits(t: nat, a: int, b: int, i: int, j: int)
    requires Elem(t, a) && Elem(t, b) && Elem(t, i) && Elem(t, j)
    ensures var (m1, m2) := MarkCells(t, a, b);
            var (p1, p2) := Probes(t, i, j);
            (Key(t, p1) in {Key(t, m1), Key(t, m2)} || Key(t, p2) in {Key(t, m1), Key(t, m2)})
              <==> Same(a, b, i, j)
  {
    DirectDirect(t, a, b, i, j);
    DirectReversed(t, a, b, i, j);
    ReversedDirect(t, a, b, i, j);
    ReversedReversed(t, a, b, i, j);
  }

  /** Probe p of a real join hits a cell of predicted join (a, b). */
  lemma HitKey(t: nat, a: int, b: int, p: (int, int))
    requires Elem(t, a) && Elem(t, b)
    requires Elem(t, p.0) || p.0 == -Last(t)
    requires Elem(t, p.1) || p.1 == Last(t)
    ensures 0 <= Offset(t, p) < Width(t) * Width(t)
    ensures (Offset(t, p) in {Offset(t, MarkCells(t, a, b).0), Offset(t, MarkCells(t, a, b).1)})
              <==> (Key(t, p) in {Key(t, MarkCells(t, a, b).0), Key(t, MarkCells(t, a, b).1)})
  {
    CellOffset(t, p, MarkCells(t, a, b).0);
    CellOffset(t, p, MarkCells(t, a, b).1);
  }

  /** The bytes the predicted joins mark. */
  function Marked(t: nat, preds: seq<JoinLine>): set<int>
    decreases |preds|
  {
    if preds == [] then {}
    else
      var rest := Marked(t, preds[1..]);
      if preds[0].Join? then
        var (c1, c2) := MarkCells(t, preds[0].i, preds[0].j);
        {Offset(t, c1), Offset(t, c2)} + rest
      else rest
  }

  /** Marking well-formed predicted joins succeeds and sets exactly their bytes. */
  lemma {:induction false} MarkSets(t: nat, g: seq<bv8>, preds: seq<JoinLine>)
    requires |g| == Width(t) * Width(t) && JoinsOf(t, preds, false)
    ensures Mark(t, g, preds).Ok?
    ensures forall o :: 0 <= o < |g| ==> Mark(t, g, preds).value[o] == if o in Marked(t, preds) then YES else g[o]
    decreases |preds|
  {
    if preds != [] {
      var (c1, c2) := MarkCells(t, preds[0].i, preds[0].j);
      CellOffset(t, c1, c1);
      CellOffset(t, c2, c2);
      var g' := g[Offset(t, c1) := YES][Offset(t, c2) := YES];
      assert JoinsOf(t, preds[1..], false) by {
        forall k | 0 <= k < |preds[1..]|
          ensures preds[1..][k].Join? && Elem(t, preds[1..][k].i) && Elem(t, preds[1..][k].j)
        {
          assert preds[1..][k] == preds[k + 1];
        }
      }
      MarkSets(t, g', preds[1..]);
    }
  }

  /** A byte is marked exactly when it is a cell of some predicted join. */
  lemma {:induction false} MarkedCells(t: nat, preds: seq<JoinLine>, o: int)
    ensures o in Marked(t, preds) <==>
              exists k :: 0 <= k < |preds| && preds[k].Join? &&
                o in {Offset(t, MarkCells(t, preds[k].i, preds[k].j).0), Offset(t, MarkCells(t, preds[k].i, preds[k].j).1)}
    decreases |preds|
  {
    if preds != [] {
      MarkedCells(t, preds[1..], o);
      if o in Marked(t, preds[1..]) {
        var k :| 0 <= k < |preds[1..]| && preds[1..][k].Join? &&
                 o in {Offset(t, MarkCells(t, preds[1..][k].i, preds[1..][k].j).0), Offset(t, MarkCells(t, preds[1..][k].i, preds[1..][k].j).1)};
        assert preds[k + 1] == preds[1..][k];
      }
      if exists k :: 0 < k < |preds| && preds[k].Join? &&
                o in {Offset(t, MarkCells(t, preds[k].i, preds[k].j).0), Offset(t, MarkCells(t, preds[k].i, preds[k].j).1)} {
        var k :| 0 < k < |preds| && preds[k].Join? &&
                 o in {Offset(t, MarkCells(t, preds[k].i, preds[k].j).0), Offset(t, MarkCells(t, preds[k].i, preds[k].j).1)};
        assert preds[1..][k - 1] == preds[k];
      }
    }
  }

  /** Against the marked matrix, a real join is a right join exactly when it was
      predicted on either strand. */
  lemma RightJoinPredicted(t: nat, preds: seq<JoinLine>, i: int, j: int)
    requires JoinsOf(t, preds, false) && Elem(t, i) && Elem(t, j)
    ensures Mark(t, Empty(t), preds).Ok?
    ensures RightJoin(t, Mark(t, Empty(t), preds).value, i, j) == Ok(Predicted(preds, i, j))
  {
    MarkSets(t, Empty(t), preds);
    var g := Mark(t, Empty(t), preds).value;
    var (p1, p2) := Probes(t, i, j);
    CellOffset(t, p1, p1);
    CellOffset(t, p2, p2);
    MarkedCells(t, preds, Offset(t, p1));
    MarkedCells(t, preds, Offset(t, p2));
    assert g[Offset(t, p1)] != NO <==> Offset(t, p1) in Marked(t, preds);
    assert g[Offset(t, p2)] != NO <==> Offset(t, p2) in Marked(t, preds);
    if Predicted(preds, i, j) {
      var k :| 0 <= k < |preds| && preds[k].Join? && Same(preds[k].i, preds[k].j, i, j);
      Hits(t, preds, k, i, j);
    }
    if Offset(t, p1) in Marked(t, preds) {
      var k :| 0 <= k < |preds| && preds[k].Join? &&
               Offset(t, p1) in {Offset(t, MarkCells(t, preds[k].i, preds[k].j).0), Offset(t, MarkCells(t, preds[k].i, preds[k].j).1)};
      Hits(t, preds, k, i, j);
    }
    if Offset(t, p2) in Marked(t, preds) {
      var k :| 0 <= k < |preds| && preds[k].Join? &&
               Offset(t, p2) in {Offset(t, MarkCells(t, preds[k].i, preds[k].j).0), Offset(t, MarkCells(t, preds[k].i, preds[k].j).1)};
      Hits(t, preds, k, i, j);
    }
  }

  /** The probes of (i, j) hit the bytes of the k-th predicted join exactly when it
      is (i, j) on either strand. */
  lemma Hits(t: nat, preds: seq<JoinLine>, k: int, i: int, j: int)
    requires JoinsOf(t, preds, false) && 0 <= k < |preds| && Elem(t, i) && Elem(t, j)
    ensures var (p1, p2) := Probes(t, i, j);
            var (m1, m2) := MarkCells(t, preds[k].i, preds[k].j);
            (Offset(t, p1) in {Offset(t, m1), Offset(t, m2)} || Offset(t, p2) in {Offset(t, m1), Offset(t, m2)})
              <==> Same(preds[k].i, preds[k].j, i, j)
  {
    var a, b := preds[k].i, preds[k].j;
    var (p1, p2) := Probes(t, i, j);
    HitKey(t, a, b, p1);
    HitKey(t, a, b, p2);
    ProbeHits(t, a, b, i, j);
  }

  /** The real joins printed against a marked matrix are those the prediction
      lacks on both strands. */
  lemma {:induction false} ReportMissing(t: nat, preds: seq<JoinLine>, reals: seq<JoinLine>)
    requires JoinsOf(t, preds, false) && JoinsOf(t, reals, true)
    ensures Mark(t, Empty(t), preds).Ok?
    ensures Report(t, Mark(t, Empty(t), preds).value, reals) == Ok(Missing(preds, reals))
    decreases |reals|
  {
    MarkSets(t, Empty(t), preds);
    var g := Mark(t, Empty(t), preds).value;
    if reals != [] {
      assert JoinsOf(t, reals[1..], true) by {
        forall k | 0 <= k < |reals[1..]|
          ensures (reals[1..][k].Join? && Elem(t, reals[1..][k].i) && Elem(t, reals[1..][k].j)) || reals[1..][k].Comment?
        {
          assert reals[1..][k] == reals[k + 1];
        }
      }
      ReportMissing(t, preds, reals[1..]);
      var rest := Missing(preds, reals[1..]);
      assert Report(t, g, reals[1..]) == Ok(rest);
      match reals[0]
      case Comment =>
      case Bad(_) =>
      case Join(i, j) =>
        RightJoinPredicted(t, preds, i, j);
        assert j != Last(t);
        if Predicted(preds, i, j) {
          assert Report(t, g, reals) == Prefixed([], Ok(rest));
          assert [] + rest == rest;
        } else {
          assert Report(t, g, reals) == Prefixed([(i, j)], Ok(rest));
        }
    }
  }

  /** bpPosition prints, in file order, exactly the real adjacencies that no
      predicted adjacency matches on either strand. */
  lemma RunMissing(t: nat, preds: seq<JoinLine>, reals: seq<JoinLine>)
    requires JoinsOf(t, preds, false) && JoinsOf(t, reals, true)
    ensures Run(Some(t), preds, reals) == Ok(Missing(preds, reals))
  {
    ReportMissing(t, preds, reals);
  }

  // ---------------------------------------------------------------------------
  // main (lines 38-94)

  /** The allocation and the initialising loop. */
  method NewMatrix(t: nat) returns (R: array<bv8>)
    ensures fresh(R) && R[..] == Empty(t)
  {
    var w := Width(t);
    R := new bv8[w * w];
    var i := 0;
    ghost var row := 0;
    while i < w
      invariant 0 <= i <= w && row == i * w && R.Length == w * w && row <= R.Length
      invariant forall o :: 0 <= o < row ==> R[o] == NO
    {
      var j := 0;
      RowBefore(w, i, w - 1, w);
      while j < w
        invariant 0 <= j <= w && row + w <= R.Length
        invariant forall o :: 0 <= o < row + j ==> R[o] == NO
      {
        RowBefore(w, i, j, w);
        assert Offset(t, (i, j)) == row + j;
        var s := Set(R, t, i, j, NO);
        j := j + 1;
      }
      RowNext(i, w);
      row := row + w;
      i := i + 1;
    }
    assert R[..] == Empty(t) by {
      forall o | 0 <= o < R.Length
        ensures R[o] == NO
      {
      }
    }
  }

  lemma RowNext(i: int, w: int)
    ensures (i + 1) * w == i * w + w
  {
  }

  /** The loop over the predicted joins. */
  method MarkJoins(R: array<bv8>, t: nat, preds: seq<JoinLine>) returns (r: Result<()>)
    modifies R
    ensures var m := Mark(t, old(R[..]), preds);
            (r.Ok? <==> m.Ok?) && (r.Ok? ==> R[..] == m.value)
  {
    var k := 0;
    while k < |preds|
      invariant 0 <= k <= |preds|
      invariant Mark(t, old(R[..]), preds) == Mark(t, R[..], preds[k..])
    {
      assert preds[k..][1..] == preds[k + 1..];
      match preds[k] {
        case Join(i, j) =>
          var s := Set(R, t, i, if j == 0 then Last(t) else j, YES);
          if s.Fatal? {
            return Fatal("outside the matrix");
          }
          if i == 0 {
            s := Set(R, t, -j, Last(t), YES);
          } else {
            s := Set(R, t, -j, -i, YES);
          }
          if s.Fatal? {
            return Fatal("outside the matrix");
          }
        case Comment =>
          return Fatal("bad line");
        case Bad(text) =>
          return Fatal(text);
      }
      k := k + 1;
    }
    assert preds[k..] == [];
    r := Ok(());
  }

  /** The two Val calls of a real join (i, j), the right-hand 0 already read as Z
      where it is; the second is made only when the first finds NO. */
  method Probe(R: array<bv8>, t: nat, i: int, j: int) returns (r: Result<bool>)
    ensures r == RightJoin(t, R[..], i, j)
  {
    var jj := if j == 0 then Last(t) else j;
    var v := Val(R, t, i, jj);
    if v.Fatal? {
      return Fatal(v.msg);
    }
    if v.value != NO {
      return Ok(true);
    }
    var w := Val(R, t, -jj, -i);
    if w.Fatal? {
      return Fatal(w.msg);
    }
    r := Ok(w.value != NO);
  }

  /** The loop over the real joins. */
  method ReportJoins(R: array<bv8>, t: nat, reals: seq<JoinLine>) returns (r: Result<seq<(int, int)>>)
    ensures var spec := Report(t, R[..], reals);
            (r.Ok? <==> spec.Ok?) && (r.Ok? ==> r.value == spec.value)
  {
    var out := [];
    var k := 0;
    assert reals[0..] == reals;
    PrefixedNothing(Report(t, R[..], reals));
    while k < |reals|
      invariant 0 <= k <= |reals|
      invariant Report(t, R[..], reals) == Prefixed(out, Report(t, R[..], reals[k..]))
    {
      assert reals[k..][0] == reals[k] && reals[k..][1..] == reals[k + 1..];
      match reals[k] {
        case Comment =>
          assert Report(t, R[..], reals[k..]) == Report(t, R[..], reals[k + 1..]);
        case Bad(text) =>
          return Fatal(text);
        case Join(i, j) =>
          var right := Probe(R, t, i, j);
          if right.Fatal? {
            return Fatal(right.msg);
          }
          var jj := if j == 0 || j == Last(t) then 0 else j;
          ghost var rest := Report(t, R[..], reals[k + 1..]);
          assert Report(t, R[..], reals[k..]) == Prefixed(if right.value then [] else [(i, jj)], rest);
          PrefixedPrefixed(out, if right.value then [] else [(i, jj)], rest);
          if !right.value {
            out := out + [(i, jj)];
          } else {
            assert out + [] == out;
          }
      }
      k := k + 1;
    }
    assert reals[k..] == [];
    r := Ok(out);
  }

  /** bpPosition: the predicted file's header and joins, and the real joins, to the
      joins printed. */
  method BpPosition(header: Option<int>, preds: seq<JoinLine>, reals: seq<JoinLine>) returns (r: Result<seq<(int, int)>>)
    ensures var spec := Run(header, preds, reals);
            (r.Ok? <==> spec.Ok?) && (r.Ok? ==> r.value == spec.value)
  {
    if header.None? {
      return Fatal("bad file");
    }
    if header.value < 0 {
      return Fatal("negative total");
    }
    var t: nat := header.value;
    var R := NewMatrix(t);
    var m := MarkJoins(R, t, preds);
    if m.Fatal? {
      return Fatal(m.msg);
    }
    r := ReportJoins(R, t, reals);
  }
}
