/** The greedy chaining step of DESCHRAMBLER (code/deschrambler.cpp).
    Scored adjacencies between signed syntenic fragments are ranked by weight and
    joined, heaviest first, into chains (contiguous ancestral regions).  Fragment id 0
    is the chromosome-end sentinel. */
module Deschrambler {
  import opened Wrappers

  datatype Status = Success | Fail | Cycle

  /** An adjacency: the right end of fragment bid1, read in direction dir1, meets the
      left end of fragment bid2, read in direction dir2.  The weight travels with the
      edge once it is placed in a chain. */
  datatype Edge = Edge(bid1: int, dir1: int, bid2: int, dir2: int, weight: real)

  /** The edges the source builds as map keys carry weight 0. */
  function Key(bid1: int, dir1: int, bid2: int, dir2: int): Edge
  {
    Edge(bid1, dir1, bid2, dir2, 0.0)
  }

  predicate SameKey(a: Edge, b: Edge)
  {
    a.bid1 == b.bid1 && a.dir1 == b.dir1 && a.bid2 == b.bid2 && a.dir2 == b.dir2
  }

  /** Edge::operator<, the order of every std::map keyed by edges. */
  predicate Less(a: Edge, b: Edge)
  {
    if a.bid1 == b.bid1 && a.dir1 == b.dir1 && a.bid2 == b.bid2 then a.dir2 < b.dir2
    else if a.bid1 == b.bid1 && a.dir1 == b.dir1 then a.bid2 < b.bid2
    else if a.bid1 == b.bid1 then a.dir1 < b.dir1
    else a.bid1 < b.bid1
  }

  /** operator< is lexicographic on (bid1, dir1, bid2, dir2): a strict total order on
      keys, so two edges are the same map key exactly when neither is less. */
  lemma LessIsStrictTotalOrder(a: Edge, b: Edge, c: Edge)
    ensures !Less(a, a)
    ensures Less(a, b) && Less(b, c) ==> Less(a, c)
    ensures Less(a, b) ==> !Less(b, a)
    ensures SameKey(a, b) <==> !Less(a, b) && !Less(b, a)
  {
  }

  predicate UnitDirs(e: Edge)
  {
    (e.dir1 == 1 || e.dir1 == -1) && (e.dir2 == 1 || e.dir2 == -1)
  }

  /** The direction flip of Edge::reverse: 1 becomes -1, anything else becomes 1. */
  function Flip(d: int): int
  {
    if d == 1 then -1 else 1
  }

  /** Edge::reverse: the same adjacency read from the other side.  Every edge is
      copied by value into the chains, so the in-place swap is a function here. */
  function Reverse(e: Edge): (r: Edge)
    ensures UnitDirs(r)
  {
    Edge(e.bid2, Flip(e.dir2), e.bid1, Flip(e.dir1), e.weight)
  }

  lemma ReverseInvolution(e: Edge)
    requires UnitDirs(e)
    ensures Reverse(Reverse(e)) == e
  {
  }

  // ---------------------------------------------------------------------------
  // Reading the adjacency scores (main, lines 291-305)

  /** One line `b1 b2 score` of the conservation score file. */
  datatype ScoreLine = ScoreLine(b1: int, b2: int, score: real)

  function Abs(x: int): nat
  {
    if x < 0 then -x else x
  }

  function Sign(x: int): int
  {
    if x < 0 then -1 else 1
  }

  function Forward(l: ScoreLine): Edge
  {
    Key(Abs(l.b1), Sign(l.b1), Abs(l.b2), Sign(l.b2))
  }

  function Backward(l: ScoreLine): Edge
  {
    Key(Abs(l.b2), -Sign(l.b2), Abs(l.b1), -Sign(l.b1))
  }

  /** The second edge a line stores is the first one reversed. */
  lemma BackwardIsReverse(l: ScoreLine)
    ensures Backward(l) == Reverse(Forward(l)) && UnitDirs(Forward(l))
  {
  }

  /** The score map after the given lines: each line overwrites both of its keys. */
  function StoreLines(lines: seq<ScoreLine>): map<Edge, real>
  {
    if lines == [] then map[]
    else
      var l := lines[|lines| - 1];
      StoreLines(lines[..|lines| - 1])[Forward(l) := l.score][Backward(l) := l.score]
  }

  function MaxId(lines: seq<ScoreLine>): nat
  {
    if lines == [] then 0
    else
      var l := lines[|lines| - 1];
      var m := MaxId(lines[..|lines| - 1]);
      var a := if Abs(l.b1) > m then Abs(l.b1) else m;
      if Abs(l.b2) > a then Abs(l.b2) else a
  }

  predicate Mentions(l: ScoreLine, k: Edge)
  {
    k == Forward(l) || k == Backward(l)
  }

  method ReadScores(lines: seq<ScoreLine>) returns (scores: map<Edge, real>, numblocks: nat)
    ensures scores == StoreLines(lines)
    ensures numblocks == MaxId(lines)
  {
    scores, numblocks := map[], 0;
    var i := 0;
    while i < |lines|
      invariant 0 <= i <= |lines|
      invariant scores == StoreLines(lines[..i])
      invariant numblocks == MaxId(lines[..i])
    {
      var l := lines[i];
      scores := scores[Forward(l) := l.score][Backward(l) := l.score];
      if Abs(l.b1) > numblocks { numblocks := Abs(l.b1); }
      if Abs(l.b2) > numblocks { numblocks := Abs(l.b2); }
      assert lines[..i + 1][..i] == lines[..i];
      i := i + 1;
    }
    assert lines[..i] == lines;
  }

  /** A key is stored exactly when some line mentions it. */
  lemma {:induction false} StoredKeys(lines: seq<ScoreLine>, k: Edge)
    ensures k in StoreLines(lines) <==> exists i :: 0 <= i < |lines| && Mentions(lines[i], k)
  {
    if lines != [] {
      var init := lines[..|lines| - 1];
      StoredKeys(init, k);
      if k in StoreLines(init) {
        var i :| 0 <= i < |init| && Mentions(init[i], k);
        assert Mentions(lines[i], k);
      }
      if exists i :: 0 <= i < |lines| && Mentions(lines[i], k) {
        var i :| 0 <= i < |lines| && Mentions(lines[i], k);
        if i < |init| { assert Mentions(init[i], k); }
      }
    }
  }

  /** The score of a key is that of the last line mentioning it. */
  lemma {:induction false} LastLineWins(lines: seq<ScoreLine>, i: nat, k: Edge)
    requires i < |lines| && Mentions(lines[i], k)
    requires forall j :: i < j < |lines| ==> !Mentions(lines[j], k)
    ensures k in StoreLines(lines) && StoreLines(lines)[k] == lines[i].score
  {
    if i < |lines| - 1 {
      LastLineWins(lines[..|lines| - 1], i, k);
    }
  }

  /** The score map is closed under reversal, with equal scores on both sides. */
  lemma {:induction false} StoredSymmetric(lines: seq<ScoreLine>, k: Edge)
    requires k in StoreLines(lines)
    ensures UnitDirs(k) && Reverse(k) in StoreLines(lines)
    ensures StoreLines(lines)[Reverse(k)] == StoreLines(lines)[k]
  {
    var l := lines[|lines| - 1];
    var init := lines[..|lines| - 1];
    BackwardIsReverse(l);
    ReverseInvolution(Forward(l));
    if k != Forward(l) && k != Backward(l) {
      StoredSymmetric(init, k);
      ReverseInvolution(k);
    }
  }

  /** Every stored key names fragments between 0 and the largest id read. */
  lemma {:induction false} StoredIdsBounded(lines: seq<ScoreLine>, k: Edge)
    requires k in StoreLines(lines)
    ensures 0 <= k.bid1 <= MaxId(lines) && 0 <= k.bid2 <= MaxId(lines) && k.weight == 0.0
  {
    var init := lines[..|lines| - 1];
    var l := lines[|lines| - 1];
    if k != Forward(l) && k != Backward(l) {
      StoredIdsBounded(init, k);
    }
  }

  // ---------------------------------------------------------------------------
  // Candidate edges and their weights (compute_weight, lines 70-80; main, lines 311-324)

  /** compute_weight: the stored score of the edge, 0 when the edge is absent. */
  function ComputeWeight(bid1: int, dir1: int, bid2: int, dir2: int, scores: map<Edge, real>): real
  {
    var k := Key(bid1, dir1, bid2, dir2);
    if k in scores then scores[k] else 0.0
  }

  /** The edges main keeps: two distinct fragments in 0..numblocks, unit directions,
      and a positive stored score. */
  predicate Candidate(scores: map<Edge, real>, numblocks: int, e: Edge)
  {
    0 <= e.bid1 <= numblocks && 0 <= e.bid2 <= numblocks && e.bid1 != e.bid2
    && UnitDirs(e) && e.weight == 0.0 && e in scores && scores[e] > 0.0
  }

  predicate Before(e: Edge, i: int, j: int)
  {
    e.bid1 < i || (e.bid1 == i && e.bid2 < j)
  }

  method ComputeWeights(scores: map<Edge, real>, numblocks: nat) returns (weights: map<Edge, real>)
    ensures forall e :: e in weights <==> Candidate(scores, numblocks, e)
    ensures forall e :: e in weights ==> e in scores && weights[e] == scores[e]
  {
    weights := map[];
    var i := 0;
    while i <= numblocks
      invariant 0 <= i <= numblocks + 1
      invariant forall e :: e in weights <==> Candidate(scores, numblocks, e) && Before(e, i, 0)
      invariant forall e :: e in weights ==> e in scores && weights[e] == scores[e]
    {
      var j := 0;
      while j <= numblocks
        invariant 0 <= j <= numblocks + 1
        invariant forall e :: e in weights <==> Candidate(scores, numblocks, e) && Before(e, i, j)
        invariant forall e :: e in weights ==> e in scores && weights[e] == scores[e]
      {
        if i != j {
          var w := ComputeWeight(i, 1, j, 1, scores);
          if w > 0.0 { weights := weights[Key(i, 1, j, 1) := w]; }
          w := ComputeWeight(i, 1, j, -1, scores);
          if w > 0.0 { weights := weights[Key(i, 1, j, -1) := w]; }
          w := ComputeWeight(i, -1, j, 1, scores);
          if w > 0.0 { weights := weights[Key(i, -1, j, 1) := w]; }
          w := ComputeWeight(i, -1, j, -1, scores);
          if w > 0.0 { weights := weights[Key(i, -1, j, -1) := w]; }
        }
        j := j + 1;
      }
      i := i + 1;
    }
  }

  // ---------------------------------------------------------------------------
  // Ranking (cmp, lines 88-91; std::sort, lines 327-328)

  /** cmp orders by weight, heaviest first; std::sort leaves ties in no particular
      order, so any non-increasing arrangement is one the source may produce. */
  predicate NonIncreasing(s: seq<(Edge, real)>)
  {
    forall i, j :: 0 <= i < j < |s| ==> s[i].1 >= s[j].1
  }

  function InsertByWeight(s: seq<(Edge, real)>, p: (Edge, real)): seq<(Edge, real)>
  {
    if s == [] || p.1 >= s[0].1 then [p] + s
    else [s[0]] + InsertByWeight(s[1..], p)
  }

  lemma {:induction false} InsertByWeightSorted(s: seq<(Edge, real)>, p: (Edge, real))
    requires NonIncreasing(s)
    ensures NonIncreasing(InsertByWeight(s, p))
    ensures multiset(InsertByWeight(s, p)) == multiset(s) + multiset{p}
  {
    if s != [] && p.1 < s[0].1 {
      InsertByWeightSorted(s[1..], p);
      var t := InsertByWeight(s[1..], p);
      assert t[0] in multiset(t);
      assert s == [s[0]] + s[1..];
    }
  }

  method SortByWeight(weights: map<Edge, real>) returns (sorted: seq<(Edge, real)>)
    ensures NonIncreasing(sorted)
    ensures |sorted| == |weights.Keys|
    ensures forall p :: p in sorted <==> p.0 in weights && p.1 == weights[p.0]
  {
    var rest := weights.Keys;
    sorted := [];
    while rest != {}
      invariant rest <= weights.Keys
      invariant NonIncreasing(sorted)
      invariant |sorted| + |rest| == |weights.Keys|
      invariant forall p :: p in sorted <==> p.0 in weights.Keys - rest && p.1 == weights[p.0]
      decreases |rest|
    {
      var k :| k in rest;
      InsertByWeightSorted(sorted, (k, weights[k]));
      var next := InsertByWeight(sorted, (k, weights[k]));
      assert |next| == |multiset(next)| == |sorted| + 1;
      assert forall p :: p in next <==> p in sorted || p == (k, weights[k]) by {
        forall p ensures p in next <==> p in sorted || p == (k, weights[k]) {
          assert p in next <==> p in multiset(next);
          assert p in sorted <==> p in multiset(sorted);
        }
      }
      sorted := next;
      rest := rest - {k};
    }
  }

  // ---------------------------------------------------------------------------
  // Chains

  function Last(s: seq<Edge>): Edge
    requires |s| > 0
  {
    s[|s| - 1]
  }

  /** Consecutive edges of a chain share their fragment end. */
  predicate Linked(s: seq<Edge>)
  {
    forall k :: 0 <= k < |s| - 1 ==> s[k].bid2 == s[k + 1].bid1 && s[k].dir2 == s[k + 1].dir1
  }

  /** A chain whose two free ends are the same (non-sentinel) fragment end: a cycle. */
  predicate Closed(s: seq<Edge>)
    requires |s| > 0
  {
    s[0].bid1 != 0 && s[0].bid1 == Last(s).bid2 && s[0].dir1 == Last(s).dir2
  }

  /** No join inside the chain passes through the chromosome-end sentinel. */
  predicate InteriorFree(s: seq<Edge>)
  {
    forall k :: 0 <= k < |s| - 1 ==> s[k].bid2 != 0
  }

  predicate AllUnit(s: seq<Edge>)
  {
    forall k :: 0 <= k < |s| ==> UnitDirs(s[k])
  }

  predicate GoodChain(s: seq<Edge>)
  {
    |s| > 0 && AllUnit(s) && Linked(s) && !Closed(s) && InteriorFree(s)
  }

  /** The chain read backwards, every edge reversed: what pushing the reversed edges of
      a list one by one onto a front (or, in reverse order, onto a back) splices in. */
  function RevChain(s: seq<Edge>): seq<Edge>
  {
    if s == [] then [] else RevChain(s[1..]) + [Reverse(s[0])]
  }

  lemma {:induction false} RevChainAt(s: seq<Edge>, k: nat)
    requires k < |s|
    ensures |RevChain(s)| == |s| && RevChain(s)[k] == Reverse(s[|s| - 1 - k])
  {
    if |s| > 1 {
      RevChainAt(s[1..], if k < |s| - 1 then k else 0);
    }
  }

  lemma {:induction false} RevChainLength(s: seq<Edge>)
    ensures |RevChain(s)| == |s|
  {
    if s != [] { RevChainLength(s[1..]); }
  }

  /** Reading a good chain backwards gives a good chain with the ends swapped. */
  lemma RevChainGood(s: seq<Edge>)
    requires |s| > 0 && AllUnit(s) && Linked(s) && InteriorFree(s)
    ensures |RevChain(s)| == |s| && AllUnit(RevChain(s)) && Linked(RevChain(s)) && InteriorFree(RevChain(s))
    ensures RevChain(s)[0] == Reverse(Last(s)) && Last(RevChain(s)) == Reverse(s[0])
  {
    var r := RevChain(s);
    var n := |s|;
    RevChainLength(s);
    forall k | 0 <= k < n
      ensures r[k] == Reverse(s[n - 1 - k])
    {
      RevChainAt(s, k);
    }
    forall k | 0 <= k < n - 1
      ensures r[k].bid2 == r[k + 1].bid1 && r[k].dir2 == r[k + 1].dir1 && r[k].bid2 != 0
    {
      assert r[k] == Reverse(s[n - 1 - k]) && r[k + 1] == Reverse(s[n - 2 - k]);
      assert s[n - 2 - k].bid2 == s[n - 1 - k].bid1;
    }
  }

  lemma LinkedConcat(s: seq<Edge>, t: seq<Edge>)
    requires |s| > 0 && |t| > 0 && Linked(s) && Linked(t)
    requires Last(s).bid2 == t[0].bid1 && Last(s).dir2 == t[0].dir1
    requires InteriorFree(s) && InteriorFree(t) && Last(s).bid2 != 0
    requires AllUnit(s) && AllUnit(t)
    ensures Linked(s + t) && InteriorFree(s + t) && AllUnit(s + t)
    ensures (s + t)[0] == s[0] && Last(s + t) == Last(t)
  {
    var u := s + t;
    forall k | 0 <= k < |u| - 1
      ensures u[k].bid2 == u[k + 1].bid1 && u[k].dir2 == u[k + 1].dir1 && u[k].bid2 != 0
    {
      if k < |s| - 1 {
        assert u[k] == s[k] && u[k + 1] == s[k + 1];
      } else if k == |s| - 1 {
        assert u[k] == Last(s) && u[k + 1] == t[0];
      } else {
        assert u[k] == t[k - |s|] && u[k + 1] == t[k - |s| + 1];
      }
    }
  }

  // ---------------------------------------------------------------------------
  // insertEdge (lines 93-156)

  /** Where insertEdge puts an edge on a chain: refused with a status, or pushed
      (possibly reversed) on the front or the back. */
  datatype Placement = Refused(status: Status) | AtFront(edge: Edge) | AtBack(edge: Edge)

  /** insertEdge's decision exactly as written.  Its first and fourth cases join
      through the sentinel fragment 0 without the check the other two make. */
  function Place(le: seq<Edge>, e: Edge): Placement
    requires |le| > 0
  {
    var fe, be := le[0], Last(le);
    if fe.bid1 == e.bid1 && fe.dir1 != e.dir1 then
      if be.bid2 == e.bid2 && be.dir2 != e.dir2 then Refused(Cycle) else AtFront(Reverse(e))
    else if fe.bid1 == e.bid2 && fe.dir1 == e.dir2 then
      if fe.bid1 == 0 then Refused(Fail)
      else if be.bid2 == e.bid1 && be.dir2 == e.dir1 then Refused(Cycle)
      else AtFront(e)
    else if be.bid2 == e.bid1 && be.dir2 == e.dir1 then
      if be.bid2 == 0 then Refused(Fail)
      else if fe.bid1 == e.bid2 && fe.dir1 == e.dir2 then Refused(Cycle)
      else AtBack(e)
    else if be.bid2 == e.bid2 && be.dir2 != e.dir2 then
      if fe.bid1 == e.bid1 && fe.dir1 != e.dir1 then Refused(Cycle) else AtBack(Reverse(e))
    else Refused(Fail)
  }

  /** insertEdge with the sentinel check applied in all four cases. */
  function PlaceChecked(le: seq<Edge>, e: Edge): Placement
    requires |le| > 0
  {
    var fe, be := le[0], Last(le);
    if fe.bid1 == e.bid1 && fe.dir1 != e.dir1 then
      if fe.bid1 == 0 then Refused(Fail)
      else if be.bid2 == e.bid2 && be.dir2 != e.dir2 then Refused(Cycle)
      else AtFront(Reverse(e))
    else if fe.bid1 == e.bid2 && fe.dir1 == e.dir2 then
      if fe.bid1 == 0 then Refused(Fail)
      else if be.bid2 == e.bid1 && be.dir2 == e.dir1 then Refused(Cycle)
      else AtFront(e)
    else if be.bid2 == e.bid1 && be.dir2 == e.dir1 then
      if be.bid2 == 0 then Refused(Fail)
      else if fe.bid1 == e.bid2 && fe.dir1 == e.dir2 then Refused(Cycle)
      else AtBack(e)
    else if be.bid2 == e.bid2 && be.dir2 != e.dir2 then
      if be.bid2 == 0 then Refused(Fail)
      else if fe.bid1 == e.bid1 && fe.dir1 != e.dir1 then Refused(Cycle)
      else AtBack(Reverse(e))
    else Refused(Fail)
  }

  function StatusOf(p: Placement): Status
  {
    if p.Refused? then p.status else Success
  }

  /** The chain after a placement. */
  function Applied(le: seq<Edge>, p: Placement): seq<Edge>
  {
    match p
    case Refused(_) => le
    case AtFront(x) => [x] + le
    case AtBack(x) => le + [x]
  }

  /** The end key of the left end of an edge, as main and insertEdge write it. */
  function LeftKey(e: Edge): int
  {
    if e.dir1 == 1 then -e.bid1 else e.bid1
  }

  function RightKey(e: Edge): int
  {
    if e.dir2 == 1 then e.bid2 else -e.bid2
  }

  /** The used-map entries a successful placement writes: both ends of the fragment
      that became interior, and the new free end. */
  function Marks(le: seq<Edge>, p: Placement): set<int>
    requires |le| > 0
  {
    match p
    case Refused(_) => {}
    case AtFront(x) => {le[0].bid1, -le[0].bid1, LeftKey(x)}
    case AtBack(x) => {Last(le).bid2, -Last(le).bid2, RightKey(x)}
  }

  /** A successful placement adds exactly one edge, the given one or its reverse, at
      one end, and the chain stays linked, acyclic and free of interior sentinels;
      a refusal leaves the chain as it was. */
  lemma PlaceCheckedKeepsChain(le: seq<Edge>, e: Edge)
    requires GoodChain(le) && UnitDirs(e)
    ensures var p := PlaceChecked(le, e);
      GoodChain(Applied(le, p))
      && (p.Refused? <==> Applied(le, p) == le)
      && (p.AtFront? ==> (p.edge == e || p.edge == Reverse(e)) && Applied(le, p)[1..] == le)
      && (p.AtBack? ==> (p.edge == e || p.edge == Reverse(e)) && Applied(le, p)[..|le|] == le)
  {
    var p := PlaceChecked(le, e);
    match p
    case Refused(_) =>
    case AtFront(x) =>
      assert [x] + le != le by { assert |[x] + le| != |le|; }
      LinkedConcat([x], le);
    case AtBack(x) =>
      assert le + [x] != le by { assert |le + [x]| != |le|; }
      LinkedConcat(le, [x]);
      assert (le + [x])[..|le|] == le;
  }

  /** On the input below the as-written insertEdge reports SUCCESS and joins two
      chromosome ends through the sentinel: the new chain has 0 in its interior.
      The checked version refuses the same edge. */
  lemma SentinelJoinAsWritten()
    ensures Place([Key(0, 1, 5, 1)], Key(0, -1, 7, -1)) == AtFront(Key(7, 1, 0, 1))
    ensures !InteriorFree(Applied([Key(0, 1, 5, 1)], Place([Key(0, 1, 5, 1)], Key(0, -1, 7, -1))))
    ensures PlaceChecked([Key(0, 1, 5, 1)], Key(0, -1, 7, -1)) == Refused(Fail)
  {
    var c := Applied([Key(0, 1, 5, 1)], AtFront(Key(7, 1, 0, 1)));
    assert c[0].bid2 == 0;
  }

  /** The fourth case has the same gap at the back end: the reversed edge is pushed
      on through the sentinel, which the checked version refuses. */
  lemma SentinelBackJoinAsWritten()
    ensures Place([Key(5, 1, 0, 1)], Key(7, -1, 0, -1)) == AtBack(Key(0, 1, 7, 1))
    ensures !InteriorFree(Applied([Key(5, 1, 0, 1)], Place([Key(5, 1, 0, 1)], Key(7, -1, 0, -1))))
    ensures PlaceChecked([Key(5, 1, 0, 1)], Key(7, -1, 0, -1)) == Refused(Fail)
  {
    var c := Applied([Key(5, 1, 0, 1)], AtBack(Key(0, 1, 7, 1)));
    assert c[0].bid2 == 0;
  }

  // ---------------------------------------------------------------------------
  // mergeLists (lines 208-270)

  /** One step of mergeLists as written: the chain le2 spliced onto le1, or None when
      no end matches or the cycle check refuses. */
  function Merge(le1: seq<Edge>, le2: seq<Edge>): Option<seq<Edge>>
    requires |le1| > 0 && |le2| > 0
  {
    var f1, b1, f2, b2 := le1[0], Last(le1), le2[0], Last(le2);
    if f1.bid1 == f2.bid1 && f1.dir1 != f2.dir1 then
      if b1.bid2 == 0 || b2.bid2 == 0 || b1.bid2 != b2.bid2 then Some(RevChain(le2) + le1) else None
    else if f1.bid1 == b2.bid2 && f1.dir1 == b2.dir2 then
      if f1.bid1 != 0 && (b1.bid2 == 0 || f2.bid1 == 0 || b1.bid2 != f2.bid1) then Some(le2 + le1) else None
    else if b1.bid2 == f2.bid1 && b1.dir2 == f2.dir1 then
      if b1.bid2 != 0 && (f1.bid1 == 0 || b2.bid2 == 0 || f1.bid1 != b2.bid2) then Some(le1 + le2) else None
    else if b1.bid2 == b2.bid2 && b1.dir2 != b2.dir2 then
      if f1.bid1 == 0 || f2.bid1 == 0 || f1.bid1 != f2.bid1 then Some(le1 + RevChain(le2)) else None
    else None
  }

  /** mergeLists with the sentinel check of its second and third cases applied to the
      first and fourth as well. */
  function MergeChecked(le1: seq<Edge>, le2: seq<Edge>): Option<seq<Edge>>
    requires |le1| > 0 && |le2| > 0
  {
    var f1, b1, f2, b2 := le1[0], Last(le1), le2[0], Last(le2);
    if f1.bid1 == f2.bid1 && f1.dir1 != f2.dir1 then
      if f1.bid1 != 0 && (b1.bid2 == 0 || b2.bid2 == 0 || b1.bid2 != b2.bid2) then Some(RevChain(le2) + le1) else None
    else if f1.bid1 == b2.bid2 && f1.dir1 == b2.dir2 then
      if f1.bid1 != 0 && (b1.bid2 == 0 || f2.bid1 == 0 || b1.bid2 != f2.bid1) then Some(le2 + le1) else None
    else if b1.bid2 == f2.bid1 && b1.dir2 == f2.dir1 then
      if b1.bid2 != 0 && (f1.bid1 == 0 || b2.bid2 == 0 || f1.bid1 != b2.bid2) then Some(le1 + le2) else None
    else if b1.bid2 == b2.bid2 && b1.dir2 != b2.dir2 then
      if b1.bid2 != 0 && (f1.bid1 == 0 || f2.bid1 == 0 || f1.bid1 != f2.bid1) then Some(le1 + RevChain(le2)) else None
    else None
  }

  /** A merge keeps every edge of both chains and yields a good chain. */
  lemma MergeCheckedKeepsChain(le1: seq<Edge>, le2: seq<Edge>)
    requires GoodChain(le1) && GoodChain(le2)
    ensures var m := MergeChecked(le1, le2);
      m.Some? ==> GoodChain(m.value) && |m.value| == |le1| + |le2|
  {
    var f1, b1, f2, b2 := le1[0], Last(le1), le2[0], Last(le2);
    if f1.bid1 == f2.bid1 && f1.dir1 != f2.dir1 {
      if f1.bid1 != 0 && (b1.bid2 == 0 || b2.bid2 == 0 || b1.bid2 != b2.bid2) {
        RevChainGood(le2);
        LinkedConcat(RevChain(le2), le1);
      }
    } else if f1.bid1 == b2.bid2 && f1.dir1 == b2.dir2 {
      if f1.bid1 != 0 && (b1.bid2 == 0 || f2.bid1 == 0 || b1.bid2 != f2.bid1) {
        LinkedConcat(le2, le1);
      }
    } else if b1.bid2 == f2.bid1 && b1.dir2 == f2.dir1 {
      if b1.bid2 != 0 && (f1.bid1 == 0 || b2.bid2 == 0 || f1.bid1 != b2.bid2) {
        LinkedConcat(le1, le2);
      }
    } else if b1.bid2 == b2.bid2 && b1.dir2 != b2.dir2 {
      if b1.bid2 != 0 && (f1.bid1 == 0 || f2.bid1 == 0 || f1.bid1 != f2.bid1) {
        RevChainGood(le2);
        LinkedConcat(le1, RevChain(le2));
      }
    }
  }

  /** The as-written first case splices two chains through the sentinel. */
  lemma SentinelMergeAsWritten()
    ensures Merge([Key(0, 1, 5, 1)], [Key(0, -1, 7, -1)]) == Some([Key(7, 1, 0, 1), Key(0, 1, 5, 1)])
    ensures MergeChecked([Key(0, 1, 5, 1)], [Key(0, -1, 7, -1)]) == None
  {
    assert RevChain([Key(0, -1, 7, -1)]) == [Key(7, 1, 0, 1)] by {
      assert [Key(0, -1, 7, -1)][1..] == [];
    }
    assert [Key(7, 1, 0, 1)] + [Key(0, 1, 5, 1)] == [Key(7, 1, 0, 1), Key(0, 1, 5, 1)];
  }

  /** The as-written fourth case splices two chains back to back through the
      sentinel. */
  lemma SentinelBackMergeAsWritten()
    ensures Merge([Key(5, 1, 0, 1)], [Key(7, 1, 0, -1)]) == Some([Key(5, 1, 0, 1), Key(0, 1, 7, -1)])
    ensures MergeChecked([Key(5, 1, 0, 1)], [Key(7, 1, 0, -1)]) == None
  {
    assert RevChain([Key(7, 1, 0, -1)]) == [Key(0, 1, 7, -1)] by {
      assert [Key(7, 1, 0, -1)][1..] == [];
    }
    assert [Key(5, 1, 0, 1)] + [Key(0, 1, 7, -1)] == [Key(5, 1, 0, 1), Key(0, 1, 7, -1)];
  }

  // ---------------------------------------------------------------------------
  // Edge counting over the chain map

  /** Number of edges held by the chains with ids 1..n. */
  function Count(m: map<int, seq<Edge>>, n: int): nat
    decreases n
  {
    if n <= 0 then 0 else Count(m, n - 1) + (if n in m then |m[n]| else 0)
  }

  lemma {:induction false} CountUpdate(m: map<int, seq<Edge>>, c: int, x: seq<Edge>, n: int)
    requires c in m
    ensures 1 <= c <= n ==> Count(m[c := x], n) == Count(m, n) - |m[c]| + |x|
    ensures !(1 <= c <= n) ==> Count(m[c := x], n) == Count(m, n)
    decreases n
  {
    if n > 0 { CountUpdate(m, c, x, n - 1); }
  }

  lemma {:induction false} CountRemove(m: map<int, seq<Edge>>, j: int, n: int)
    requires j in m
    ensures 1 <= j <= n ==> Count(m - {j}, n) == Count(m, n) - |m[j]|
    ensures !(1 <= j <= n) ==> Count(m - {j}, n) == Count(m, n)
    decreases n
  {
    if n > 0 { CountRemove(m, j, n - 1); }
  }

  lemma {:induction false} CountAbove(m: map<int, seq<Edge>>, c: int, x: seq<Edge>, n: int)
    requires c > n
    ensures Count(m[c := x], n) == Count(m, n)
    decreases n
  {
    if n > 0 { CountAbove(m, c, x, n - 1); }
  }

  // ---------------------------------------------------------------------------
  // The greedy assembly (main, lines 330-384), as functions of the state

  /** The state of main's greedy loop: mapUsed, mapClasses and clscnt. */
  datatype Assembly = Assembly(used: set<int>, classes: map<int, seq<Edge>>, clscnt: nat)

  const Start := Assembly({}, map[], 0)

  /** Every class has an id in 1..clscnt and holds a good chain. */
  predicate Good(s: Assembly)
  {
    forall c :: c in s.classes ==> 1 <= c <= s.clscnt && GoodChain(s.classes[c])
  }

  /** One round of mergeLists: class j is spliced onto class c when their ends meet. */
  function MergeNext(classes: map<int, seq<Edge>>, c: int, j: int): map<int, seq<Edge>>
    requires c in classes
  {
    if j != c && j in classes && |classes[c]| > 0 && |classes[j]| > 0 then
      match MergeChecked(classes[c], classes[j])
      case Some(m) => classes[c := m] - {j}
      case None => classes
    else classes
  }

  /** mergeLists on class c from id j on: each other class whose end meets an end of
      class c is spliced onto it and erased, in id order up to n. */
  function MergeFrom(classes: map<int, seq<Edge>>, c: int, j: int, n: int): map<int, seq<Edge>>
    requires c in classes
    decreases n - j + 1
  {
    if j > n then classes else MergeFrom(MergeNext(classes, c, j), c, j + 1, n)
  }

  /** The used-map entries written when an edge starts a chain of its own. */
  function NewChainMarks(e: Edge): set<int>
  {
    (if e.bid1 != 0 then {LeftKey(e)} else {}) + (if e.bid2 != 0 then {RightKey(e)} else {})
  }

  /** An edge that no class takes starts class clscnt + 1. */
  function NewChain(s: Assembly, e: Edge): Assembly
  {
    Assembly(s.used + NewChainMarks(e), s.classes[s.clscnt + 1 := [e]], s.clscnt + 1)
  }

  /** The class loop of main from id k on: the first class whose insertEdge succeeds
      takes the edge and then absorbs the classes it now meets; a CYCLE drops the
      edge; when every class fails, the edge starts a new class. */
  function TryFrom(s: Assembly, e: Edge, k: int): Assembly
    decreases s.clscnt - k + 1
  {
    if k > s.clscnt then NewChain(s, e)
    else if k in s.classes && |s.classes[k]| > 0 then
      var p := PlaceChecked(s.classes[k], e);
      if p == Refused(Fail) then TryFrom(s, e, k + 1)
      else if p.Refused? then s
      else Assembly(s.used + Marks(s.classes[k], p),
                    MergeFrom(s.classes[k := Applied(s.classes[k], p)], k, 1, s.clscnt), s.clscnt)
    else TryFrom(s, e, k + 1)
  }

  /** main skips an edge lighter than the minimum weight, or one of whose non-sentinel
      ends is already used. */
  predicate Skipped(used: set<int>, e: Edge, minWeight: real)
  {
    e.weight < minWeight
    || (e.bid1 != 0 && LeftKey(e) in used)
    || (e.bid2 != 0 && RightKey(e) in used)
  }

  /** One iteration of main's greedy loop. */
  function Step(s: Assembly, e: Edge, minWeight: real): Assembly
  {
    if Skipped(s.used, e, minWeight) then s else TryFrom(s, e, 1)
  }

  /** The edge of a ranked pair, carrying its weight. */
  function Weighted(p: (Edge, real)): Edge
  {
    p.0.(weight := p.1)
  }

  /** The state after the first n ranked edges. */
  function Greedy(ranked: seq<(Edge, real)>, n: nat, minWeight: real): Assembly
    requires n <= |ranked|
  {
    if n == 0 then Start else Step(Greedy(ranked, n - 1, minWeight), Weighted(ranked[n - 1]), minWeight)
  }

  // ---------------------------------------------------------------------------
  // What the greedy assembly keeps: good chains whose free ends are used

  /** The end keys of a chain's free ends other than the sentinel. */
  function Ends(s: seq<Edge>): set<int>
    requires |s| > 0
  {
    (if s[0].bid1 != 0 then {LeftKey(s[0])} else {}) + (if Last(s).bid2 != 0 then {RightKey(Last(s))} else {})
  }

  /** Every free end of every chain is in mapUsed, so no later edge can attach to a
      chain except through insertEdge's own checks. */
  predicate EndsUsed(s: Assembly)
  {
    forall c :: c in s.classes && |s.classes[c]| > 0 ==> Ends(s.classes[c]) <= s.used
  }

  lemma ReverseKeys(x: Edge)
    requires UnitDirs(x)
    ensures Reverse(x).bid1 == x.bid2 && Reverse(x).bid2 == x.bid1
    ensures LeftKey(Reverse(x)) == RightKey(x) && RightKey(Reverse(x)) == LeftKey(x)
  {
  }

  /** The free ends of a merged chain are free ends of the two chains merged. */
  lemma MergeCheckedEnds(le1: seq<Edge>, le2: seq<Edge>)
    requires GoodChain(le1) && GoodChain(le2)
    ensures var m := MergeChecked(le1, le2);
      m.Some? ==> |m.value| > 0 && Ends(m.value) <= Ends(le1) + Ends(le2)
  {
    var m := MergeChecked(le1, le2);
    if m.Some? {
      RevChainGood(le2);
      ReverseKeys(Last(le2));
      ReverseKeys(le2[0]);
      var r := RevChain(le2);
      var f1, b1, f2, b2 := le1[0], Last(le1), le2[0], Last(le2);
      if f1.bid1 == f2.bid1 && f1.dir1 != f2.dir1 {
        assert m.value == r + le1;
        assert (r + le1)[0] == r[0] && Last(r + le1) == b1;
      } else if f1.bid1 == b2.bid2 && f1.dir1 == b2.dir2 {
        assert (le2 + le1)[0] == f2 && Last(le2 + le1) == b1;
      } else if b1.bid2 == f2.bid1 && b1.dir2 == f2.dir1 {
        assert (le1 + le2)[0] == f1 && Last(le1 + le2) == b2;
      } else {
        assert m.value == le1 + r;
        assert (le1 + r)[0] == f1 && Last(le1 + r) == Last(r);
      }
    }
  }

  /** mergeLists keeps every class good, keeps free ends used, and keeps the class ids. */
  lemma {:induction false} MergeFromKeeps(s: Assembly, c: int, j: int)
    requires Good(s) && EndsUsed(s) && c in s.classes
    ensures var m := MergeFrom(s.classes, c, j, s.clscnt);
      c in m && m.Keys <= s.classes.Keys && Good(s.(classes := m)) && EndsUsed(s.(classes := m))
    decreases s.clscnt - j + 1
  {
    var cl := s.classes;
    if j <= s.clscnt {
      if j != c && j in cl && |cl[c]| > 0 && |cl[j]| > 0 {
        var m := MergeChecked(cl[c], cl[j]);
        if m.Some? {
          MergeCheckedKeepsChain(cl[c], cl[j]);
          MergeCheckedEnds(cl[c], cl[j]);
          var s' := s.(classes := cl[c := m.value] - {j});
          assert Good(s');
          assert EndsUsed(s') by {
            forall k | k in s'.classes && |s'.classes[k]| > 0
              ensures Ends(s'.classes[k]) <= s'.used
            {
              if k != c { assert s'.classes[k] == cl[k]; }
            }
          }
          MergeFromKeeps(s', c, j + 1);
        } else {
          MergeFromKeeps(s, c, j + 1);
        }
      } else {
        MergeFromKeeps(s, c, j + 1);
      }
    }
  }

  /** A placement's new free end is among the marks it writes. */
  lemma PlacedEnds(le: seq<Edge>, e: Edge)
    requires GoodChain(le) && UnitDirs(e)
    ensures var p := PlaceChecked(le, e);
      |Applied(le, p)| > 0 && Ends(Applied(le, p)) <= Ends(le) + Marks(le, p)
  {
    var p := PlaceChecked(le, e);
    match p
    case Refused(_) =>
    case AtFront(x) =>
      assert ([x] + le)[0] == x && Last([x] + le) == Last(le);
    case AtBack(x) =>
      assert (le + [x])[0] == le[0] && Last(le + [x]) == x;
  }

  /** The class loop keeps the chains good and their free ends used, and only adds to
      mapUsed and clscnt. */
  lemma {:induction false} TryFromKeeps(s: Assembly, e: Edge, k: int)
    requires Good(s) && EndsUsed(s) && UnitDirs(e) && e.bid1 != e.bid2 && k >= 1
    ensures var t := TryFrom(s, e, k);
      Good(t) && EndsUsed(t) && s.used <= t.used && s.clscnt <= t.clscnt <= s.clscnt + 1
    decreases s.clscnt - k + 1
  {
    if k > s.clscnt {
      var t := NewChain(s, e);
      assert Ends([e]) == NewChainMarks(e);
      assert EndsUsed(t) by {
        forall c | c in t.classes && |t.classes[c]| > 0
          ensures Ends(t.classes[c]) <= t.used
        {
          if c != s.clscnt + 1 { assert t.classes[c] == s.classes[c]; }
        }
      }
    } else if k in s.classes && |s.classes[k]| > 0 {
      var le := s.classes[k];
      var p := PlaceChecked(le, e);
      if p == Refused(Fail) {
        TryFromKeeps(s, e, k + 1);
      } else if !p.Refused? {
        PlaceCheckedKeepsChain(le, e);
        PlacedEnds(le, e);
        var s' := Assembly(s.used + Marks(le, p), s.classes[k := Applied(le, p)], s.clscnt);
        assert Good(s');
        assert EndsUsed(s') by {
          forall c | c in s'.classes && |s'.classes[c]| > 0
            ensures Ends(s'.classes[c]) <= s'.used
          {
            if c != k { assert s'.classes[c] == s.classes[c]; }
          }
        }
        MergeFromKeeps(s', k, 1);
      }
    } else {
      TryFromKeeps(s, e, k + 1);
    }
  }

  // ---------------------------------------------------------------------------
  // Each element end is used once

  /** The fragment ends an edge joins, other than the sentinel, as end keys. */
  function EdgeKeys(e: Edge): multiset<int>
  {
    (if e.bid1 != 0 then multiset{LeftKey(e)} else multiset{}) +
    (if e.bid2 != 0 then multiset{RightKey(e)} else multiset{})
  }

  /** The fragment ends the edges of a chain join, counted with repetition. */
  function ChainKeys(s: seq<Edge>): multiset<int>
  {
    if s == [] then multiset{} else EdgeKeys(s[0]) + ChainKeys(s[1..])
  }

  ghost predicate NoRepeat(m: multiset<int>)
  {
    forall k :: m[k] <= 1
  }

  /** No fragment end is joined twice, within one chain or by two chains, and every
      joined end is in mapUsed. */
  ghost predicate EndsOnce(s: Assembly)
  {
    (forall c :: c in s.classes ==> NoRepeat(ChainKeys(s.classes[c]))) &&
    (forall c, d :: c in s.classes && d in s.classes && c != d ==>
       ChainKeys(s.classes[c]) !! ChainKeys(s.classes[d])) &&
    (forall c, k :: c in s.classes && k in ChainKeys(s.classes[c]) ==> k in s.used)
  }

  /** Fragment ids are never negative, so an edge between two fragments joins two
      different end keys. */
  predicate NaturalIds(e: Edge)
  {
    0 <= e.bid1 && 0 <= e.bid2
  }

  /** The ends an edge that main does not skip would join are all still free. */
  predicate KeysFree(used: set<int>, e: Edge)
  {
    forall k :: k in EdgeKeys(e) ==> k !in used
  }

  lemma NotSkippedFree(used: set<int>, e: Edge, minWeight: real)
    requires !Skipped(used, e, minWeight)
    ensures KeysFree(used, e)
  {
  }

  lemma EdgeKeysOnce(e: Edge)
    requires NaturalIds(e) && e.bid1 != e.bid2
    ensures NoRepeat(EdgeKeys(e))
  {
  }

  lemma EdgeKeysReverse(e: Edge)
    requires UnitDirs(e)
    ensures EdgeKeys(Reverse(e)) == EdgeKeys(e)
  {
    ReverseKeys(e);
  }

  lemma {:induction false} ChainKeysAppend(a: seq<Edge>, b: seq<Edge>)
    ensures ChainKeys(a + b) == ChainKeys(a) + ChainKeys(b)
  {
    if a == [] {
      assert a + b == b;
    } else {
      assert (a + b)[1..] == a[1..] + b;
      ChainKeysAppend(a[1..], b);
    }
  }

  lemma ChainKeysOne(x: Edge)
    ensures ChainKeys([x]) == EdgeKeys(x)
  {
    assert [x][1..] == [];
  }

  /** Reading a chain backwards joins the same fragment ends. */
  lemma {:induction false} ChainKeysRev(s: seq<Edge>)
    requires AllUnit(s)
    ensures ChainKeys(RevChain(s)) == ChainKeys(s)
  {
    if s != [] {
      assert AllUnit(s[1..]) by {
        forall k | 0 <= k < |s[1..]| ensures UnitDirs(s[1..][k]) { assert s[1..][k] == s[k + 1]; }
      }
      ChainKeysRev(s[1..]);
      ChainKeysAppend(RevChain(s[1..]), [Reverse(s[0])]);
      ChainKeysOne(Reverse(s[0]));
      EdgeKeysReverse(s[0]);
    }
  }

  lemma NoRepeatSum(a: multiset<int>, b: multiset<int>)
    requires NoRepeat(a) && NoRepeat(b) && a !! b
    ensures NoRepeat(a + b)
  {
    forall k ensures (a + b)[k] <= 1 {
      assert a[k] == 0 || b[k] == 0;
    }
  }

  lemma DisjointSum(a: multiset<int>, b: multiset<int>, d: multiset<int>)
    requires a !! d && b !! d
    ensures a + b !! d
  {
  }

  /** A merge joins exactly the fragment ends of the two chains merged. */
  lemma MergeCheckedKeys(le1: seq<Edge>, le2: seq<Edge>)
    requires GoodChain(le1) && GoodChain(le2)
    ensures var m := MergeChecked(le1, le2);
      m.Some? ==> ChainKeys(m.value) == ChainKeys(le1) + ChainKeys(le2)
  {
    var m := MergeChecked(le1, le2);
    if m.Some? {
      ChainKeysRev(le2);
      var r := RevChain(le2);
      var f1, b1, f2, b2 := le1[0], Last(le1), le2[0], Last(le2);
      if f1.bid1 == f2.bid1 && f1.dir1 != f2.dir1 {
        ChainKeysAppend(r, le1);
      } else if f1.bid1 == b2.bid2 && f1.dir1 == b2.dir2 {
        ChainKeysAppend(le2, le1);
      } else if b1.bid2 == f2.bid1 && b1.dir2 == f2.dir1 {
        ChainKeysAppend(le1, le2);
      } else {
        ChainKeysAppend(le1, r);
      }
    }
  }

  /** Where a successful placement joins: the edge placed is the given one or its
      reverse, and meets the chain at its first or last fragment. */
  lemma PlaceJoin(le: seq<Edge>, e: Edge)
    requires GoodChain(le) && UnitDirs(e)
    ensures var p := PlaceChecked(le, e);
      (p.AtFront? ==> (p.edge == e || p.edge == Reverse(e)) && p.edge.bid2 == le[0].bid1) &&
      (p.AtBack? ==> (p.edge == e || p.edge == Reverse(e)) && p.edge.bid1 == Last(le).bid2)
  {
  }

  /** A placement adds the fragment ends of the edge placed, and writes them to
      mapUsed. */
  lemma PlacedKeys(le: seq<Edge>, e: Edge)
    requires GoodChain(le) && UnitDirs(e)
    ensures var p := PlaceChecked(le, e);
      !p.Refused? ==> ChainKeys(Applied(le, p)) == ChainKeys(le) + EdgeKeys(e) &&
                      forall k :: k in EdgeKeys(e) ==> k in Marks(le, p)
  {
    var p := PlaceChecked(le, e);
    if !p.Refused? {
      PlaceJoin(le, e);
      EdgeKeysReverse(e);
      AppliedKeys(le, p);
      MarkedKeys(le, p);
    }
  }

  lemma AppliedKeys(le: seq<Edge>, p: Placement)
    requires |le| > 0 && !p.Refused?
    ensures ChainKeys(Applied(le, p)) == ChainKeys(le) + EdgeKeys(p.edge)
  {
    ChainKeysOne(p.edge);
    if p.AtFront? {
      ChainKeysAppend([p.edge], le);
    } else {
      ChainKeysAppend(le, [p.edge]);
    }
  }

  lemma MarkedKeys(le: seq<Edge>, p: Placement)
    requires |le| > 0 && !p.Refused?
    requires p.AtFront? ==> p.edge.bid2 == le[0].bid1
    requires p.AtBack? ==> p.edge.bid1 == Last(le).bid2
    ensures forall k :: k in EdgeKeys(p.edge) ==> k in Marks(le, p)
  {
    var x := p.edge;
    forall k | k in EdgeKeys(x) ensures k in Marks(le, p) {
      assert k == LeftKey(x) || k == RightKey(x);
    }
  }

  lemma GoodMerged(s: Assembly, c: int, j: int, v: seq<Edge>)
    requires Good(s) && c in s.classes && GoodChain(v)
    ensures Good(s.(classes := s.classes[c := v] - {j}))
  {
  }

  lemma GoodReplaced(s: Assembly, k: int, v: seq<Edge>, used: set<int>)
    requires Good(s) && k in s.classes && GoodChain(v)
    ensures Good(Assembly(used, s.classes[k := v], s.clscnt))
  {
  }

  /** The sum of the multisets with ids 1..n. */
  function Sum(m: map<int, multiset<int>>, n: int): multiset<int>
    decreases n
  {
    if n <= 0 then multiset{} else Sum(m, n - 1) + (if n in m then m[n] else multiset{})
  }

  /** The fragment ends each class joins. */
  function KeysOf(classes: map<int, seq<Edge>>): map<int, multiset<int>>
  {
    map c | c in classes :: ChainKeys(classes[c])
  }

  /** The fragment ends joined by the chains with ids 1..n, counted with repetition. */
  function Joined(classes: map<int, seq<Edge>>, n: int): multiset<int>
  {
    Sum(KeysOf(classes), n)
  }

  lemma KeysOfUpdate(m: map<int, seq<Edge>>, c: int, x: seq<Edge>)
    ensures KeysOf(m[c := x]) == KeysOf(m)[c := ChainKeys(x)]
  {
  }

  lemma KeysOfRemove(m: map<int, seq<Edge>>, j: int)
    ensures KeysOf(m - {j}) == KeysOf(m) - {j}
  {
  }

  /** Replacing part c of a sum. */
  lemma {:induction false} SumUpdate(m: map<int, multiset<int>>, c: int, x: multiset<int>, n: int)
    requires c in m && 1 <= c <= n
    ensures Sum(m[c := x], n) + m[c] == Sum(m, n) + x
    decreases n
  {
    if n > c {
      SumUpdate(m, c, x, n - 1);
      var y := if n in m then m[n] else multiset{};
      assert Sum(m[c := x], n) == Sum(m[c := x], n - 1) + y;
      Shuffle(Sum(m[c := x], n - 1), Sum(m, n - 1), y, m[c], x);
    } else {
      SumAbove(m, c, x, n - 1);
    }
  }

  /** Adding the same part to both sides of an equation of sums. */
  lemma Shuffle(a: multiset<int>, b: multiset<int>, y: multiset<int>, p: multiset<int>, q: multiset<int>)
    requires a + p == b + q
    ensures a + y + p == b + y + q
  {
    forall k ensures (a + y + p)[k] == (b + y + q)[k] { assert (a + p)[k] == (b + q)[k]; }
  }

  lemma {:induction false} SumAbove(m: map<int, multiset<int>>, c: int, x: multiset<int>, n: int)
    requires c > n
    ensures Sum(m[c := x], n) == Sum(m, n)
    decreases n
  {
    if n > 0 { SumAbove(m, c, x, n - 1); }
  }

  /** Dropping part j of a sum. */
  lemma {:induction false} SumRemove(m: map<int, multiset<int>>, j: int, n: int)
    requires j in m && 1 <= j <= n
    ensures Sum(m - {j}, n) + m[j] == Sum(m, n)
    decreases n
  {
    if n > j {
      SumRemove(m, j, n - 1);
      var y := if n in m then m[n] else multiset{};
      assert Sum(m - {j}, n) == Sum(m - {j}, n - 1) + y;
      Shuffle(Sum(m - {j}, n - 1), Sum(m, n - 1), y, m[j], multiset{});
    } else {
      SumGone(m, j, n - 1);
      assert Sum(m - {j}, n) == Sum(m - {j}, n - 1) + multiset{};
    }
  }

  lemma {:induction false} SumGone(m: map<int, multiset<int>>, j: int, n: int)
    requires j > n
    ensures Sum(m - {j}, n) == Sum(m, n)
    decreases n
  {
    if n > 0 { SumGone(m, j, n - 1); }
  }

  /** Each part with an id in 1..n is inside the sum. */
  lemma {:induction false} SumHas(m: map<int, multiset<int>>, c: int, n: int)
    requires c in m && 1 <= c <= n
    ensures m[c] <= Sum(m, n)
    decreases n
  {
    var y := if n in m then m[n] else multiset{};
    assert Sum(m, n) == Sum(m, n - 1) + y;
    if n > c {
      SumHas(m, c, n - 1);
      SubSum(m[c], Sum(m, n - 1), y);
    } else {
      SubSum(m[c], y, Sum(m, n - 1));
    }
  }

  lemma SubSum(x: multiset<int>, a: multiset<int>, y: multiset<int>)
    requires x <= a
    ensures x <= a + y && x <= y + a
  {
  }

  /** Two parts of a sum without repeats share nothing. */
  lemma {:induction false} SumApart(m: map<int, multiset<int>>, c: int, d: int, n: int)
    requires c in m && d in m && 1 <= c < d <= n && NoRepeat(Sum(m, n))
    ensures m[c] !! m[d]
    decreases n
  {
    var a, y := Sum(m, n - 1), if n in m then m[n] else multiset{};
    assert Sum(m, n) == a + y;
    NoRepeatParts(a, y);
    if d < n {
      SumApart(m, c, d, n - 1);
    } else {
      SumHas(m, c, n - 1);
      DisjointSub(m[c], a, y);
    }
  }

  /** A multiset without repeats splits into parts without repeats that share
      nothing. */
  lemma NoRepeatParts(a: multiset<int>, b: multiset<int>)
    requires NoRepeat(a + b)
    ensures NoRepeat(a) && NoRepeat(b) && a !! b
  {
    forall y ensures a[y] <= 1 && b[y] <= 1 && (a[y] == 0 || b[y] == 0) {
      assert (a + b)[y] == a[y] + b[y];
    }
  }

  lemma NoRepeatSub(a: multiset<int>, b: multiset<int>)
    requires NoRepeat(b) && a <= b
    ensures NoRepeat(a)
  {
  }

  lemma DisjointSub(x: multiset<int>, a: multiset<int>, y: multiset<int>)
    requires x <= a && a !! y
    ensures x !! y
  {
    forall k | k in x ensures k !in y { assert k in a; }
  }

  /** One round of mergeLists keeps the chains good and the fragment ends joined. */
  lemma NextJoined(s: Assembly, c: int, j: int)
    requires Good(s) && c in s.classes && j <= s.clscnt
    ensures Good(s.(classes := MergeNext(s.classes, c, j)))
    ensures Joined(MergeNext(s.classes, c, j), s.clscnt) == Joined(s.classes, s.clscnt)
  {
    var cl := s.classes;
    if j != c && j in cl && |cl[c]| > 0 && |cl[j]| > 0 && MergeChecked(cl[c], cl[j]).Some? {
      var v := MergeChecked(cl[c], cl[j]).value;
      MergeCheckedKeepsChain(cl[c], cl[j]);
      MergeCheckedKeys(cl[c], cl[j]);
      GoodMerged(s, c, j, v);
      MergedJoined(cl, c, j, v, s.clscnt);
    }
  }

  /** mergeLists moves fragment ends between chains but joins no new one and loses
      none. */
  lemma {:induction false} MergeFromJoined(s: Assembly, c: int, j: int)
    requires Good(s) && c in s.classes
    ensures Joined(MergeFrom(s.classes, c, j, s.clscnt), s.clscnt) == Joined(s.classes, s.clscnt)
    decreases s.clscnt - j + 1
  {
    if j <= s.clscnt {
      NextJoined(s, c, j);
      MergeFromJoined(s.(classes := MergeNext(s.classes, c, j)), c, j + 1);
    }
  }

  /** Chain c taking over chain j's edges keeps the fragment ends joined. */
  lemma MergedJoined(cl: map<int, seq<Edge>>, c: int, j: int, v: seq<Edge>, n: int)
    requires c in cl && j in cl && c != j && 1 <= c <= n && 1 <= j <= n
    requires ChainKeys(v) == ChainKeys(cl[c]) + ChainKeys(cl[j])
    ensures Joined(cl[c := v] - {j}, n) == Joined(cl, n)
  {
    var keys := KeysOf(cl);
    KeysOfUpdate(cl, c, v);
    KeysOfRemove(cl[c := v], j);
    SumUpdate(keys, c, ChainKeys(v), n);
    SumRemove(keys[c := ChainKeys(v)], j, n);
    MergedSums(Sum(keys[c := ChainKeys(v)] - {j}, n), Sum(keys[c := ChainKeys(v)], n), Sum(keys, n),
               ChainKeys(cl[c]), ChainKeys(cl[j]), ChainKeys(v));
  }

  /** The sums of a merge: chain c takes w = x + y, chain j with y leaves. */
  lemma MergedSums(a: multiset<int>, u: multiset<int>, b: multiset<int>, x: multiset<int>, y: multiset<int>,
                   w: multiset<int>)
    requires u + x == b + w && w == x + y && a + y == u
    ensures a == b
  {
    forall k ensures a[k] == b[k] { assert (u + x)[k] == (b + w)[k]; }
  }

  /** The sums of a placement: chain x becomes w = x + d. */
  lemma PlacedSums(u: multiset<int>, b: multiset<int>, x: multiset<int>, d: multiset<int>, w: multiset<int>)
    requires u + x == b + w && w == x + d
    ensures u == b + d
  {
    forall k ensures u[k] == (b + d)[k] { assert (u + x)[k] == (b + w)[k]; }
  }

  /** The class loop either drops the edge, leaving the state as it is, or joins
      exactly the edge's fragment ends more and writes them to mapUsed. */
  lemma {:induction false} TryFromJoined(s: Assembly, e: Edge, k: int)
    requires Good(s) && UnitDirs(e) && e.bid1 != e.bid2 && k >= 1
    ensures var t := TryFrom(s, e, k);
      s.used <= t.used &&
      (t == s || (Joined(t.classes, t.clscnt) == Joined(s.classes, s.clscnt) + EdgeKeys(e) &&
                  forall y :: y in EdgeKeys(e) ==> y in t.used))
    decreases s.clscnt - k + 1
  {
    var n := s.clscnt;
    if k > n {
      ChainKeysOne(e);
      KeysOfUpdate(s.classes, n + 1, [e]);
      SumAbove(KeysOf(s.classes), n + 1, EdgeKeys(e), n);
    } else if k in s.classes && |s.classes[k]| > 0 {
      var le := s.classes[k];
      var p := PlaceChecked(le, e);
      if p == Refused(Fail) {
        TryFromJoined(s, e, k + 1);
      } else if !p.Refused? {
        PlacedJoined(s, e, k);
      }
    } else {
      TryFromJoined(s, e, k + 1);
    }
  }

  /** A class that takes the edge, and the merges after it, join exactly the edge's
      fragment ends more, and write them to mapUsed. */
  lemma PlacedJoined(s: Assembly, e: Edge, k: int)
    requires Good(s) && UnitDirs(e) && k in s.classes && |s.classes[k]| > 0
    requires !PlaceChecked(s.classes[k], e).Refused?
    ensures var le := s.classes[k];
      var p := PlaceChecked(le, e);
      var classes := MergeFrom(s.classes[k := Applied(le, p)], k, 1, s.clscnt);
      Joined(classes, s.clscnt) == Joined(s.classes, s.clscnt) + EdgeKeys(e) &&
      forall y :: y in EdgeKeys(e) ==> y in s.used + Marks(le, p)
  {
    var n := s.clscnt;
    var le := s.classes[k];
    var p := PlaceChecked(le, e);
    PlaceCheckedKeepsChain(le, e);
    PlacedKeys(le, e);
    var v := Applied(le, p);
    GoodReplaced(s, k, v, s.used + Marks(le, p));
    MergeFromJoined(Assembly(s.used + Marks(le, p), s.classes[k := v], n), k, 1);
    var keys := KeysOf(s.classes);
    KeysOfUpdate(s.classes, k, v);
    SumUpdate(keys, k, ChainKeys(v), n);
    PlacedSums(Sum(keys[k := ChainKeys(v)], n), Sum(keys, n), ChainKeys(le), EdgeKeys(e), ChainKeys(v));
  }

  /** Every fragment end joined by some chain is joined once, and is in mapUsed. */
  ghost predicate JoinedOnce(s: Assembly)
  {
    NoRepeat(Joined(s.classes, s.clscnt)) && forall y :: y in Joined(s.classes, s.clscnt) ==> y in s.used
  }

  /** One iteration of the greedy loop keeps every fragment end joined once. */
  lemma StepOnce(s: Assembly, e: Edge, minWeight: real)
    requires Good(s) && JoinedOnce(s) && UnitDirs(e) && e.bid1 != e.bid2 && NaturalIds(e)
    ensures JoinedOnce(Step(s, e, minWeight))
  {
    if !Skipped(s.used, e, minWeight) {
      var t := TryFrom(s, e, 1);
      TryFromJoined(s, e, 1);
      if t != s {
        var b := Joined(s.classes, s.clscnt);
        EdgeKeysOnce(e);
        assert b !! EdgeKeys(e) by {
          forall y | y in EdgeKeys(e) ensures y !in b { assert y !in s.used; }
        }
        NoRepeatSum(b, EdgeKeys(e));
      }
    }
  }

  /** Joined once over all chains means: once inside each chain, and never by two
      chains. */
  lemma {:induction false} JoinedOnceEnds(s: Assembly)
    requires Good(s) && JoinedOnce(s)
    ensures EndsOnce(s)
  {
    var m, n := KeysOf(s.classes), s.clscnt;
    forall c | c in s.classes
      ensures NoRepeat(ChainKeys(s.classes[c]))
    {
      SumHas(m, c, n);
      NoRepeatSub(m[c], Sum(m, n));
    }
    forall c, d | c in s.classes && d in s.classes && c != d
      ensures ChainKeys(s.classes[c]) !! ChainKeys(s.classes[d])
    {
      if c < d { SumApart(m, c, d, n); } else { SumApart(m, d, c, n); }
    }
    forall c, y | c in s.classes && y in ChainKeys(s.classes[c])
      ensures y in s.used
    {
      SumHas(m, c, n);
    }
  }

  /** Every state of the greedy loop holds good chains with used free ends, mapUsed
      and clscnt only grow, and, when fragment ids are never negative, no fragment
      end is joined twice. */
  lemma {:induction false} GreedyKeeps(ranked: seq<(Edge, real)>, n: nat, minWeight: real)
    requires n <= |ranked|
    requires forall i :: 0 <= i < |ranked| ==> UnitDirs(ranked[i].0) && ranked[i].0.bid1 != ranked[i].0.bid2
    ensures Good(Greedy(ranked, n, minWeight)) && EndsUsed(Greedy(ranked, n, minWeight))
    ensures n > 0 ==> Greedy(ranked, n - 1, minWeight).used <= Greedy(ranked, n, minWeight).used
    ensures Greedy(ranked, n, minWeight).clscnt <= n
    ensures (forall i :: 0 <= i < |ranked| ==> NaturalIds(ranked[i].0)) ==> EndsOnce(Greedy(ranked, n, minWeight))
  {
    if n > 0 {
      GreedyKeeps(ranked, n - 1, minWeight);
      var s := Greedy(ranked, n - 1, minWeight);
      var e := Weighted(ranked[n - 1]);
      if !Skipped(s.used, e, minWeight) {
        TryFromKeeps(s, e, 1);
      }
    }
    if forall i :: 0 <= i < |ranked| ==> NaturalIds(ranked[i].0) {
      GreedyOnce(ranked, n, minWeight);
      JoinedOnceEnds(Greedy(ranked, n, minWeight));
    }
  }

  lemma {:induction false} GreedyOnce(ranked: seq<(Edge, real)>, n: nat, minWeight: real)
    requires n <= |ranked|
    requires forall i :: 0 <= i < |ranked| ==>
      UnitDirs(ranked[i].0) && ranked[i].0.bid1 != ranked[i].0.bid2 && NaturalIds(ranked[i].0)
    ensures Good(Greedy(ranked, n, minWeight)) && EndsUsed(Greedy(ranked, n, minWeight))
    ensures JoinedOnce(Greedy(ranked, n, minWeight))
  {
    if n > 0 {
      GreedyOnce(ranked, n - 1, minWeight);
      var s := Greedy(ranked, n - 1, minWeight);
      var e := Weighted(ranked[n - 1]);
      if !Skipped(s.used, e, minWeight) {
        TryFromKeeps(s, e, 1);
      }
      StepOnce(s, e, minWeight);
    }
  }

  // ---------------------------------------------------------------------------
  // The greedy assembly state (main, lines 330-384)

  class Assembler {
    /** mapUsed: the fragment end keys that may no longer take a join. */
    var used: set<int>
    /** mapClasses: chain id -> chain. */
    var classes: map<int, seq<Edge>>
    var clscnt: nat

    function State(): Assembly
      reads this
    {
      Assembly(used, classes, clscnt)
    }

    ghost predicate Valid()
      reads this
    {
      forall c :: c in classes ==> 1 <= c <= clscnt && GoodChain(classes[c])
    }

    constructor ()
      ensures Valid() && State() == Start
    {
      used, classes, clscnt := {}, map[], 0;
    }

    /** insertEdge on chain c. */
    method InsertEdge(c: int, e: Edge) returns (st: Status)
      requires Valid() && c in classes && UnitDirs(e)
      modifies this
      ensures Valid() && clscnt == old(clscnt) && classes.Keys == old(classes.Keys)
      ensures var p := PlaceChecked(old(classes[c]), e);
        st == StatusOf(p)
        && classes == old(classes)[c := Applied(old(classes[c]), p)]
        && used == old(used) + Marks(old(classes[c]), p)
    {
      var le := classes[c];
      PlaceCheckedKeepsChain(le, e);
      var p := PlaceChecked(le, e);
      st := StatusOf(p);
      if st == Success {
        classes := classes[c := Applied(le, p)];
        used := used + Marks(le, p);
      }
    }

    /** mergeLists: chains 1..clscnt other than c are spliced onto chain c, in id
        order, whenever one of their ends meets one of c's; the spliced chains are
        erased.  The used map is not touched. */
    method MergeLists(c: int)
      requires Valid() && c in classes
      modifies this
      ensures Valid() && c in classes && clscnt == old(clscnt) && used == old(used)
      ensures classes == MergeFrom(old(classes), c, 1, clscnt)
      ensures Count(classes, clscnt) == old(Count(classes, clscnt))
    {
      var j := 1;
      while j <= clscnt
        invariant 1 <= j <= clscnt + 1
        invariant Valid() && c in classes && clscnt == old(clscnt) && used == old(used)
        invariant MergeFrom(classes, c, j, clscnt) == MergeFrom(old(classes), c, 1, clscnt)
        invariant Count(classes, clscnt) == old(Count(classes, clscnt))
      {
        if j != c && j in classes {
          var le1, le2 := classes[c], classes[j];
          MergeCheckedKeepsChain(le1, le2);
          var m := MergeChecked(le1, le2);
          if m.Some? {
            CountUpdate(classes, c, m.value, clscnt);
            CountRemove(classes[c := m.value], j, clscnt);
            classes := classes[c := m.value] - {j};
          }
        }
        j := j + 1;
      }
    }

    /** One iteration of main's greedy loop for edge e with weight w. */
    method Process(e: Edge, minWeight: real) returns (placed: bool)
      requires Valid() && UnitDirs(e) && e.bid1 != e.bid2
      modifies this
      ensures Valid() && State() == Step(old(State()), e, minWeight)
      ensures Count(classes, clscnt) == old(Count(classes, clscnt)) + (if placed then 1 else 0)
    {
      ghost var s0 := State();
      placed := false;
      if Skipped(used, e, minWeight) {
        return;
      }
      var k := 1;
      var found := false;
      while k <= clscnt && !found
        invariant 1 <= k <= clscnt + 1
        invariant Valid() && clscnt == old(clscnt)
        invariant !found ==> State() == s0 && !placed && TryFrom(s0, e, k) == TryFrom(s0, e, 1)
        invariant found ==> State() == TryFrom(s0, e, 1)
        invariant Count(classes, clscnt) == old(Count(classes, clscnt)) + (if placed then 1 else 0)
        decreases clscnt + 1 - k, if found then 0 else 1
      {
        if k in classes {
          var before := classes[k];
          var st := InsertEdge(k, e);
          if st == Success {
            assert |classes[k]| == |before| + 1 by {
              var p := PlaceChecked(before, e);
              assert !p.Refused?;
            }
            CountUpdate(old(classes), k, classes[k], clscnt);
            MergeLists(k);
            placed, found := true, true;
          } else {
            assert classes[k] == before;
            assert classes == old(classes);
          }
          if st == Cycle {
            found := true;
          }
        }
        if !found { k := k + 1; }
      }
      if !found {
        StartChain(e);
        placed := true;
      }
    }

    /** An edge no class takes opens chain clscnt + 1 and marks its non-sentinel ends. */
    method StartChain(e: Edge)
      requires Valid() && UnitDirs(e) && e.bid1 != e.bid2
      modifies this
      ensures Valid() && State() == NewChain(old(State()), e)
      ensures Count(classes, clscnt) == old(Count(classes, clscnt)) + 1
    {
      CountAbove(classes, clscnt + 1, [e], clscnt);
      clscnt := clscnt + 1;
      classes := classes[clscnt := [e]];
      assert Count(classes, clscnt) == Count(classes, clscnt - 1) + 1;
      if e.bid1 != 0 { used := used + {LeftKey(e)}; }
      if e.bid2 != 0 { used := used + {RightKey(e)}; }
    }
  }

  /** main's loop over the ranked edges: each gets its weight and is processed. */
  method Assemble(ranked: seq<(Edge, real)>, minWeight: real) returns (a: Assembler, placed: nat)
    requires forall i :: 0 <= i < |ranked| ==> UnitDirs(ranked[i].0) && ranked[i].0.bid1 != ranked[i].0.bid2
    ensures fresh(a) && a.Valid() && a.State() == Greedy(ranked, |ranked|, minWeight)
    ensures EndsUsed(a.State()) && a.clscnt <= |ranked|
    ensures (forall i :: 0 <= i < |ranked| ==> NaturalIds(ranked[i].0)) ==> EndsOnce(a.State())
    ensures placed <= |ranked| && Count(a.classes, a.clscnt) == placed
  {
    a := new Assembler();
    placed := 0;
    var i := 0;
    while i < |ranked|
      invariant 0 <= i <= |ranked| && placed <= i
      invariant fresh(a) && a.Valid() && a.State() == Greedy(ranked, i, minWeight)
      invariant Count(a.classes, a.clscnt) == placed
    {
      var e := Weighted(ranked[i]);
      var ok := a.Process(e, minWeight);
      if ok { placed := placed + 1; }
      i := i + 1;
    }
    GreedyKeeps(ranked, |ranked|, minWeight);
  }

  /** The whole chaining run: read scores, weigh candidates, rank them heaviest first,
      and assemble the ranked edges greedily. */
  method Deschramble(lines: seq<ScoreLine>, minWeight: real) returns (a: Assembler, ranked: seq<(Edge, real)>)
    ensures NonIncreasing(ranked)
    ensures forall p :: p in ranked <==>
      Candidate(StoreLines(lines), MaxId(lines), p.0) && p.1 == StoreLines(lines)[p.0]
    ensures fresh(a) && a.Valid() && a.State() == Greedy(ranked, |ranked|, minWeight)
    ensures EndsUsed(a.State()) && EndsOnce(a.State())
  {
    var scores, numblocks := ReadScores(lines);
    var weights := ComputeWeights(scores, numblocks);
    ranked := SortByWeight(weights);
    forall i | 0 <= i < |ranked|
      ensures UnitDirs(ranked[i].0) && ranked[i].0.bid1 != ranked[i].0.bid2 && NaturalIds(ranked[i].0)
    {
      assert ranked[i] in ranked;
    }
    var placed;
    a, placed := Assemble(ranked, minWeight);
  }
}
