/** The sparse likelihood tables of inferAdjProb (code/inferAdjProb.c): PLH, SLH, PPP
    and SPP.  Each is an array of N list heads; a list holds (x, val) nodes, its head
    node is zero-initialised (so it is the entry for x = 0 until overwritten) and new
    entries are appended at the tail.  PVal/PSet keep one list per column j keyed by
    the row i; SVal/SSet keep one list per row i keyed by the column j.

    The tables are filled by getPredecessor and getSuccessor; the values written
    (likelihoods) are computed in floating point and stay uninterpreted here. */
module SparseTable {
  import opened AdjacencyIndex

  datatype Entry = Entry(x: int, val: real)

  predicate Has(l: seq<Entry>, i: int)
  {
    exists k :: 0 <= k < |l| && l[k].x == i
  }

  /** The value of the first node keyed i, 0 when there is none. */
  function Lookup(l: seq<Entry>, i: int): real
  {
    if |l| == 0 then 0.0
    else if l[0].x == i then l[0].val
    else Lookup(l[1..], i)
  }

  /** The position of the first node keyed i. */
  function FirstAt(l: seq<Entry>, i: int): (k: nat)
    requires Has(l, i)
    ensures k < |l| && l[k].x == i
    ensures forall m :: 0 <= m < k ==> l[m].x != i
  {
    if l[0].x == i then 0
    else
      assert Has(l[1..], i) by {
        var w :| 0 <= w < |l| && l[w].x == i;
        assert l[1..][w - 1].x == i;
      }
      1 + FirstAt(l[1..], i)
  }

  /** The list after setting key i to v: the first node keyed i is overwritten, and
      otherwise one node is appended at the tail. */
  function Upsert(l: seq<Entry>, i: int, v: real): seq<Entry>
  {
    if Has(l, i) then l[FirstAt(l, i) := Entry(i, v)] else l + [Entry(i, v)]
  }

  /** No key occurs twice in a list. */
  predicate Distinct(l: seq<Entry>)
  {
    forall a, b :: 0 <= a < b < |l| ==> l[a].x != l[b].x
  }

  /** The shape every list of a table keeps: the zeroed head node is keyed 0, keys are
      distinct and are indices of the space. */
  predicate WellKeyed(t: nat, l: seq<Entry>)
  {
    |l| > 0 && l[0].x == 0 && Distinct(l) && forall k :: 0 <= k < |l| ==> InSpace(t, l[k].x)
  }

  lemma {:induction false} LookupFirst(l: seq<Entry>, i: int, k: nat)
    requires k < |l| && l[k].x == i && forall m :: 0 <= m < k ==> l[m].x != i
    ensures Lookup(l, i) == l[k].val
  {
    if k > 0 {
      LookupFirst(l[1..], i, k - 1);
    }
  }

  lemma {:induction false} LookupAbsent(l: seq<Entry>, i: int)
    requires !Has(l, i)
    ensures Lookup(l, i) == 0.0
  {
    if |l| > 0 {
      assert !Has(l[1..], i) by {
        forall k | 0 <= k < |l[1..]|
          ensures l[1..][k].x != i
        {
          assert l[1..][k] == l[k + 1];
        }
      }
      LookupAbsent(l[1..], i);
    }
  }

  /** Lookup after Upsert: the key just set reads back the value written ... */
  lemma LookupUpsertSame(l: seq<Entry>, i: int, v: real)
    ensures Lookup(Upsert(l, i, v), i) == v
    ensures Has(Upsert(l, i, v), i)
  {
    var u := Upsert(l, i, v);
    if Has(l, i) {
      var k := FirstAt(l, i);
      LookupFirst(u, i, k);
    } else {
      forall m | 0 <= m < |l|
        ensures u[m].x != i
      {
        assert u[m] == l[m];
      }
      LookupFirst(u, i, |l|);
    }
  }

  /** ... and every other key reads as before. */
  lemma LookupUpsertOther(l: seq<Entry>, i: int, v: real, i': int)
    requires i' != i
    ensures Lookup(Upsert(l, i, v), i') == Lookup(l, i')
  {
    var u := Upsert(l, i, v);
    if Has(l, i') {
      var k := FirstAt(l, i');
      forall m | 0 <= m <= k
        ensures u[m].x == l[m].x && (u[m].x == i' ==> u[m] == l[m])
      {
      }
      LookupFirst(l, i', k);
      LookupFirst(u, i', k);
    } else {
      assert !Has(u, i') by {
        if Has(l, i) {
          var k := FirstAt(l, i);
          forall m | 0 <= m < |u|
            ensures u[m].x != i'
          {
            if m != k {
              assert u[m] == l[m];
            }
          }
        } else {
          forall m | 0 <= m < |u|
            ensures u[m].x != i'
          {
            if m < |l| {
              assert u[m] == l[m];
            }
          }
        }
      }
      LookupAbsent(l, i');
      LookupAbsent(u, i');
    }
  }

  /** In a list without repeated keys, the lookup of a node's key is that node's value. */
  lemma LookupAt(l: seq<Entry>, k: int)
    requires Distinct(l) && 0 <= k < |l|
    ensures Lookup(l, l[k].x) == l[k].val
  {
    LookupFirst(l, l[k].x, k);
  }

  /** Lookup in a list extended at the tail: the new node is seen only when the key was
      absent before. */
  lemma LookupSnoc(p: seq<Entry>, e: Entry, i: int)
    ensures Lookup(p + [e], i) == if Has(p, i) || e.x != i then Lookup(p, i) else e.val
  {
    var l := p + [e];
    if Has(p, i) {
      var k := FirstAt(p, i);
      assert l[k] == p[k];
      LookupFirst(p, i, k);
      LookupFirst(l, i, k);
    } else {
      LookupAbsent(p, i);
      forall m | 0 <= m < |p|
        ensures l[m].x != i
      {
        assert l[m] == p[m];
      }
      if e.x == i {
        LookupFirst(l, i, |p|);
      } else {
        assert !Has(l, i) by {
          forall m | 0 <= m < |l|
            ensures l[m].x != i
          {
            if m < |p| {
              assert l[m] == p[m];
            }
          }
        }
        LookupAbsent(l, i);
      }
    }
  }

  /** PSet and SSet keep every list well keyed. */
  lemma UpsertWellKeyed(t: nat, l: seq<Entry>, i: int, v: real)
    requires WellKeyed(t, l) && InSpace(t, i)
    ensures WellKeyed(t, Upsert(l, i, v))
  {
    var u := Upsert(l, i, v);
    if Has(l, i) {
      var k := FirstAt(l, i);
      forall m | 0 <= m < |l|
        ensures u[m].x == l[m].x
      {
      }
    } else {
      forall a, b | 0 <= a < b < |u|
        ensures u[a].x != u[b].x
      {
        assert u[a] == l[a];
        if b < |l| {
          assert u[b] == l[b];
        } else {
          assert l[a].x != i;
        }
      }
    }
  }

  /** One table: `lists[j]` is the list whose head is H + j. */
  class Table {
    const t: nat
    var lists: seq<seq<Entry>>

    ghost predicate Valid()
      reads this
    {
      |lists| == Z(t) + 1 && forall j :: 0 <= j < |lists| ==> WellKeyed(t, lists[j])
    }

    /** AllocArray(H, N): N zeroed head nodes. */
    constructor(t: nat)
      ensures Valid() && this.t == t
      ensures forall j :: 0 <= j < |lists| ==> lists[j] == [Entry(0, 0.0)]
    {
      this.t := t;
      lists := seq(2 * t + 2, _ => [Entry(0, 0.0)]);
    }

    /** PVal(H, i, j): the value keyed i in the list of column j; no index rewriting. */
    function PVal(i: int, j: int): real
      reads this
      requires Valid() && 0 <= j < |lists|
    {
      Lookup(lists[j], i)
    }

    /** SVal(H, i, j): the value keyed j in the list of row i. */
    function SVal(i: int, j: int): real
      reads this
      requires Valid() && 0 <= i < |lists|
    {
      Lookup(lists[i], j)
    }

    /** The walk of PSet and SSet: the list `l`, searched for key `key`, is overwritten
        at the first match or extended by one node. */
    static method Put(l: seq<Entry>, key: int, value: real) returns (r: seq<Entry>)
      ensures r == Upsert(l, key, value)
    {
      var k := 0;
      while k < |l| && l[k].x != key
        invariant 0 <= k <= |l|
        invariant forall m :: 0 <= m < k ==> l[m].x != key
      {
        k := k + 1;
      }
      if k == |l| {
        r := l + [Entry(key, value)];
      } else {
        assert Has(l, key);
        r := l[k := Entry(key, value)];
      }
    }

    /** PSet: rewrites the indices as Set does, then sets key Canon(i) in the list of
        column Col(j). */
    method PSet(i: int, j: int, value: real)
      requires Valid() && Signed(t, i) && Signed(t, j)
      modifies this
      ensures Valid()
      ensures lists == old(lists)[Col(t, j) := Upsert(old(lists)[Col(t, j)], Canon(t, i), value)]
    {
      CanonInSpace(t, i);
      CanonInSpace(t, j);
      var ci := if i < 0 then Map(t, -i) else i;
      var cj := if j < 0 then Map(t, -j) else j;
      if cj == 0 {
        cj := Z(t);
      }
      var l := Put(lists[cj], ci, value);
      UpsertWellKeyed(t, lists[cj], ci, value);
      lists := lists[cj := l];
    }

    /** SSet: rewrites the indices as Set does, then sets key Col(j) in the list of
        row Canon(i). */
    method SSet(i: int, j: int, value: real)
      requires Valid() && Signed(t, i) && Signed(t, j)
      modifies this
      ensures Valid()
      ensures lists == old(lists)[Canon(t, i) := Upsert(old(lists)[Canon(t, i)], Col(t, j), value)]
    {
      CanonInSpace(t, i);
      CanonInSpace(t, j);
      var ci := if i < 0 then Map(t, -i) else i;
      var cj := if j < 0 then Map(t, -j) else j;
      if cj == 0 {
        cj := Z(t);
      }
      var l := Put(lists[ci], cj, value);
      UpsertWellKeyed(t, lists[ci], cj, value);
      lists := lists[ci := l];
    }
  }

  /** A PVal after PSet reads back the value written at the rewritten cell, and every
      other cell is unchanged. */
  lemma PValAfterPSet(before: seq<seq<Entry>>, t: nat, i: int, j: int, value: real, r: int, c: int)
    requires |before| == Z(t) + 1 && Signed(t, i) && Signed(t, j) && 0 <= c < |before|
    ensures
      var (ci, cj) := Target(t, i, j);
      Lookup(before[cj := Upsert(before[cj], ci, value)][c], r)
        == if (r, c) == (ci, cj) then value else Lookup(before[c], r)
  {
    CanonInSpace(t, i);
    CanonInSpace(t, j);
    var (ci, cj) := Target(t, i, j);
    if c == cj {
      if r == ci {
        LookupUpsertSame(before[cj], ci, value);
      } else {
        LookupUpsertOther(before[cj], ci, value, r);
      }
    }
  }

  // ---------------------------------------------------------------------------
  // getPredecessor and getSuccessor

  /** getPredecessor: for every column j in 1..Z-1 and row i in 0..Z-1 whose cell is
      set in DPPI, PLH(i, j) becomes the likelihood `pre(i, j)`; every other entry keeps
      its value. */
  method GetPredecessor(plh: Table, dppi: BitMatrix, pre: (int, int) -> real)
    requires plh.Valid() && dppi.Valid() && dppi.t == plh.t
    modifies plh
    ensures plh.Valid()
    ensures forall c, r :: 0 <= c < |plh.lists| ==>
      Lookup(plh.lists[c], r)
        == if 0 <= r < Z(plh.t) && 1 <= c < Z(plh.t) && (r, c) in dppi.cells then pre(r, c)
           else Lookup(old(plh.lists)[c], r)
  {
    ghost var before := plh.lists;
    var j := 1;
    while j < Z(plh.t)
      invariant 1 <= j <= Z(plh.t)
      invariant plh.Valid() && |plh.lists| == |before|
      invariant forall c, r :: 0 <= c < |plh.lists| ==>
        Lookup(plh.lists[c], r)
          == if 0 <= r < Z(plh.t) && 1 <= c < j && (r, c) in dppi.cells then pre(r, c)
             else Lookup(before[c], r)
    {
      var i := 0;
      while i < Z(plh.t)
        invariant 0 <= i <= Z(plh.t)
        invariant plh.Valid() && |plh.lists| == |before|
        invariant forall c, r :: 0 <= c < |plh.lists| ==>
          Lookup(plh.lists[c], r)
            == if 0 <= r < Z(plh.t) && (1 <= c < j || (c == j && r < i)) && (r, c) in dppi.cells
               then pre(r, c)
               else Lookup(before[c], r)
      {
        if dppi.Val(i, j) == 1 {
          ghost var mid := plh.lists;
          plh.PSet(i, j, pre(i, j));
          forall c, r | 0 <= c < |plh.lists|
            ensures Lookup(plh.lists[c], r) == if (r, c) == (i, j) then pre(i, j) else Lookup(mid[c], r)
          {
            if c == j {
              if r == i {
                LookupUpsertSame(mid[j], i, pre(i, j));
              } else {
                LookupUpsertOther(mid[j], i, pre(i, j), r);
              }
            }
          }
        }
        i := i + 1;
      }
      j := j + 1;
    }
  }

  /** The value a row of SLH holds at column c after getSuccessor has walked the nodes
      of `l` (the PLH list of one column) in order, starting from `base`: the last node
      with a positive value whose key maps to column c wins. */
  function LastWrite(t: nat, l: seq<Entry>, c: int, base: real): real
  {
    if |l| == 0 then base
    else
      var e := l[|l| - 1];
      if e.val > 0.0 && Col(t, Map(t, e.x)) == c then e.val else LastWrite(t, l[..|l| - 1], c, base)
  }

  /** The SLH entry (r, c) after getSuccessor, from PLH's lists and SLH's entry before:
      column Z of row r first takes PLH(A, map(r)) when positive (the first loop), then
      rows 1..Z-1 take the positive nodes of PLH column map(r), transposed. */
  ghost function Successor(t: nat, plh: seq<seq<Entry>>, r: int, c: int, before: real): real
    requires |plh| == Z(t) + 1 && InSpace(t, r)
  {
    MapInvolution(t, r);
    var head := if c == Z(t) && Lookup(plh[Map(t, r)], 0) > 0.0 then Lookup(plh[Map(t, r)], 0) else before;
    if 1 <= r < Z(t) then LastWrite(t, plh[Map(t, r)], c, head) else head
  }

  /** getSuccessor: SLH is rebuilt as the transpose of PLH through `map` on both
      indices; every entry not written keeps its value. */
  method GetSuccessor(plh: Table, slh: Table)
    requires plh.Valid() && slh.Valid() && slh.t == plh.t && plh != slh
    modifies slh
    ensures slh.Valid()
    ensures forall r, c :: 0 <= r < |slh.lists| ==>
      Lookup(slh.lists[r], c) == Successor(plh.t, plh.lists, r, c, Lookup(old(slh.lists)[r], c))
  {
    var t := plh.t;
    ghost var before := slh.lists;
    var j := 0;
    while j <= Z(t)
      invariant 0 <= j <= Z(t) + 1
      invariant slh.Valid() && |slh.lists| == |before|
      invariant forall r, c :: 0 <= r < |slh.lists| ==>
        Lookup(slh.lists[r], c)
          == if r < j && c == Z(t) && Lookup(plh.lists[Map(t, r)], 0) > 0.0 then Lookup(plh.lists[Map(t, r)], 0)
             else Lookup(before[r], c)
    {
      MapInvolution(t, j);
      var v := plh.PVal(0, Map(t, j));
      if v > 0.0 {
        ghost var mid := slh.lists;
        slh.SSet(j, Z(t), v);
        forall r, c | 0 <= r < |slh.lists|
          ensures Lookup(slh.lists[r], c) == if (r, c) == (j, Z(t)) then v else Lookup(mid[r], c)
        {
          if r == j {
            if c == Z(t) {
              LookupUpsertSame(mid[j], Z(t), v);
            } else {
              LookupUpsertOther(mid[j], Z(t), v, c);
            }
          }
        }
      }
      j := j + 1;
    }
    ghost var first := slh.lists;
    var i := 1;
    while i < Z(t)
      invariant 1 <= i <= Z(t)
      invariant slh.Valid() && |slh.lists| == |before|
      invariant forall r, c :: 0 <= r < |slh.lists| ==>
        Lookup(slh.lists[r], c)
          == if 1 <= r < Z(t) && 1 <= Map(t, r) < i then LastWrite(t, plh.lists[Map(t, r)], c, Lookup(first[r], c))
             else Lookup(first[r], c)
    {
      MapInvolution(t, i);
      ghost var mid := slh.lists;
      SuccessorRow(plh, slh, i);
      forall r, c | 0 <= r < |slh.lists|
        ensures Lookup(slh.lists[r], c)
          == if 1 <= r < Z(t) && 1 <= Map(t, r) < i + 1 then LastWrite(t, plh.lists[Map(t, r)], c, Lookup(first[r], c))
             else Lookup(first[r], c)
      {
        MapInvolution(t, r);
      }
      i := i + 1;
    }
    forall r, c | 0 <= r < |slh.lists|
      ensures Lookup(slh.lists[r], c) == Successor(t, plh.lists, r, c, Lookup(before[r], c))
    {
      MapInvolution(t, r);
    }
  }

  /** One pass of getSuccessor's second loop: the positive nodes of PLH column i are
      written, transposed, into SLH row map(i), in list order. */
  method SuccessorRow(plh: Table, slh: Table, i: int)
    requires plh.Valid() && slh.Valid() && slh.t == plh.t && plh != slh && 1 <= i < Z(plh.t)
    modifies slh
    ensures slh.Valid() && |slh.lists| == |old(slh.lists)|
    ensures forall r, c :: 0 <= r < |slh.lists| ==>
      Lookup(slh.lists[r], c)
        == if r == Map(plh.t, i) then LastWrite(plh.t, plh.lists[i], c, Lookup(old(slh.lists)[r], c))
           else Lookup(old(slh.lists)[r], c)
  {
    var t := plh.t;
    ghost var first := slh.lists;
    MapInvolution(t, i);
    var l := plh.lists[i];
    var row := Map(t, i);
    var k := 0;
    while k < |l|
      invariant 0 <= k <= |l|
      invariant slh.Valid() && |slh.lists| == |first|
      invariant forall r, c :: 0 <= r < |slh.lists| ==>
        Lookup(slh.lists[r], c)
          == if r == row then LastWrite(t, l[..k], c, Lookup(first[r], c)) else Lookup(first[r], c)
    {
      var e := l[k];
      assert l[..k + 1][..k] == l[..k];
      if e.val > 0.0 {
        MapInvolution(t, e.x);
        ghost var mid := slh.lists;
        slh.SSet(row, Map(t, e.x), e.val);
        var col := Col(t, Map(t, e.x));
        forall r, c | 0 <= r < |slh.lists|
          ensures Lookup(slh.lists[r], c) == if (r, c) == (row, col) then e.val else Lookup(mid[r], c)
        {
          if r == row {
            if c == col {
              LookupUpsertSame(mid[row], col, e.val);
            } else {
              LookupUpsertOther(mid[row], col, e.val, c);
            }
          }
        }
      }
      k := k + 1;
    }
    assert l[..|l|] == l;
  }

  /** A node's column after getSuccessor's `map` rewriting is Z exactly for keys A and
      Z, and is otherwise map of the key. */
  lemma ColOfMap(t: nat, x: int, c: int)
    requires InSpace(t, x) && 1 <= c <= Z(t)
    ensures c < Z(t) ==> (Col(t, Map(t, x)) == c <==> x == Map(t, c))
    ensures Col(t, Map(t, x)) == Z(t) <==> x == 0 || x == Z(t)
  {
    MapInvolution(t, x);
    MapInvolution(t, c);
  }

  /** The last write in a list without repeated keys is that of the one node whose key
      maps to the column: for a column c in 1..Z-1 it is the node keyed map(c); for
      column Z the node keyed Z, when positive, overrides the head node keyed A. */
  lemma {:induction false} LastWriteLookup(t: nat, l: seq<Entry>, c: int, base: real)
    requires WellKeyed(t, l) && 1 <= c <= Z(t)
    ensures c < Z(t) ==>
      LastWrite(t, l, c, base) == if Lookup(l, Map(t, c)) > 0.0 then Lookup(l, Map(t, c)) else base
    ensures c == Z(t) ==>
      LastWrite(t, l, c, base)
        == if Lookup(l, Z(t)) > 0.0 then Lookup(l, Z(t)) else if Lookup(l, 0) > 0.0 then Lookup(l, 0) else base
  {
    var n := |l|;
    var p, e := l[..n - 1], l[n - 1];
    assert l == p + [e];
    var key := if c < Z(t) then Map(t, c) else Z(t);
    ColOfMap(t, e.x, c);
    if n == 1 {
      assert e.x == 0;
      LookupSnoc(p, e, key);
      LookupSnoc(p, e, 0);
      assert !Has(p, key) && !Has(p, 0);
      LookupAbsent(p, key);
      LookupAbsent(p, 0);
    } else {
      assert WellKeyed(t, p) by {
        assert p[0] == l[0];
        forall a, b | 0 <= a < b < |p|
          ensures p[a].x != p[b].x
        {
          assert p[a] == l[a] && p[b] == l[b];
        }
      }
      LastWriteLookup(t, p, c, base);
      assert e.x != 0 by {
        assert l[0].x == 0;
      }
      assert !Has(p, e.x) by {
        forall m | 0 <= m < |p|
          ensures p[m].x != e.x
        {
          assert p[m] == l[m];
        }
      }
      LookupSnoc(p, e, key);
      LookupSnoc(p, e, 0);
      if e.x == key {
        LookupAbsent(p, key);
      }
    }
  }

  /** getSuccessor transposes PLH through `map`: for rows and columns strictly between
      A and Z, SLH(r, c) becomes PLH(map(c), map(r)) when that is positive and is
      otherwise left alone; in column Z a positive PLH(Z, map(r)) overrides the value
      copied from PLH(A, map(r)). */
  lemma SuccessorTransposes(t: nat, plh: seq<seq<Entry>>, r: int, c: int, before: real)
    requires |plh| == Z(t) + 1 && forall j :: 0 <= j < |plh| ==> WellKeyed(t, plh[j])
    requires 1 <= r < Z(t) && 1 <= c <= Z(t)
    ensures c < Z(t) ==>
      Successor(t, plh, r, c, before)
        == if Lookup(plh[Map(t, r)], Map(t, c)) > 0.0 then Lookup(plh[Map(t, r)], Map(t, c)) else before
    ensures c == Z(t) ==>
      Successor(t, plh, r, c, before)
        == var l := plh[Map(t, r)];
           if Lookup(l, Z(t)) > 0.0 then Lookup(l, Z(t)) else if Lookup(l, 0) > 0.0 then Lookup(l, 0) else before
  {
    MapInvolution(t, r);
    var l := plh[Map(t, r)];
    var head := if c == Z(t) && Lookup(l, 0) > 0.0 then Lookup(l, 0) else before;
    LastWriteLookup(t, l, c, head);
  }
}
