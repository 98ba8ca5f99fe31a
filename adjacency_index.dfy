/** The adjacency index space of inferAdjProb (code/inferAdjProb.c) and the bit-packed
    compatibility matrices built over it.

    With T blocks, a signed block id e (1 <= |e| <= T) names a block end: the head of
    block e is index e and its tail is index e + T.  Index A = 0 is the left chromosome
    end and Z = 2T + 1 the right one, so an adjacency is a cell (i, j) of an N x N
    matrix with N = 2T + 2. */
module AdjacencyIndex {

  function Z(t: nat): nat
  {
    2 * t + 1
  }

  /** map: the opposite end of the same block; A and Z swap. */
  function Map(t: nat, i: int): int
  {
    if i == 0 then Z(t)
    else if i == Z(t) then 0
    else if i <= t then i + t
    else i - t
  }

  /** pam: decodes an index back to a signed block id; Z decodes to A = 0. */
  function Pam(t: nat, i: int): int
  {
    if i == Z(t) then 0
    else if i <= t then i
    else -(i - t)
  }

  predicate InSpace(t: nat, i: int)
  {
    0 <= i <= Z(t)
  }

  lemma MapInvolution(t: nat, i: int)
    requires InSpace(t, i)
    ensures InSpace(t, Map(t, i)) && Map(t, Map(t, i)) == i
    ensures Map(t, i) != i
  {
  }

  lemma PamOfMap(t: nat, i: int)
    requires 1 <= i <= 2 * t
    ensures Pam(t, Map(t, i)) == -Pam(t, i)
  {
  }

  /** The rewriting of a (possibly negative) row index done by Set, PSet and SSet:
      the index of -e is map(e). */
  function Canon(t: nat, i: int): int
  {
    if i < 0 then Map(t, -i) else i
  }

  /** The column rewriting: as Canon, and a column A becomes Z. */
  function Col(t: nat, j: int): int
  {
    var c := Canon(t, j);
    if c == 0 then Z(t) else c
  }

  /** The cell that Set(i, j, _) writes. */
  function Target(t: nat, i: int, j: int): (int, int)
  {
    (Canon(t, i), Col(t, j))
  }

  /** The values Set accepts for an index: a signed value whose magnitude is an index. */
  predicate Signed(t: nat, i: int)
  {
    -(Z(t) as int) <= i <= Z(t)
  }

  lemma CanonInSpace(t: nat, i: int)
    requires Signed(t, i)
    ensures InSpace(t, Canon(t, i)) && InSpace(t, Col(t, i)) && Col(t, i) != 0
  {
  }

  /** Block ids are encoded by Canon and decoded by pam, and the reverse end of -e is
      the map of the end of e. */
  lemma CanonOfBlock(t: nat, e: int)
    requires 1 <= e <= t || -(t as int) <= e <= -1
    ensures 1 <= Canon(t, e) <= 2 * t
    ensures Pam(t, Canon(t, e)) == e
    ensures Canon(t, -e) == Map(t, Canon(t, e))
  {
  }

  // ---------------------------------------------------------------------------
  // Bit access inside one byte

  function Bit(x: bv8, b: bv8): bv8
    requires b < 8
  {
    (x >> b) & 1
  }

  lemma SetBit(x: bv8, b: bv8, c: bv8)
    requires b < 8 && c < 8
    ensures Bit(x | (1 << b), c) == if b == c then 1 else Bit(x, c)
    ensures Bit(x & (0xFF - (1 << b)), c) == if b == c then 0 else Bit(x, c)
  {
  }

  /** The bit number k < 8 as a shift amount. */
  function Low(k: int): (r: bv8)
    requires 0 <= k < 8
    ensures r < 8
  {
    if k == 0 then 0 else if k == 1 then 1 else if k == 2 then 2 else if k == 3 then 3
    else if k == 4 then 4 else if k == 5 then 5 else if k == 6 then 6 else 7
  }

  lemma LowInjective(a: int, b: int)
    requires 0 <= a < 8 && 0 <= b < 8
    ensures Low(a) == Low(b) <==> a == b
  {
  }

  /** a * b, as a recursive function: kept as an uninterpreted product in the contexts
      that mention matrix sizes and positions, and related to `*` by MulIs. */
  function Mul(a: nat, b: nat): nat
  {
    if a == 0 then 0 else b + Mul(a - 1, b)
  }

  lemma {:induction false} MulIs(a: nat, b: nat)
    ensures Mul(a, b) == a * b
  {
    if a > 0 {
      MulIs(a - 1, b);
    }
  }

  /** Position (i, j) comes before row k when i < k. */
  lemma {:induction false} RowsBefore(n: nat, i: nat, j: nat, k: nat)
    requires i < k && j < n
    ensures Mul(i, n) + j < Mul(k, n)
    decreases k
  {
    if i + 1 < k {
      RowsBefore(n, i, j, k - 1);
    }
  }

  lemma PosInRange(n: nat, i: nat, j: nat)
    requires i < n && j < n
    ensures Mul(i, n) + j < Mul(n, n)
  {
    RowsBefore(n, i, j, n);
  }

  lemma ByteCount(n: nat, len: int)
    requires len == Mul(n, n) / 8 + 1
    ensures Mul(n, n) <= 8 * len
  {
  }

  lemma PosInjective(n: nat, i: nat, j: nat, i': nat, j': nat)
    requires i < n && j < n && i' < n && j' < n
    requires (i, j) != (i', j')
    ensures Mul(i, n) + j != Mul(i', n) + j'
  {
    if i < i' {
      RowsBefore(n, i, j, i');
    } else if i' < i {
      RowsBefore(n, i', j', i);
    }
  }

  /** Bit p of a byte sequence: bit p % 8 of byte p / 8. */
  function BitAt(s: seq<bv8>, p: int): bv8
    requires 0 <= p < 8 * |s|
  {
    Bit(s[p / 8], Low(p % 8))
  }

  /** The byte after writing bit b of x: or-ing the mask for 1, and-ing its complement
      otherwise. */
  function NewByte(x: bv8, b: bv8, value: bv8): bv8
    requires b < 8
  {
    if value == 1 then x | (1 << b) else x & (0xFF - (1 << b))
  }

  /** Set's read-modify-write of the byte holding bit p. */
  function WriteBit(s: seq<bv8>, p: int, value: bv8): (r: seq<bv8>)
    requires 0 <= p < 8 * |s|
    ensures |r| == |s|
  {
    s[p / 8 := NewByte(s[p / 8], Low(p % 8), value)]
  }

  lemma WriteBitEffect(s: seq<bv8>, p: int, q: int, value: bv8)
    requires 0 <= p < 8 * |s| && 0 <= q < 8 * |s|
    ensures BitAt(WriteBit(s, p, value), q)
         == if p == q then (if value == 1 then 1 else 0) else BitAt(s, q)
  {
    var w := WriteBit(s, p, value);
    var x, b, c := s[p / 8], Low(p % 8), Low(q % 8);
    if q / 8 != p / 8 {
      assert w[q / 8] == s[q / 8];
    } else {
      assert p == q <==> p % 8 == q % 8;
      LowInjective(p % 8, q % 8);
      SetBit(x, b, c);
      assert w[q / 8] == NewByte(x, b, value);
    }
  }

  /** The bit of cell (i, j) in a row-major packed matrix of side n (0 outside the
      bytes). */
  function CellBit(s: seq<bv8>, n: nat, i: int, j: int): (v: bv8)
    ensures v == 0 || v == 1
  {
    if i < 0 || j < 0 then 0
    else
      var pos := Mul(i, n) + j;
      if pos < 8 * |s| then BitAt(s, pos) else 0
  }

  lemma WriteCellEffect(s: seq<bv8>, n: nat, i: int, j: int, pos: int, value: bv8, r: int, c: int)
    requires 0 <= i < n && 0 <= j < n && 0 <= r < n && 0 <= c < n && Mul(n, n) <= 8 * |s|
    requires pos == Mul(i, n) + j && pos < 8 * |s|
    ensures CellBit(WriteBit(s, pos, value), n, r, c)
         == if (r, c) == (i, j) then (if value == 1 then 1 else 0) else CellBit(s, n, r, c)
  {
    PosInRange(n, r, c);
    if (r, c) != (i, j) {
      PosInjective(n, r, c, i, j);
    }
    WriteBitEffect(s, pos, Mul(r, n) + c, value);
  }

  /** A square bit matrix over the index space, stored N*N/8 + 1 bytes long with
      cell (i, j) at bit (i*N + j) % 8 of byte (i*N + j) / 8. */
  class BitMatrix {
    const t: nat
    const n: nat
    const bytes: array<bv8>
    /** The cells whose bit is 1. */
    ghost var cells: set<(int, int)>

    /** The dimensions AllocArray gives the array; they never change. */
    ghost predicate Shape()
    {
      n == Z(t) + 1 && bytes.Length == Mul(n, n) / 8 + 1
    }

    ghost predicate Valid()
      reads this, bytes
    {
      Shape() &&
      forall i, j {:trigger CellBit(bytes[..], n, i, j)} :: 0 <= i < n && 0 <= j < n ==>
        ((i, j) in cells <==> CellBit(bytes[..], n, i, j) == 1)
    }

    /** AllocArray: every bit starts cleared. */
    constructor(t: nat)
      ensures Valid() && this.t == t && fresh(bytes) && cells == {}
    {
      this.t := t;
      n := 2 * t + 2;
      bytes := new bv8[(2 * t + 2) * (2 * t + 2) / 8 + 1](_ => 0);
      cells := {};
      new;
      MulIs(n, n);
      forall i, j | 0 <= i < n && 0 <= j < n
        ensures CellBit(bytes[..], n, i, j) == 0
      {
        PosInRange(n, i, j);
        var pos := Mul(i, n) + j;
        assert bytes[..][pos / 8] == 0;
      }
    }

    /** Val: the bit of cell (i, j); no index rewriting. */
    function Val(i: int, j: int): (v: bv8)
      reads this, bytes
      requires Valid() && 0 <= i < n && 0 <= j < n
      ensures v == 1 <==> (i, j) in cells
      ensures v == 0 || v == 1
    {
      CellBit(bytes[..], n, i, j)
    }

    /** Set: rewrites the indices, then writes bit `value == 1` at the one cell they
        name; no other cell changes. */
    method Set(i: int, j: int, value: bv8)
      requires Valid() && Signed(t, i) && Signed(t, j)
      modifies this, bytes
      ensures Valid()
      ensures cells == if value == 1 then old(cells) + {Target(t, i, j)} else old(cells) - {Target(t, i, j)}
    {
      CanonInSpace(t, i);
      CanonInSpace(t, j);
      var ci, cj := Canon(t, i), Col(t, j);
      PosInRange(n, ci, cj);
      var pos := ci * n + cj;
      MulIs(ci, n);
      var a, b := pos / 8, Low(pos % 8);
      ghost var before := bytes[..];
      ByteCount(n, bytes.Length);
      bytes[a] := NewByte(bytes[a], b, value);
      assert bytes[..] == WriteBit(before, pos, value);
      assert Target(t, i, j) == (ci, cj);
      cells := if value == 1 then cells + {(ci, cj)} else cells - {(ci, cj)};
      forall r, c | 0 <= r < n && 0 <= c < n
        ensures CellBit(bytes[..], n, r, c)
          == if (r, c) == (ci, cj) then (if value == 1 then 1 else 0) else CellBit(before, n, r, c)
      {
        WriteCellEffect(before, n, ci, cj, pos, value, r, c);
      }
    }
  }
}
