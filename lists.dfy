/** Sequences as the makeBlocks programs' linked lists: unlinking the elements that fail
    a test is filtering, and what remains of a list after some unlinking is a sublist. */
module Lists {
  import opened Wrappers

  /** The index of the first element of s that passes p, as the search loops of the
      makeBlocks programs find it. */
  function Find<T>(s: seq<T>, p: T -> bool): (r: Option<nat>)
    ensures r.Some? ==> r.value < |s| && p(s[r.value]) && forall k :: 0 <= k < r.value ==> !p(s[k])
    ensures r.None? ==> forall k :: 0 <= k < |s| ==> !p(s[k])
  {
    if s == [] then None
    else if p(s[0]) then Some(0)
    else match Find(s[1..], p)
      case None => None
      case Some(k) => Some(k + 1)
  }

  /** Lines read into one array as the order readers store them: a separator first
      and after each line. */
  function Separated<T>(lines: seq<seq<T>>, sep: T): (r: seq<T>)
    ensures |r| >= 1 && r[0] == sep && r[|r| - 1] == sep
  {
    if lines == [] then [sep]
    else Separated(lines[..|lines| - 1], sep) + lines[|lines| - 1] + [sep]
  }

  // ---------------------------------------------------------------------------
  // Filtering, the value of a loop that unlinks the elements failing a test

  /** The elements of s that keep, in order. */
  ghost function Filter<T>(s: seq<T>, keep: T -> bool): (r: seq<T>)
    ensures |r| <= |s|
  {
    if s == [] then []
    else Filter(s[..|s| - 1], keep) + (if keep(s[|s| - 1]) then [s[|s| - 1]] else [])
  }

  /** Filtering keeps exactly the elements that pass, and keeps them all when all
      pass. */
  lemma {:induction false} FilterSpec<T>(s: seq<T>, keep: T -> bool)
    ensures forall x :: x in Filter(s, keep) <==> x in s && keep(x)
    ensures |Filter(s, keep)| == |s| <==> forall k :: 0 <= k < |s| ==> keep(s[k])
    ensures (forall k :: 0 <= k < |s| ==> keep(s[k])) ==> Filter(s, keep) == s
  {
    if s != [] {
      var init := s[..|s| - 1];
      FilterSpec(init, keep);
      assert s == init + [s[|s| - 1]];
      assert forall k :: 0 <= k < |init| ==> init[k] == s[k];
      if !keep(s[|s| - 1]) {
        assert |Filter(s, keep)| < |s|;
      }
    }
  }

  /** Filtering twice by the same test filters once. */
  lemma {:induction false} FilterIdempotent<T>(s: seq<T>, keep: T -> bool)
    ensures Filter(Filter(s, keep), keep) == Filter(s, keep)
  {
    if s != [] {
      var init := s[..|s| - 1];
      FilterIdempotent(init, keep);
      var f := Filter(s, keep);
      if keep(s[|s| - 1]) {
        assert f[..|f| - 1] == Filter(init, keep);
        assert Filter(f, keep) == Filter(f[..|f| - 1], keep) + [s[|s| - 1]];
      } else {
        assert f == Filter(init, keep);
      }
    }
  }


  // ---------------------------------------------------------------------------
  // Sublists

  /** a is what remains of b after some of its elements were unlinked. */
  ghost predicate Sublist<T>(a: seq<T>, b: seq<T>)
    decreases |b|
  {
    if a == [] then true
    else if b == [] then false
    else (a[|a| - 1] == b[|b| - 1] && Sublist(a[..|a| - 1], b[..|b| - 1])) || Sublist(a, b[..|b| - 1])
  }

  /** What remains is no longer than the list and holds nothing new. */
  lemma {:induction false} SublistSpec<T>(a: seq<T>, b: seq<T>)
    requires Sublist(a, b)
    ensures |a| <= |b|
    ensures forall x :: x in a ==> x in b
    decreases |b|
  {
    if a != [] {
      assert b != [];
      var b' := b[..|b| - 1];
      assert b == b' + [b[|b| - 1]];
      if a[|a| - 1] == b[|b| - 1] && Sublist(a[..|a| - 1], b') {
        SublistSpec(a[..|a| - 1], b');
        assert a == a[..|a| - 1] + [a[|a| - 1]];
      } else {
        SublistSpec(a, b');
      }
    }
  }

  /** Unlinking nothing. */
  lemma {:induction false} SublistRefl<T>(a: seq<T>)
    ensures Sublist(a, a)
    decreases |a|
  {
    if a != [] {
      SublistRefl(a[..|a| - 1]);
    }
  }

  /** Unlinking twice unlinks once. */
  lemma {:induction false} SublistTrans<T>(a: seq<T>, b: seq<T>, c: seq<T>)
    requires Sublist(a, b) && Sublist(b, c)
    ensures Sublist(a, c)
    decreases |c|
  {
    if a != [] {
      var a', b', c' := a[..|a| - 1], b[..|b| - 1], c[..|c| - 1];
      if b[|b| - 1] == c[|c| - 1] && Sublist(b', c') {
        if a[|a| - 1] == b[|b| - 1] && Sublist(a', b') {
          SublistTrans(a', b', c');
        } else {
          SublistTrans(a, b', c');
        }
      } else {
        SublistTrans(a, b, c');
      }
    }
  }
}
