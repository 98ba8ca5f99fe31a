/** The caches of inferAdjProb (code/inferAdjProb.c): getLP memoises prob and getLL
    memoises preLikelihood, both keyed by (tree node, i, j).  The computed values are
    floating point and stay uninterpreted: a cache is given the function it memoises. */
module Memo {

  /** A hash cache key: the tree node (as its arena index) and the two indices. */
  datatype Key = Key(node: int, i: int, j: int)

  class Cache {
    /** The memoised computation (prob for lp_cache, preLikelihood for ll_cache). */
    const compute: Key -> real
    /** The entries added so far (HASH_ADD); an entry is never replaced. */
    var entries: map<Key, real>

    /** Every cached value is the value the computation gives for its key. */
    ghost predicate Valid()
      reads this
    {
      forall k :: k in entries ==> entries[k] == compute(k)
    }

    /** The cache starts empty (lp_cache = ll_cache = NULL). */
    constructor(compute: Key -> real)
      ensures Valid() && this.compute == compute && entries == map[]
    {
      this.compute := compute;
      entries := map[];
    }

    /** getLP / getLL: HASH_FIND, and on a miss compute the value and HASH_ADD it.  The
        result is always the computed value, so the cache is invisible to callers; an
        existing entry is left as it is. */
    method Get(node: int, i: int, j: int) returns (v: real)
      requires Valid()
      modifies this
      ensures Valid()
      ensures v == compute(Key(node, i, j))
      ensures entries == old(entries)[Key(node, i, j) := v]
      ensures Key(node, i, j) in old(entries) ==> entries == old(entries)
    {
      var key := Key(node, i, j);
      if key in entries {
        v := entries[key];
      } else {
        v := compute(key);
        entries := entries[key := v];
      }
    }
  }
}
