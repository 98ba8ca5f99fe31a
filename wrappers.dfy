/** Option and Result, shared by every module of the model.
    `Fatal` stands for the source's abort paths (fatal/fatalf/errAbort). */
module Wrappers {
  datatype Option<T> = None | Some(value: T)

  datatype Result<T> = Ok(value: T) | Fatal(msg: string)

  /** The lines o printed before a run whose own output is r: an abort stays an abort. */
  function Prefixed<T>(o: seq<T>, r: Result<seq<T>>): (r': Result<seq<T>>)
    ensures r'.Ok? <==> r.Ok?
  {
    match r
    case Fatal(m) => Fatal(m)
    case Ok(rest) => Ok(o + rest)
  }

  lemma PrefixedNothing<T>(r: Result<seq<T>>)
    ensures Prefixed([], r) == r
  {
    if r.Ok? {
      assert [] + r.value == r.value;
    }
  }

  lemma PrefixedPrefixed<T>(a: seq<T>, b: seq<T>, r: Result<seq<T>>)
    ensures Prefixed(a, Prefixed(b, r)) == Prefixed(a + b, r)
  {
    if r.Ok? {
      assert a + (b + r.value) == (a + b) + r.value;
    }
  }
}
