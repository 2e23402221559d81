/** Small datatypes shared by every module of the project. */
module Common {
  /** A value that may be absent: Python's `None`, or a missing dictionary key. */
  datatype Option<+T> = None | Some(value: T)

  /** The outcome of a call that either completes or raises. */
  datatype Result<+T, +E> = Ok(value: T) | Err(error: E)

  function Min(a: int, b: int): int {
    if a <= b then a else b
  }

  function Last<T>(s: seq<T>): T
    requires s != []
  {
    s[|s| - 1]
  }

  function Front<T>(s: seq<T>): seq<T>
    requires s != []
  {
    s[..|s| - 1]
  }

  /** The sequences one after the other. */
  function Flatten<T>(xs: seq<seq<T>>): seq<T> {
    if xs == [] then [] else Flatten(Front(xs)) + Last(xs)
  }

  lemma {:induction false} FlattenCons<T>(x: seq<T>, xs: seq<seq<T>>)
    ensures Flatten([x] + xs) == x + Flatten(xs)
  {
    if xs == [] {
      assert Front([x] + xs) == [];
    } else {
      assert Front([x] + xs) == [x] + Front(xs) && Last([x] + xs) == Last(xs);
      FlattenCons(x, Front(xs));
    }
  }

  predicate StartsWith(s: string, prefix: string) {
    prefix <= s
  }

  /** A text starts with another when it is this followed by something. */
  lemma PrefixIs(s: string, prefix: string)
    ensures StartsWith(s, prefix) <==> exists x :: s == prefix + x
  {
    if StartsWith(s, prefix) { assert s == prefix + s[|prefix|..]; }
  }
}
