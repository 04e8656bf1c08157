/** Option and a helper for parsers that accumulate a prefix before the rest is parsed. */
module Wrappers {

  datatype Option<+T> = None | Some(value: T)

  /** `p` followed by the parsed rest, or a failure when the rest failed. */
  function Prepend<T>(p: seq<T>, rest: Option<seq<T>>): (r: Option<seq<T>>)
    ensures r.Some? <==> rest.Some?
    ensures r.Some? ==> r.value == p + rest.value
  {
    match rest
    case None => None
    case Some(t) => Some(p + t)
  }

  lemma PrependNil<T>(rest: Option<seq<T>>)
    ensures Prepend([], rest) == rest
  {
    if rest.Some? {
      assert [] + rest.value == rest.value;
    }
  }

  /** Prepending in two steps is prepending the concatenation. */
  lemma PrependPrepend<T>(p: seq<T>, q: seq<T>, rest: Option<seq<T>>)
    ensures Prepend(p, Prepend(q, rest)) == Prepend(p + q, rest)
  {
    if rest.Some? {
      assert p + (q + rest.value) == (p + q) + rest.value;
    }
  }
}
