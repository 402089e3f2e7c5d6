/** Optional values, used wherever the source holds a possibly-null pointer or a possibly-failed result. */
module Wrappers {

  datatype Option<+T> = None | Some(value: T)

  /** Prefixes `prefix` to the value held by `o`, if any. */
  function Prepend<T>(prefix: seq<T>, o: Option<seq<T>>): (r: Option<seq<T>>)
    ensures r.Some? <==> o.Some?
    ensures r.Some? ==> r.value == prefix + o.value
  {
    match o
    case None => None
    case Some(w) => Some(prefix + w)
  }

  lemma PrependNothing<T>(o: Option<seq<T>>)
    ensures Prepend([], o) == o
  {
    if o.Some? { assert [] + o.value == o.value; }
  }
}
