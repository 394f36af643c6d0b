/**
 * A caller-owned, growable vector (the `std::vector` that the source passes
 * by reference and appends to). Only the operation the core uses, appending
 * at the back, is modelled.
 */
module Vectors {
  class Vector<T> {
    /** The elements, in order. */
    var items: seq<T>

    constructor ()
      ensures items == []
    {
      items := [];
    }

    /** Appends `x` at the back; nothing else changes. */
    method PushBack(x: T)
      modifies this
      ensures items == old(items) + [x]
    {
      items := items + [x];
    }
  }
}
