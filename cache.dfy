/** The process-wide index cache of the server: the ids of the last crawl and
    the time it was stored. */
module Cache {
  import opened Common

  /** The cache record. `ids` is a JavaScript `Set`, kept here as a sequence
      in insertion order without repeats; `updatedAt` is a clock reading in
      milliseconds. */
  class IndexCache {
    var ids: seq<string>
    var updatedAt: int

    ghost predicate Valid()
      reads this
    {
      Distinct(ids)
    }

    /** The record created on first use: no ids, never updated. */
    constructor ()
      ensures Valid()
      ensures ids == [] && updatedAt == 0
      ensures !HasIndex()
    {
      ids := [];
      updatedAt := 0;
    }

    /** Replaces the whole id set by the ids of `xs` (each once, in the order
      of first occurrence) and stamps it with the clock reading `now`. */
    method SetIndexIds(xs: seq<string>, now: int)
      modifies this
      ensures Valid()
      ensures ids == Dedup(xs)
      ensures Elems(ids) == Elems(xs)
      ensures updatedAt == now
      ensures HasIndex() <==> xs != []
    {
      ids := Dedup(xs);
      updatedAt := now;
      if xs != [] {
        assert xs[0] in Elems(ids);
      }
    }

    /** The set has at least one id. */
    function HasIndex(): (r: bool)
      reads this
      ensures r <==> exists x :: x in ids
    {
      if |ids| > 0 then assert ids[0] in ids; true else false
    }

    /** The cached ids as an array: each id once, and exactly the ids of the
      set. */
    function ListIndexIds(): (r: seq<string>)
      requires Valid()
      reads this
      ensures Distinct(r)
      ensures forall x :: x in r <==> x in ids
      ensures |r| > 0 <==> HasIndex()
    {
      ids
    }
  }
}
