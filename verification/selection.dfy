/** Listing the entries of a table that pass a test, in table order: the shape of the
    scans of `cmd_grep`, `cmd_find` and `cmd_ls`, which walk the inode table or a
    directory's slots and print the name of every entry they keep. */
module Selection {
  /** The names of the kept entries among lo .. hi - 1, in order. */
  function Select<T>(keep: int -> bool, name: int -> T, lo: int, hi: int): seq<T>
    decreases hi - lo
  {
    if lo >= hi then [] else (if keep(lo) then [name(lo)] else []) + Select(keep, name, lo + 1, hi)
  }

  /** Every listed name is the name of a kept entry of the range. */
  lemma {:induction false} SelectSound<T>(keep: int -> bool, name: int -> T, lo: int, hi: int, x: T)
    requires x in Select(keep, name, lo, hi)
    ensures exists b :: lo <= b < hi && keep(b) && name(b) == x
    decreases hi - lo
  {
    var head := if keep(lo) then [name(lo)] else [];
    assert Select(keep, name, lo, hi) == head + Select(keep, name, lo + 1, hi);
    if x !in head {
      SelectSound(keep, name, lo + 1, hi, x);
    }
  }

  /** The name of every kept entry of the range is listed. */
  lemma {:induction false} SelectComplete<T>(keep: int -> bool, name: int -> T, lo: int, hi: int, b: int)
    requires lo <= b < hi && keep(b)
    ensures name(b) in Select(keep, name, lo, hi)
    decreases hi - lo
  {
    var head := if keep(lo) then [name(lo)] else [];
    assert Select(keep, name, lo, hi) == head + Select(keep, name, lo + 1, hi);
    if b != lo {
      SelectComplete(keep, name, lo + 1, hi, b);
    }
  }

  /** A name is listed exactly when it is the name of a kept entry of the range. */
  lemma SelectMembers<T>(keep: int -> bool, name: int -> T, lo: int, hi: int)
    ensures forall x :: x in Select(keep, name, lo, hi) <==> exists b :: lo <= b < hi && keep(b) && name(b) == x
  {
    forall x | x in Select(keep, name, lo, hi)
      ensures exists b :: lo <= b < hi && keep(b) && name(b) == x
    {
      SelectSound(keep, name, lo, hi, x);
    }
    forall b | lo <= b < hi && keep(b)
      ensures name(b) in Select(keep, name, lo, hi)
    {
      SelectComplete(keep, name, lo, hi, b);
    }
  }

  /** A scan that stops with nothing when it meets an entry it cannot read. */
  datatype Scanned<T> = Listed(items: seq<T>) | Stuck

  /** The loop of the listing commands: entries lo .. hi - 1 in order; an unreadable
      entry ends the whole scan, a kept one adds its name. */
  function Scan<T>(safe: int -> bool, keep: int -> bool, name: int -> T, lo: int, hi: int): Scanned<T>
    decreases hi - lo
  {
    if lo >= hi then Listed([])
    else if !safe(lo) then Stuck
    else
      var rest := Scan(safe, keep, name, lo + 1, hi);
      if rest.Stuck? then Stuck
      else Listed((if keep(lo) then [name(lo)] else []) + rest.items)
  }

  /** The scan completes exactly when every entry of the range is readable, and then
      lists the selection of the range. */
  lemma {:induction false} ScanSelects<T>(safe: int -> bool, keep: int -> bool, name: int -> T, lo: int, hi: int)
    ensures Scan(safe, keep, name, lo, hi).Listed? <==> forall b :: lo <= b < hi ==> safe(b)
    ensures Scan(safe, keep, name, lo, hi).Listed? ==> Scan(safe, keep, name, lo, hi).items == Select(keep, name, lo, hi)
    decreases hi - lo
  {
    if lo < hi {
      ScanSelects(safe, keep, name, lo + 1, hi);
    }
  }

  /** Nothing kept, nothing listed. */
  lemma {:induction false} SelectNone<T>(keep: int -> bool, name: int -> T, lo: int, hi: int)
    requires forall b :: lo <= b < hi ==> !keep(b)
    ensures Select(keep, name, lo, hi) == []
    decreases hi - lo
  {
    if lo < hi {
      SelectNone(keep, name, lo + 1, hi);
    }
  }

  /** The entry a listed name comes from. */
  lemma SelectSource<T>(keep: int -> bool, name: int -> T, lo: int, hi: int, x: T) returns (b: int)
    requires x in Select(keep, name, lo, hi)
    ensures lo <= b < hi && keep(b) && name(b) == x
  {
    SelectSound(keep, name, lo, hi, x);
    b :| lo <= b < hi && keep(b) && name(b) == x;
  }
}
