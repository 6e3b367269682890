/**
 * `IndexTracker`: remembers the category last resolved from the pointer and
 * reports whether a new pointer position resolves to a different one. The
 * three plugin variants carry the same tracker.
 */
module IndexTracking {
  import opened JsValues
  import opened NearestIndex

  /**
   * What the tracker's `index` variable holds: the sentinel -1 (`Sentinel`), the
   * `undefined` that the search returns on an empty axis (`NoCategory`), or a
   * category index (`At`). JavaScript's `===` tells all three apart.
   */
  datatype Slot = Sentinel | NoCategory | At(i: nat) {
    /** The index handed to the overlays; `None` is `undefined`. */
    function Resolved(): Option<nat>
      requires !Sentinel?
    {
      if At? then Some(i) else None
    }
  }

  /** The interaction state: no category under the pointer, or overlays shown for one. */
  datatype Phase = Idle | Active(index: Option<nat>)

  /** The phase a tracker slot stands for: the sentinel means nothing is shown. */
  function PhaseOf(s: Slot): Phase {
    if s.Sentinel? then Idle else Active(s.Resolved())
  }

  /** The slot a search result is stored as; it is never the reset sentinel. */
  function Resolve(coords: seq<int>, x: int): (s: Slot)
    ensures s != Sentinel
    ensures s.NoCategory? <==> |coords| == 0
    ensures s.At? ==> s.i < |coords| && s.Resolved() == BinarySearch(coords, x)
  {
    match BinarySearch(coords, x)
    case None => NoCategory
    case Some(i) => At(i)
  }

  /** On a sorted, non-empty axis the stored slot is a nearest category. */
  lemma ResolveIsNearest(coords: seq<int>, x: int)
    requires Sorted(coords) && |coords| > 0
    ensures Resolve(coords, x).At? && Nearest(coords, x, Resolve(coords, x).i)
  {
    SearchFindsNearest(coords, x);
  }

  class IndexTracker {
    const coords: seq<int>
    var index: Slot

    /** The stored slot only ever holds what the search can produce on `coords`, or the sentinel. */
    ghost predicate Valid()
      reads this
    {
      match index
      case Sentinel => true
      case NoCategory => |coords| == 0
      case At(i) => i < |coords|
    }

    /** `new IndexTracker(coords)`: nothing resolved yet. */
    constructor (coords: seq<int>)
      ensures this.coords == coords && index == Sentinel && Valid()
    {
      this.coords := coords;
      index := Sentinel;
    }

    /** `get()`. */
    method Get() returns (s: Slot)
      requires Valid()
      ensures s == index
      ensures s.At? ==> s.i < |coords|
    {
      s := index;
    }

    /** `reset()`: back to the sentinel, so that the next `Set` reports a change. */
    method Reset()
      modifies this
      ensures index == Sentinel && Valid()
    {
      index := Sentinel;
    }

    /**
     * `set(x)`: resolve `x`; report `false` and keep the slot when it already
     * holds that result, otherwise store it and report `true`.
     */
    method Set(x: int) returns (changed: bool)
      requires Valid()
      modifies this
      ensures Valid()
      ensures index == Resolve(coords, x)
      ensures changed <==> old(index) != index
    {
      var newIndex := Resolve(coords, x);
      if index == newIndex {
        return false;
      }
      index := newIndex;
      return true;
    }
  }

  /** A second `set` with the same pointer position reports no change. */
  method SetTwiceReportsOnce(t: IndexTracker, x: int) returns (first: bool, second: bool)
    requires t.Valid()
    modifies t
    ensures first <==> old(t.index) != Resolve(t.coords, x)
    ensures !second && t.index == Resolve(t.coords, x)
  {
    first := t.Set(x);
    second := t.Set(x);
  }

  /** After `reset()`, the next `set` reports a change whatever it resolves to. */
  method ResetThenSetReportsChange(t: IndexTracker, x: int) returns (changed: bool)
    requires t.Valid()
    modifies t
    ensures changed && t.index == Resolve(t.coords, x)
  {
    t.Reset();
    changed := t.Set(x);
  }
}
