/**
 * The bci map that the switchable comparison fills in: the fragments of new
 * code that have no counterpart in the old code. How the map answers
 * "do these two positions denote the same place" is not part of this model;
 * it is the map's `sameLocation` query, a function of the recorded fragments.
 */
module BciMaps {

  /** New-only code [newStartBci, newEndBci) inserted before the old instruction at oldBci. */
  datatype Fragment = Fragment(oldBci: int, newStartBci: int, newEndBci: int)

  /** The map's answer, from the fragments recorded so far, for an old and a new position. */
  type LocationQuery = (seq<Fragment>, int, int) -> bool

  class BciMap {
    var fragments: seq<Fragment>
    const sameLocation: LocationQuery

    constructor (sameLocation: LocationQuery)
      ensures this.sameLocation == sameLocation
      ensures fragments == []
    {
      this.sameLocation := sameLocation;
      fragments := [];
    }

    /** old_and_new_locations_same: asked of the fragments recorded so far. */
    function OldAndNewLocationsSame(oldBci: int, newBci: int): bool
      reads this
    {
      sameLocation(fragments, oldBci, newBci)
    }

    /** store_fragment_location: records one more fragment after the others. */
    method StoreFragmentLocation(oldBci: int, newStartBci: int, newEndBci: int)
      modifies this
      ensures fragments == old(fragments) + [Fragment(oldBci, newStartBci, newEndBci)]
    {
      fragments := fragments + [Fragment(oldBci, newStartBci, newEndBci)];
    }
  }
}
