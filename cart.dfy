/** The coordinator's view of the partitioned domain (cart2d_t): one grid
    per process coordinate. cart2d_get_grid answers NULL for a coordinate
    without a grid; here that is a coordinate outside the map. How the
    global grid is cut into these sub-grids is not part of this model. */
module Carts {
  import opened Torus
  import opened Grids

  class Cart<T> {
    const grids: map<Coord, Grid<T>>

    /** Every grid is well formed and no two coordinates share a buffer. */
    predicate Valid() {
      && (forall c :: c in grids ==> grids[c].Valid())
      && (forall c, d :: c in grids && d in grids && c != d ==> grids[c].data != grids[d].data)
    }

    /** The buffers of all the grids. */
    function Repr(): set<array<T>> {
      set c | c in grids :: grids[c].data
    }

    /** The value of every grid, by coordinate. */
    function Images(): (m: map<Coord, GridImage<T>>)
      reads Repr()
      ensures m.Keys == grids.Keys
      ensures Valid() ==> forall c :: c in m ==> m[c].Valid() && m[c].shape == grids[c].shape
    {
      map c | c in grids :: grids[c].Image()
    }

    /** A cart over grids that are well formed and own distinct buffers. */
    constructor (grids: map<Coord, Grid<T>>)
      requires forall c :: c in grids ==> grids[c].Valid()
      requires forall c, d :: c in grids && d in grids && c != d ==> grids[c].data != grids[d].data
      ensures this.grids == grids && Valid()
    {
      this.grids := grids;
    }
  }
}
