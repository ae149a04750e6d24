/** The periodic two-dimensional process grid of the heat simulation.

    Processes are numbered as a Cartesian communicator created with
    MPI_Cart_create numbers them (section 7.5.1 of the MPI 3.1 standard):
    row-major, the last dimension varying fastest, so the process at
    coordinates (x, y) of a dim_x-by-dim_y grid has rank x * dim_y + y.
    Both dimensions are periodic: shifting past an edge wraps to the
    opposite edge (MPI_Cart_shift, section 7.5.6). */
module Torus {
  import RowMajor

  /** The process-grid shape (dims[0], dims[1]) = (dim_x, dim_y). */
  datatype Shape = Shape(dimX: nat, dimY: nat) {
    predicate Valid() { 1 <= dimX && 1 <= dimY }
    function Size(): nat { dimX * dimY }
    predicate Contains(c: Coord) { 0 <= c.x < dimX && 0 <= c.y < dimY }
  }

  /** Cartesian coordinates of a process: x along dimension 0, y along dimension 1. */
  datatype Coord = Coord(x: int, y: int)

  /** The four cardinal directions; also the four sides of a grid. */
  datatype Side = North | South | East | West {
    function Opposite(): Side {
      match this
      case North => South
      case South => North
      case East => West
      case West => East
    }
  }

  /** Rank of the process at coordinates c (row-major, dimension 1 fastest). */
  function RankOf(s: Shape, c: Coord): (r: nat)
    requires s.Valid() && s.Contains(c)
    ensures r < s.Size()
  {
    RowMajor.OffsetInRange(c.x, c.y, s.dimX, s.dimY);
    c.x * s.dimY + c.y
  }

  /** Coordinates of the process of rank r (MPI_Cart_coords). */
  function CoordOf(s: Shape, r: nat): (c: Coord)
    requires s.Valid() && r < s.Size()
    ensures s.Contains(c) && RankOf(s, c) == r
  {
    RowMajor.RowInRange(r, s.dimX, s.dimY);
    Coord(r / s.dimY, r % s.dimY)
  }

  /** Ranks and coordinates are in one-to-one correspondence. */
  lemma CoordOfRankOf(s: Shape, c: Coord)
    requires s.Valid() && s.Contains(c)
    ensures CoordOf(s, RankOf(s, c)) == c
  {
    RowMajor.OffsetDecodes(c.x, c.y, s.dimY);
  }

  /** RankOf is injective on the grid. */
  lemma RankOfInjective(s: Shape, c: Coord, d: Coord)
    requires s.Valid() && s.Contains(c) && s.Contains(d)
    requires RankOf(s, c) == RankOf(s, d)
    ensures c == d
  {
    CoordOfRankOf(s, c);
    CoordOfRankOf(s, d);
  }

  /** The coordinates disp steps away from c along dimension dim, wrapping around. */
  function Shift(s: Shape, c: Coord, dim: nat, disp: int): (d: Coord)
    requires s.Valid() && s.Contains(c) && dim < 2
    ensures s.Contains(d)
  {
    if dim == 0 then Coord((c.x + disp) % s.dimX, c.y)
    else Coord(c.x, (c.y + disp) % s.dimY)
  }

  /** MPI_Cart_shift on a periodic grid: the rank disp steps back (the source)
      and the rank disp steps forward (the destination) along dimension dim. */
  function CartShift(s: Shape, r: nat, dim: nat, disp: int): (p: (nat, nat))
    requires s.Valid() && r < s.Size() && dim < 2
    ensures p.0 < s.Size() && CoordOf(s, p.0) == Shift(s, CoordOf(s, r), dim, -disp)
    ensures p.1 < s.Size() && CoordOf(s, p.1) == Shift(s, CoordOf(s, r), dim, disp)
  {
    CoordOfRankOf(s, Shift(s, CoordOf(s, r), dim, -disp));
    CoordOfRankOf(s, Shift(s, CoordOf(s, r), dim, disp));
    (RankOf(s, Shift(s, CoordOf(s, r), dim, -disp)), RankOf(s, Shift(s, CoordOf(s, r), dim, disp)))
  }

  /** The neighbour of rank r in a direction, as heatsim_init derives the four
      peers: MPI_Cart_shift(dimension 1, 1) gives (north, south) and
      MPI_Cart_shift(dimension 0, 1) gives (west, east). */
  function Neighbor(s: Shape, r: nat, side: Side): (n: nat)
    requires s.Valid() && r < s.Size()
    ensures n < s.Size()
  {
    match side
    case North => CartShift(s, r, 1, 1).0
    case South => CartShift(s, r, 1, 1).1
    case West => CartShift(s, r, 0, 1).0
    case East => CartShift(s, r, 0, 1).1
  }

  /** Shifting a coordinate inside [0, n) down and back up returns it. */
  lemma WrapDownUp(a: int, n: int)
    requires 0 <= a < n
    ensures ((a - 1) % n + 1) % n == a && ((a + 1) % n - 1) % n == a
  {
    if a == 0 {
      RowMajor.DivModUnique(a - 1, n, -1, n - 1);
    } else {
      RowMajor.DivModUnique(a - 1, n, 0, a - 1);
    }
    if a == n - 1 {
      RowMajor.DivModUnique(a + 1, n, 1, 0);
      RowMajor.DivModUnique(-1, n, -1, n - 1);
    } else {
      RowMajor.DivModUnique(a + 1, n, 0, a + 1);
    }
    RowMajor.DivModUnique(a, n, 0, a);
    if a == 0 {
      RowMajor.DivModUnique(n, n, 1, 0);
    }
  }

  /** A one-step shift along a dimension of length n moves a coordinate
      exactly when n > 1. */
  lemma WrapMoves(a: int, n: int)
    requires 0 <= a < n
    ensures ((a - 1) % n == a) <==> n == 1
    ensures ((a + 1) % n == a) <==> n == 1
  {
    if n == 1 {
      RowMajor.DivModUnique(a - 1, n, -1, 0);
      RowMajor.DivModUnique(a + 1, n, 1, 0);
    } else {
      if a == 0 {
        RowMajor.DivModUnique(a - 1, n, -1, n - 1);
      } else {
        RowMajor.DivModUnique(a - 1, n, 0, a - 1);
      }
      if a == n - 1 {
        RowMajor.DivModUnique(a + 1, n, 1, 0);
      } else {
        RowMajor.DivModUnique(a + 1, n, 0, a + 1);
      }
    }
  }

  /** Each neighbour is the process one step away with periodic wrap-around:
      west and east at ((x - 1) mod dim_x, y) and ((x + 1) mod dim_x, y),
      north and south at (x, (y - 1) mod dim_y) and (x, (y + 1) mod dim_y). */
  lemma NeighborCoords(s: Shape, r: nat)
    requires s.Valid() && r < s.Size()
    ensures var c := CoordOf(s, r);
      && CoordOf(s, Neighbor(s, r, West)) == Coord((c.x - 1) % s.dimX, c.y)
      && CoordOf(s, Neighbor(s, r, East)) == Coord((c.x + 1) % s.dimX, c.y)
      && CoordOf(s, Neighbor(s, r, North)) == Coord(c.x, (c.y - 1) % s.dimY)
      && CoordOf(s, Neighbor(s, r, South)) == Coord(c.x, (c.y + 1) % s.dimY)
  {
    var c := CoordOf(s, r);
    CoordOfRankOf(s, Shift(s, c, 0, -1));
    CoordOfRankOf(s, Shift(s, c, 0, 1));
    CoordOfRankOf(s, Shift(s, c, 1, -1));
    CoordOfRankOf(s, Shift(s, c, 1, 1));
  }

  /** Shifting one step along a dimension and one step back returns to
      the start. */
  lemma ShiftBack(s: Shape, c: Coord, dim: nat, disp: int)
    requires s.Valid() && s.Contains(c) && dim < 2 && (disp == 1 || disp == -1)
    ensures Shift(s, Shift(s, c, dim, disp), dim, -disp) == c
  {
    if dim == 0 {
      WrapDownUp(c.x, s.dimX);
    } else {
      WrapDownUp(c.y, s.dimY);
    }
  }

  /** The periodic topology is symmetric: the neighbour of my neighbour in
      the opposite direction is me (for instance the east neighbour of my
      west neighbour). */
  lemma NeighborSymmetric(s: Shape, r: nat, side: Side)
    requires s.Valid() && r < s.Size()
    ensures Neighbor(s, Neighbor(s, r, side), side.Opposite()) == r
  {
    var c := CoordOf(s, r);
    var dim := if side == West || side == East then 0 else 1;
    var disp := if side == East || side == South then 1 else -1;
    var d := Shift(s, c, dim, disp);
    assert Neighbor(s, r, side) == RankOf(s, d);
    CoordOfRankOf(s, d);
    ShiftBack(s, c, dim, disp);
    assert Neighbor(s, RankOf(s, d), side.Opposite()) == RankOf(s, Shift(s, d, dim, -disp));
  }

  /** A process is its own neighbour along an axis exactly when that axis has
      length 1; in particular it is its own west neighbour iff it is its own
      east neighbour (and likewise north and south). */
  lemma SelfNeighbor(s: Shape, r: nat)
    requires s.Valid() && r < s.Size()
    ensures Neighbor(s, r, West) == r <==> s.dimX == 1
    ensures Neighbor(s, r, East) == r <==> s.dimX == 1
    ensures Neighbor(s, r, North) == r <==> s.dimY == 1
    ensures Neighbor(s, r, South) == r <==> s.dimY == 1
  {
    var c := CoordOf(s, r);
    NeighborCoords(s, r);
    WrapMoves(c.x, s.dimX);
    WrapMoves(c.y, s.dimY);
    forall side: Side ensures Neighbor(s, r, side) == r <==> CoordOf(s, Neighbor(s, r, side)) == c {
      var n := Neighbor(s, r, side);
      if CoordOf(s, n) == c {
        RankOfInjective(s, CoordOf(s, n), c);
      }
    }
  }
}
