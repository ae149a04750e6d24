/** heatsim_init: the per-process topology record (heatsim_t) built from a
    periodic Cartesian communicator. MPI_Cart_create is called with
    reorder = 0, so a process keeps its MPI_COMM_WORLD rank in the grid. */
module Topology {
  import opened Options
  import opened Torus
  import RowMajor

  /** What heatsim_init records: the grid shape, the number of processes
      (the size of MPI_COMM_WORLD), this process's rank and coordinates, and
      its four peers. */
  datatype Topology = Topology(
    shape: Shape,
    rankCount: nat,
    rank: nat,
    coords: Coord,
    north: nat,
    south: nat,
    east: nat,
    west: nat)
  {
    /** A consistent record: one process per grid position, the coordinates
        of this rank, and the four periodic neighbours. */
    predicate Valid() {
      && shape.Valid()
      && rankCount == shape.Size()
      && rank < rankCount
      && coords == CoordOf(shape, rank)
      && north == Neighbor(shape, rank, North)
      && south == Neighbor(shape, rank, South)
      && east == Neighbor(shape, rank, East)
      && west == Neighbor(shape, rank, West)
    }

    /** The part of a consistent record the coordinator's loops rely on:
        one process per grid position. */
    predicate Counted() {
      shape.Valid() && rankCount == shape.Size()
    }

    /** The recorded peer on a side. */
    function Peer(side: Side): nat {
      match side
      case North => north
      case South => south
      case East => east
      case West => west
    }

    /** In a consistent record the peer on a side is the neighbour there. */
    lemma PeerIsNeighbor(side: Side)
      requires Valid()
      ensures Peer(side) == Neighbor(shape, rank, side)
    {
    }
  }

  /** The record of process `rank` once the communicator exists: coordinates
      from MPI_Cart_coords, (north, south) from MPI_Cart_shift along dimension
      1 and (west, east) from MPI_Cart_shift along dimension 0. */
  function Build(shape: Shape, worldSize: nat, rank: nat): (t: Topology)
    requires shape.Valid() && rank < shape.Size()
    ensures t.shape == shape && t.rankCount == worldSize && t.rank == rank && t.coords == CoordOf(shape, rank)
    ensures forall side :: t.Peer(side) == Neighbor(shape, rank, side)
  {
    var (north, south) := CartShift(shape, rank, 1, 1);
    var (west, east) := CartShift(shape, rank, 0, 1);
    Topology(shape, worldSize, rank, CoordOf(shape, rank), north, south, east, west)
  }

  /** heatsim_init as written. MPI_Cart_create fails for a zero dimension or a
      grid larger than the world; a process whose rank lies beyond the grid
      gets MPI_COMM_NULL and fails at MPI_Cart_shift. A grid SMALLER than the
      world is accepted by the processes inside it, and rank_count is still
      the size of MPI_COMM_WORLD. */
  function InitAsWritten(worldSize: nat, worldRank: nat, dimX: nat, dimY: nat): (r: Option<Topology>)
    ensures r.Some? <==> 1 <= dimX && 1 <= dimY && worldRank < dimX * dimY <= worldSize
    ensures r.Some? ==> && r.value.shape == Shape(dimX, dimY) && r.value.rankCount == worldSize
                        && r.value.rank == worldRank && r.value.coords == CoordOf(r.value.shape, worldRank)
                        && forall side :: r.value.Peer(side) == Neighbor(r.value.shape, worldRank, side)
  {
    var shape := Shape(dimX, dimY);
    if !shape.Valid() || worldSize < shape.Size() || shape.Size() <= worldRank then None
    else Some(Build(shape, worldSize, worldRank))
  }

  /** As written, the coordinator accepts a 1-by-1 grid in a world of two
      processes and records two ranks, one of which has no coordinates. */
  lemma InitAsWrittenAcceptsSurplusRanks(worldSize: nat, dimX: nat, dimY: nat)
    requires worldSize == 2 && dimX == 1 && dimY == 1
    ensures var t := InitAsWritten(worldSize, 0, dimX, dimY);
      t.Some? && t.value.rankCount == 2 && t.value.shape.Size() == 1
  {
  }

  /** heatsim_init as intended: the shape must partition the world exactly.
      On success the record is consistent, so every rank below rank_count
      has coordinates in the grid. */
  function Init(worldSize: nat, worldRank: nat, dimX: nat, dimY: nat): (r: Option<Topology>)
    ensures r.Some? <==> 1 <= dimX && 1 <= dimY && dimX * dimY == worldSize && worldRank < worldSize
    ensures r.Some? ==> r.value.Valid() && r.value.shape == Shape(dimX, dimY) && r.value.rank == worldRank
    ensures r.Some? ==> forall i :: 0 <= i < r.value.rankCount ==> r.value.shape.Contains(CoordOf(r.value.shape, i))
  {
    var shape := Shape(dimX, dimY);
    if !shape.Valid() || worldSize != shape.Size() || worldSize <= worldRank then None
    else Some(Build(shape, worldSize, worldRank))
  }

  /** Whenever the shape partitions the world exactly, the two agree. */
  lemma InitAgreesWithSource(worldSize: nat, worldRank: nat, dimX: nat, dimY: nat)
    requires dimX * dimY == worldSize
    ensures Init(worldSize, worldRank, dimX, dimY) == InitAsWritten(worldSize, worldRank, dimX, dimY)
  {
  }

  /** The record of process r in a grid that fills the world. */
  function TopologyOf(shape: Shape, r: nat): (t: Topology)
    requires shape.Valid() && r < shape.Size()
    ensures t.Valid() && t.shape == shape && t.rank == r
  {
    Build(shape, shape.Size(), r)
  }

  /** That record is the one heatsim_init produces for process r. */
  lemma TopologyOfIsInit(shape: Shape, r: nat)
    requires shape.Valid() && r < shape.Size()
    ensures Init(shape.Size(), r, shape.dimX, shape.dimY) == Some(TopologyOf(shape, r))
  {
  }
}
