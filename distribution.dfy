/** heatsim_send_grids and heatsim_receive_grid: rank 0 hands every other
    rank the grid staged at that rank's coordinates, first the three
    parameters (width, height, padding) under tag 0, then the whole padded
    buffer (width_padded * height_padded cells, the struct type that
    struct_create builds) under tag 1. The receiver allocates a grid of the
    announced shape and receives the buffer into it. */
module Distribution {
  import opened Options
  import opened Torus
  import opened Topology
  import opened Transport
  import opened Grids
  import opened Carts

  /** The result of a sending loop: whether it returned 0, and the sends it
      made. */
  datatype Sent<T> = Sent(ok: bool, trace: seq<Event<T>>)

  /** The two messages rank 0 sends to `dst` for a staged grid. */
  function GridMessages<T>(dst: nat, img: GridImage<T>): (m: seq<Event<T>>)
    ensures |m| == 2 && m[0].Send? && m[1].Send? && m[0].peer == dst && m[1].peer == dst
    ensures m[0].tag == 0 && m[0].payload.Dims?
      && GridShape(m[0].payload.width, m[0].payload.height, m[0].payload.padding) == img.shape
    ensures m[1].tag == 1 && m[1].payload == Cells(img.data)
  {
    [Send(dst, 0, Dims(img.shape.width, img.shape.height, img.shape.padding)), Send(dst, 1, Cells(img.data))]
  }

  /** The loop of heatsim_send_grids over ranks 1 .. k - 1: the coordinates
      of each rank select its grid; a coordinate without a grid ends the
      loop with -1. */
  function Distribute<T>(shape: Shape, staged: map<Coord, GridImage<T>>, k: nat): (r: Sent<T>)
    requires shape.Valid() && k <= shape.Size()
    ensures r.ok ==> k <= 1 || |r.trace| == 2 * (k - 1)
    decreases k
  {
    if k <= 1 then Sent(true, [])
    else
      var prev := Distribute(shape, staged, k - 1);
      var c := CoordOf(shape, k - 1);
      if !prev.ok then prev
      else if c !in staged then Sent(false, prev.trace)
      else Sent(true, prev.trace + GridMessages(k - 1, staged[c]))
  }

  /** Once the loop has failed, later ranks change nothing. */
  lemma {:induction false} DistributeStops<T>(shape: Shape, staged: map<Coord, GridImage<T>>, k: nat, n: nat)
    requires shape.Valid() && k <= n <= shape.Size() && !Distribute(shape, staged, k).ok
    ensures Distribute(shape, staged, n) == Distribute(shape, staged, k)
    decreases n
  {
    if n > k {
      DistributeStops(shape, staged, k, n - 1);
    }
  }

  /** The loop returns 0 exactly when every rank 1 .. k - 1 has a staged
      grid at its coordinates. */
  lemma {:induction false} DistributeOk<T>(shape: Shape, staged: map<Coord, GridImage<T>>, k: nat)
    requires shape.Valid() && k <= shape.Size()
    ensures Distribute(shape, staged, k).ok <==> forall j :: 1 <= j < k ==> CoordOf(shape, j) in staged
    decreases k
  {
    if k > 1 {
      DistributeOk(shape, staged, k - 1);
    }
  }

  /** Every send of the loop goes to a rank 1 .. k - 1 and is one of the two
      messages for the grid staged at that rank's coordinates; when the loop
      succeeds, both messages of every such rank are sent. */
  lemma {:induction false} DistributeTrace<T>(shape: Shape, staged: map<Coord, GridImage<T>>, k: nat)
    requires shape.Valid() && k <= shape.Size()
    ensures var tr := Distribute(shape, staged, k).trace;
      forall m :: 0 <= m < |tr| ==>
        && 1 <= tr[m].peer < k
        && CoordOf(shape, tr[m].peer) in staged
        && tr[m] in GridMessages(tr[m].peer, staged[CoordOf(shape, tr[m].peer)])
    ensures var r := Distribute(shape, staged, k);
      r.ok ==> forall j :: 1 <= j < k ==>
        && CoordOf(shape, j) in staged
        && (forall e :: e in GridMessages(j, staged[CoordOf(shape, j)]) ==> e in r.trace)
    decreases k
  {
    if k > 1 {
      DistributeTrace(shape, staged, k - 1);
    }
  }

  /** heatsim_send_grids, run on rank 0. */
  method SendGrids<T>(t: Topology, cart: Cart<T>) returns (r: int, sent: seq<Event<T>>)
    requires t.Counted() && cart.Valid()
    ensures var o := Distribute(t.shape, cart.Images(), t.rankCount);
      && r == (if o.ok then 0 else -1)
      && sent == o.trace
  {
    ghost var staged := cart.Images();
    sent := [];
    var i := 1;
    while i < t.rankCount
      invariant 1 <= i <= t.rankCount
      invariant Distribute(t.shape, staged, i) == Sent(true, sent)
    {
      var c := CoordOf(t.shape, i);
      if c !in cart.grids {
        DistributeStops(t.shape, staged, i + 1, t.rankCount);
        return -1, sent;
      }
      var grid := cart.grids[c];
      sent := sent + [Send(i, 0, Dims(grid.shape.width, grid.shape.height, grid.shape.padding))];
      sent := sent + [Send(i, 1, Cells(grid.data[..]))];
      i := i + 1;
    }
    return 0, sent;
  }

  /** What heatsim_receive_grid makes of its inbox: the parameters from
      rank 0 under tag 0 must be a parameter triple, and the cells from
      rank 0 under tag 1 must fit the buffer of that shape; the received
      cells land at the front of a fresh buffer. None is a NULL return or,
      for a receive no message answers, a call that never returns. */
  function Received<T>(inbox: Inbox<T>, blank: T): (r: Option<GridImage<T>>)
    ensures r.None? <==>
      !(&& inbox(0, 0).Some? && inbox(0, 0).value.Dims?
        && var d := inbox(0, 0).value; Accept(inbox, 0, 1, GridShape(d.width, d.height, d.padding).Size()).Some?)
    ensures r.Some? ==>
      && r.value.Valid()
      && inbox(0, 0) == Some(Dims(r.value.shape.width, r.value.shape.height, r.value.shape.padding))
      && inbox(0, 1).Some? && inbox(0, 1).value.Cells?
      && var cells := inbox(0, 1).value.cells;
        |cells| <= |r.value.data| && r.value.data[..|cells|] == cells
  {
    match inbox(0, 0)
    case Some(Dims(w, h, p)) =>
      var shape := GridShape(w, h, p);
      (match Accept(inbox, 0, 1, shape.Size())
       case Some(cells) => Some(GridImage(shape, Land(cells, seq(shape.Size(), _ => blank))))
       case None => None)
    case _ => None
  }

  /** heatsim_receive_grid. `blank` stands for the contents grid_create
      leaves in a new buffer. */
  method ReceiveGrid<T>(inbox: Inbox<T>, blank: T) returns (g: Grid?<T>)
    ensures var e := Received(inbox, blank);
      && (g == null <==> e.None?)
      && (g != null ==> fresh(g.data) && g.Valid() && g.Image() == e.value)
  {
    match inbox(0, 0)
    case Some(Dims(w, h, p)) =>
      g := new Grid(GridShape(w, h, p), blank);
      var cells := Accept(inbox, 0, 1, g.shape.Size());
      if cells.None? {
        return null;
      }
      ghost var before := g.data[..];
      Scatter(g.data, 0, 1, cells.value);
      ScatterPrefix(before, cells.value);
    case _ =>
      return null;
  }

  /** The round trip: after rank 0 ran a successful heatsim_send_grids,
      every rank i in 1 .. size - 1 receives exactly the staged grid at its
      coordinates (same shape, same padded buffer). */
  lemma DistributionRoundTrip<T>(shape: Shape, staged: map<Coord, GridImage<T>>, blank: T, i: nat)
    requires shape.Valid() && 1 <= i < shape.Size()
    requires forall c :: c in staged ==> staged[c].Valid()
    requires Distribute(shape, staged, shape.Size()).ok
    ensures var tr := Distribute(shape, staged, shape.Size()).trace;
      CoordOf(shape, i) in staged && Received(NetworkInbox([tr], i), blank) == Some(staged[CoordOf(shape, i)])
  {
    DistributeTrace(shape, staged, shape.Size());
    TraceDelivers(shape, staged, Distribute(shape, staged, shape.Size()).trace, blank, i);
  }

  /** A trace of grid messages in which rank i got both messages of its
      grid delivers that grid to i. */
  lemma TraceDelivers<T>(shape: Shape, staged: map<Coord, GridImage<T>>, tr: seq<Event<T>>, blank: T, i: nat)
    requires shape.Valid() && 1 <= i < shape.Size()
    requires forall c :: c in staged ==> staged[c].Valid()
    requires forall m :: 0 <= m < |tr| ==>
        && 1 <= tr[m].peer < shape.Size()
        && CoordOf(shape, tr[m].peer) in staged
        && tr[m] in GridMessages(tr[m].peer, staged[CoordOf(shape, tr[m].peer)])
    requires CoordOf(shape, i) in staged
    requires forall e :: e in GridMessages(i, staged[CoordOf(shape, i)]) ==> e in tr
    ensures Received(NetworkInbox([tr], i), blank) == Some(staged[CoordOf(shape, i)])
  {
    var g := staged[CoordOf(shape, i)];
    var msgs := GridMessages(i, g);
    DeliveredUnique(tr, i, 0, msgs[0].payload);
    DeliveredUnique(tr, i, 1, msgs[1].payload);
    LandAll(g.data, seq(g.shape.Size(), _ => blank));
  }
}
