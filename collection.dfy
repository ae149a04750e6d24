/** heatsim_send_result and heatsim_receive_results: once the simulation
    is over, every rank other than 0 sends the width * height cells of its
    unpadded result grid to rank 0 under tag 6, and rank 0 receives the
    result of rank i into the grid of its cart at the coordinates of i. */
module Collection {
  import opened Options
  import opened Torus
  import opened Topology
  import opened Transport
  import opened Grids
  import opened Carts
  import RowMajor

  /** heatsim_send_result: the one send of a grid without padding, which
      carries its logical cells in row-major order. */
  function SendResult<T>(img: GridImage<T>): (m: seq<Event<T>>)
    requires img.Valid() && img.shape.padding == 0
    ensures |m| == 1 && m[0].Send? && m[0].peer == 0 && m[0].tag == 6 && m[0].payload.Cells?
    ensures var cells, w := m[0].payload.cells, img.shape.width;
      && |cells| == w * img.shape.height
      && forall x, y :: img.shape.InLogical(x, y) ==> 0 <= y * w + x < |cells| && cells[y * w + x] == img.Cell(x, y)
  {
    ResultLayout(img.shape);
    [Send(0, 6, Cells(img.data[..img.shape.width * img.shape.height]))]
  }

  /** Without padding, the buffer holds exactly the logical cells, row by
      row. */
  lemma ResultLayout(s: GridShape)
    requires s.padding == 0
    ensures s.Size() == s.width * s.height
    ensures forall x, y :: s.InLogical(x, y) ==> s.InPadded(x, y) && s.Index(x, y) == y * s.width + x
  {
    forall x, y | s.InLogical(x, y)
      ensures s.InPadded(x, y) && s.Index(x, y) == y * s.width + x
    {
    }
  }

  /** The logical cells of a grid fit in its buffer. */
  lemma LogicalFits(s: GridShape)
    ensures s.width * s.height <= s.Size()
  {
    RowMajor.MulMonotone(s.width, s.WidthPadded(), s.height);
    RowMajor.MulMonotone(s.height, s.HeightPadded(), s.WidthPadded());
  }

  /** The number of logical cells of a grid, the count of a result
      receive. */
  function LogicalCount(s: GridShape): (n: nat)
    ensures n <= s.Size()
  {
    LogicalFits(s);
    s.width * s.height
  }

  /** The receive of rank j's result into slot `slot`: at most
      width * height cells of the slot from rank j under tag 6, landing at
      the front of the slot's buffer. None is a failed receive: an error
      return, or a receive no message answers, which would block forever. */
  function Arrived<T>(slot: GridImage<T>, inbox: Inbox<T>, j: nat): (r: Option<GridImage<T>>)
    requires slot.Valid()
    ensures r.Some? <==> Accept(inbox, j, 6, LogicalCount(slot.shape)).Some?
    ensures r.Some? ==>
      && r.value.Valid() && r.value.shape == slot.shape
      && var cells := Accept(inbox, j, 6, LogicalCount(slot.shape)).value;
        && r.value.data[..|cells|] == cells
        && r.value.data[|cells|..] == slot.data[|cells|..]
  {
    match Accept(inbox, j, 6, LogicalCount(slot.shape))
    case Some(cells) => Some(GridImage(slot.shape, Land(cells, slot.data)))
    case None => None
  }

  /** The result of the receiving loop: whether it returned 0, and the
      slots of the cart. */
  datatype Collected<T> = Collected(ok: bool, slots: map<Coord, GridImage<T>>)

  predicate AllValid<T>(slots: map<Coord, GridImage<T>>) {
    forall c :: c in slots ==> slots[c].Valid()
  }

  /** One iteration of heatsim_receive_results, for rank j: the slot at
      the coordinates of j must exist and the receive from j must succeed;
      otherwise the loop ends with -1. */
  function ReceiveFrom<T>(shape: Shape, prev: Collected<T>, inbox: Inbox<T>, j: nat): (r: Collected<T>)
    requires shape.Valid() && j < shape.Size() && AllValid(prev.slots)
    ensures AllValid(r.slots)
    ensures r.ok ==> prev.ok && CoordOf(shape, j) in prev.slots
  {
    var c := CoordOf(shape, j);
    if !prev.ok then prev
    else if c !in prev.slots then Collected(false, prev.slots)
    else match Arrived(prev.slots[c], inbox, j)
      case Some(img) => Collected(true, prev.slots[c := img])
      case None => Collected(false, prev.slots)
  }

  /** The loop of heatsim_receive_results over ranks 1 .. k - 1: a missing
      slot or a failed receive ends it with -1; every earlier receive has
      already been written. */
  function Collect<T>(shape: Shape, slots: map<Coord, GridImage<T>>, inbox: Inbox<T>, k: nat): (r: Collected<T>)
    requires shape.Valid() && k <= shape.Size() && AllValid(slots)
    ensures AllValid(r.slots)
    decreases k
  {
    if k <= 1 then Collected(true, slots)
    else ReceiveFrom(shape, Collect(shape, slots, inbox, k - 1), inbox, k - 1)
  }

  /** heatsim_receive_results, run on rank 0. */
  method ReceiveResults<T>(t: Topology, cart: Cart<T>, inbox: Inbox<T>) returns (r: int)
    requires t.Counted() && cart.Valid()
    modifies cart.Repr()
    ensures var o := Collect(t.shape, old(cart.Images()), inbox, t.rankCount);
      && r == (if o.ok then 0 else -1)
      && cart.Images() == o.slots
  {
    ghost var slots := cart.Images();
    var i := 1;
    while i < t.rankCount
      invariant 1 <= i <= t.rankCount
      invariant Collect(t.shape, slots, inbox, i) == Collected(true, cart.Images())
    {
      CollectNext(t.shape, slots, inbox, i, t.rankCount, cart.Images());
      var ok := ReceiveRank(t, cart, inbox, i);
      if !ok {
        return -1;
      }
      i := i + 1;
    }
    return 0;
  }

  /** One iteration of heatsim_receive_results: the result of rank i into
      the grid at its coordinates. */
  method ReceiveRank<T>(t: Topology, cart: Cart<T>, inbox: Inbox<T>, i: nat) returns (ok: bool)
    requires t.Counted() && cart.Valid() && 1 <= i < t.rankCount
    modifies cart.Repr()
    ensures var o := ReceiveFrom(t.shape, Collected(true, old(cart.Images())), inbox, i);
      ok == o.ok && cart.Images() == o.slots
  {
    var c := CoordOf(t.shape, i);
    if c !in cart.grids {
      return false;
    }
    var destination := cart.grids[c];
    var cells := Accept(inbox, i, 6, LogicalCount(destination.shape));
    if cells.None? {
      return false;
    }
    assert destination.data in cart.Repr();
    ReceiveSlot(cart, c, cells.value);
    return true;
  }

  /** An MPI_Recv of `cells` into the buffer of the grid at `c`: they land
      at its front, and no other grid of the cart changes. */
  method ReceiveSlot<T>(cart: Cart<T>, c: Coord, cells: seq<T>)
    requires cart.Valid() && c in cart.grids && |cells| <= cart.grids[c].data.Length
    modifies cart.grids[c].data
    ensures var old_slot := old(cart.Images())[c];
      cart.Images() == old(cart.Images())[c := GridImage(old_slot.shape, Land(cells, old_slot.data))]
  {
    var destination := cart.grids[c];
    ghost var before := cart.Images();
    ghost var buffer := destination.data[..];
    Scatter(destination.data, 0, 1, cells);
    ScatterPrefix(buffer, cells);
    WriteSlot(cart, before, c);
  }

  /** Writing the buffer of one grid changes only that grid's image. */
  lemma WriteSlot<T>(cart: Cart<T>, before: map<Coord, GridImage<T>>, c: Coord)
    requires cart.Valid() && c in cart.grids && before.Keys == cart.grids.Keys
    requires forall d :: d in cart.grids && d != c ==> before[d] == cart.grids[d].Image()
    ensures cart.Images() == before[c := cart.grids[c].Image()]
  {
  }

  /** Iteration i of the loop, from the slots the earlier iterations left:
      it is the next step of Collect, and when it fails it ends the loop. */
  lemma CollectNext<T>(shape: Shape, slots: map<Coord, GridImage<T>>, inbox: Inbox<T>, i: nat, n: nat,
                       current: map<Coord, GridImage<T>>)
    requires shape.Valid() && 1 <= i < n <= shape.Size() && AllValid(slots) && AllValid(current)
    requires Collect(shape, slots, inbox, i) == Collected(true, current)
    ensures var o := ReceiveFrom(shape, Collected(true, current), inbox, i);
      && Collect(shape, slots, inbox, i + 1) == o
      && (!o.ok ==> Collect(shape, slots, inbox, n) == o)
  {
    var o := ReceiveFrom(shape, Collected(true, current), inbox, i);
    assert Collect(shape, slots, inbox, i + 1) == o;
    if !o.ok {
      CollectStops(shape, slots, inbox, i + 1, n);
    }
  }

  /** Once the loop has failed, later ranks change nothing. */
  lemma {:induction false} CollectStops<T>(shape: Shape, slots: map<Coord, GridImage<T>>, inbox: Inbox<T>, k: nat, n: nat)
    requires shape.Valid() && k <= n <= shape.Size() && AllValid(slots) && !Collect(shape, slots, inbox, k).ok
    ensures Collect(shape, slots, inbox, n) == Collect(shape, slots, inbox, k)
    decreases n
  {
    if n > k {
      CollectStops(shape, slots, inbox, k, n - 1);
    }
  }

  /** Routing: the loop over ranks 1 .. k - 1 returns 0 exactly when every
      such rank has a slot at its coordinates and its receive succeeds; it
      then writes into the slot at the coordinates of each rank i what
      arrived from i, and leaves every other slot (the one of rank 0 and
      any outside the process grid) as it was. */
  lemma {:induction false} CollectRouting<T>(shape: Shape, slots: map<Coord, GridImage<T>>, inbox: Inbox<T>, k: nat)
    requires shape.Valid() && k <= shape.Size() && AllValid(slots)
    ensures var r := Collect(shape, slots, inbox, k);
      r.ok <==> forall j :: 1 <= j < k ==> CoordOf(shape, j) in slots && Arrived(slots[CoordOf(shape, j)], inbox, j).Some?
    ensures var r := Collect(shape, slots, inbox, k);
      r.ok ==> && r.slots.Keys == slots.Keys
               && (forall c :: c in slots && Routed(shape, c, k) ==> Arrived(slots[c], inbox, RankOf(shape, c)) == Some(r.slots[c]))
               && (forall c :: c in slots && !Routed(shape, c, k) ==> r.slots[c] == slots[c])
    decreases k
  {
    if k > 1 {
      CollectRouting(shape, slots, inbox, k - 1);
      RoutingStep(shape, slots, inbox, Collect(shape, slots, inbox, k - 1), k - 1);
    }
  }

  /** One iteration keeps the routing property of CollectRouting, one rank
      further. */
  lemma RoutingStep<T>(shape: Shape, slots: map<Coord, GridImage<T>>, inbox: Inbox<T>, prev: Collected<T>, j: nat)
    requires shape.Valid() && 1 <= j < shape.Size() && AllValid(slots) && AllValid(prev.slots)
    requires prev.ok <==> forall i :: 1 <= i < j ==> CoordOf(shape, i) in slots && Arrived(slots[CoordOf(shape, i)], inbox, i).Some?
    requires prev.ok ==>
      && prev.slots.Keys == slots.Keys
      && (forall c :: c in slots && Routed(shape, c, j) ==> Arrived(slots[c], inbox, RankOf(shape, c)) == Some(prev.slots[c]))
      && (forall c :: c in slots && !Routed(shape, c, j) ==> prev.slots[c] == slots[c])
    ensures var r := ReceiveFrom(shape, prev, inbox, j);
      r.ok <==> forall i :: 1 <= i < j + 1 ==> CoordOf(shape, i) in slots && Arrived(slots[CoordOf(shape, i)], inbox, i).Some?
    ensures var r := ReceiveFrom(shape, prev, inbox, j);
      r.ok ==> && r.slots.Keys == slots.Keys
               && (forall c :: c in slots && Routed(shape, c, j + 1) ==> Arrived(slots[c], inbox, RankOf(shape, c)) == Some(r.slots[c]))
               && (forall c :: c in slots && !Routed(shape, c, j + 1) ==> r.slots[c] == slots[c])
  {
    var c := CoordOf(shape, j);
    if prev.ok && c in slots {
      assert !Routed(shape, c, j);
      var r := ReceiveFrom(shape, prev, inbox, j);
      if r.ok {
        forall d | d in slots && Routed(shape, d, j + 1)
          ensures Arrived(slots[d], inbox, RankOf(shape, d)) == Some(r.slots[d])
        {
          if d != c && RankOf(shape, d) == j {
            RankOfInjective(shape, c, d);
          }
        }
      }
    }
  }

  /** Slot c receives from some rank among 1 .. k - 1: the rank at its
      coordinates. */
  predicate Routed(shape: Shape, c: Coord, k: nat)
    requires shape.Valid()
  {
    shape.Contains(c) && 1 <= RankOf(shape, c) < k
  }

  /** The round trip of the results: when every rank i in 1 .. size - 1
      ran heatsim_send_result on a result grid and rank 0 holds a slot of
      the same shape at the coordinates of i, heatsim_receive_results
      returns 0 and each such slot then holds exactly the result of i. */
  lemma CollectionRoundTrip<T>(shape: Shape, slots: map<Coord, GridImage<T>>,
                               results: seq<GridImage<T>>, traces: seq<seq<Event<T>>>)
    requires shape.Valid() && |results| == shape.Size() && |traces| == |results| && AllValid(slots)
    requires forall i :: 1 <= i < |results| ==>
      && results[i].Valid() && results[i].shape.padding == 0
      && CoordOf(shape, i) in slots && slots[CoordOf(shape, i)].shape == results[i].shape
      && traces[i] == SendResult(results[i])
    ensures var r := Collect(shape, slots, NetworkInbox(traces, 0), shape.Size());
      && r.ok
      && forall i :: 1 <= i < |results| ==> CoordOf(shape, i) in r.slots && r.slots[CoordOf(shape, i)] == results[i]
  {
    var inbox := NetworkInbox(traces, 0);
    forall j | 1 <= j < |results|
      ensures Arrived(slots[CoordOf(shape, j)], inbox, j) == Some(results[j])
    {
      ResultArrives(slots[CoordOf(shape, j)], results[j], traces, j);
    }
    CollectRouting(shape, slots, inbox, shape.Size());
    var r := Collect(shape, slots, inbox, shape.Size());
    forall i | 1 <= i < |results|
      ensures CoordOf(shape, i) in r.slots && r.slots[CoordOf(shape, i)] == results[i]
    {
      assert Routed(shape, CoordOf(shape, i), shape.Size());
    }
  }

  /** The result a rank sends arrives whole in a slot of its shape. */
  lemma ResultArrives<T>(slot: GridImage<T>, g: GridImage<T>, traces: seq<seq<Event<T>>>, j: nat)
    requires slot.Valid() && g.Valid() && g.shape.padding == 0 && slot.shape == g.shape
    requires j < |traces| && traces[j] == SendResult(g)
    ensures Arrived(slot, NetworkInbox(traces, 0), j) == Some(g)
  {
    ResultLayout(g.shape);
    assert g.data[..g.shape.width * g.shape.height] == g.data;
    assert NetworkInbox(traces, 0)(j, 6) == Some(Cells(g.data));
    LandAll(g.data, slot.data);
  }
}
