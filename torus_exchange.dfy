/** The exchange over the whole torus: every process performs
    heatsim_exchange_borders on its own grid, and each receive is answered by
    the matching send of the neighbour. Then every padding strip holds the
    facing border of the neighbour on that side, as the picture in the
    documentation of heatsim_exchange_borders shows. */
module TorusExchange {
  import opened Options
  import opened Torus
  import opened Topology
  import opened Transport
  import opened Grids
  import opened HaloExchange

  /** A configuration the exchange is meant for: one grid with a one-cell
      padding per process; along dimension 0 neighbouring grids are equally
      tall and along dimension 1 equally wide, so every strip fits the
      border it receives. */
  predicate Compatible<T>(shape: Shape, imgs: seq<GridImage<T>>) {
    && shape.Valid()
    && |imgs| == shape.Size()
    && (forall q :: 0 <= q < |imgs| ==> imgs[q].Valid() && imgs[q].shape.HasHalo())
    && (forall q :: 0 <= q < |imgs| ==> Facing(shape, imgs, q))
  }

  /** The grids of q's west and east neighbours are as tall as q's, those
      of its north and south neighbours as wide. */
  predicate Facing<T>(shape: Shape, imgs: seq<GridImage<T>>, q: nat)
    requires shape.Valid() && |imgs| == shape.Size() && q < |imgs|
  {
    && imgs[Neighbor(shape, q, West)].shape.height == imgs[q].shape.height
    && imgs[Neighbor(shape, q, East)].shape.height == imgs[q].shape.height
    && imgs[Neighbor(shape, q, North)].shape.width == imgs[q].shape.width
    && imgs[Neighbor(shape, q, South)].shape.width == imgs[q].shape.width
  }

  /** What every process sends and receives when all receives are answered. */
  function Scripts<T>(shape: Shape, imgs: seq<GridImage<T>>): (r: seq<seq<Event<T>>>)
    requires Compatible(shape, imgs)
    ensures |r| == |imgs|
  {
    seq(|imgs|, q requires 0 <= q < |imgs| => Script(TopologyOf(shape, q), imgs[q]))
  }

  /** The inbox of process q: the messages the scripts address to it. */
  function Network<T>(shape: Shape, imgs: seq<GridImage<T>>, q: nat): Inbox<T>
    requires Compatible(shape, imgs)
  {
    NetworkInbox(Scripts(shape, imgs), q)
  }

  /** The tag of the message a strip is filled from. */
  function TagInto(side: Side): nat {
    match side
    case West => 2
    case East => 3
    case North => 4
    case South => 5
  }

  /** The padding the documentation promises to process q: west strip from
      the west neighbour's east border, east strip from the east neighbour's
      west border, north strip from the north neighbour's south border and
      south strip from the south neighbour's north border. */
  function Expected<T>(shape: Shape, imgs: seq<GridImage<T>>, q: nat): (h: Halo<T>)
    requires Compatible(shape, imgs) && q < |imgs|
    ensures h.Fits(imgs[q].shape)
  {
    var w, e := Neighbor(shape, q, West), Neighbor(shape, q, East);
    var n, s := Neighbor(shape, q, North), Neighbor(shape, q, South);
    assert Facing(shape, imgs, q);
    Halo(Border(imgs[w], East), Border(imgs[e], West), Border(imgs[n], South), Border(imgs[s], North))
  }

  /** The X part of a script only uses tags 2 and 3, the Y part 4 and 5. */
  lemma ScriptTags<T>(t: Topology, img: GridImage<T>)
    requires img.Valid() && img.shape.HasHalo()
    ensures forall k :: 0 <= k < |XScript(t, img)| ==> XScript(t, img)[k].tag == 2 || XScript(t, img)[k].tag == 3
    ensures forall k :: 0 <= k < |YScript(t, img)| ==> YScript(t, img)[k].tag == 4 || YScript(t, img)[k].tag == 5
  {
  }

  /** When a step list sends under a tag exactly once, that send is what the
      peer it addresses gets under the tag. */
  lemma DeliveredFromSteps<T>(t: Topology, img: GridImage<T>, steps: seq<Step>, i: nat, dst: nat)
    requires img.Valid() && img.shape.HasHalo()
    requires i < |steps| && steps[i].SendBorder? && t.Peer(steps[i].side) == dst
    requires forall j :: 0 <= j < |steps| && steps[j].SendBorder? && steps[j].tag == steps[i].tag ==> j == i
    ensures Delivered(Events(t, img, steps), dst, steps[i].tag) == Some(Cells(Border(img, steps[i].side)))
  {
    var ev := Events(t, img, steps);
    var p := Cells(Border(img, steps[i].side));
    assert ev[i] == Send(dst, steps[i].tag, p);
    DeliveredUnique(ev, dst, steps[i].tag, p);
  }

  /** A process whose axis has a distinct neighbour sends, under the tag of
      each strip, its border facing that strip to the peer on the far side:
      under tag 2 its east border to its east peer, under 3 its west border
      to its west peer, under 4 its south border to its south peer and
      under 5 its north border to its north peer. */
  lemma ScriptDelivers<T>(t: Topology, img: GridImage<T>, side: Side)
    requires img.Valid() && img.shape.HasHalo()
    requires (side == West || side == East) ==> t.west != t.rank
    requires (side == North || side == South) ==> t.north != t.rank
    ensures Delivered(Script(t, img), t.Peer(side.Opposite()), TagInto(side))
            == Some(Cells(Border(img, side.Opposite())))
  {
    var xs, ys := XScript(t, img), YScript(t, img);
    var dst, tag := t.Peer(side.Opposite()), TagInto(side);
    DeliveredAppend(xs, ys, dst, tag);
    if side == West || side == East {
      XScriptDelivers(t, img, side);
    } else {
      ScriptTags(t, img);
      DeliveredNoTag(xs, dst, tag);
      YScriptDelivers(t, img, side);
    }
  }

  /** The X part of ScriptDelivers. */
  lemma XScriptDelivers<T>(t: Topology, img: GridImage<T>, side: Side)
    requires img.Valid() && img.shape.HasHalo() && t.west != t.rank
    requires side == West || side == East
    ensures Delivered(XScript(t, img), t.Peer(side.Opposite()), TagInto(side))
            == Some(Cells(Border(img, side.Opposite())))
  {
    var steps := XSteps(t.coords.x % 2 == 0);
    var i := if side == West then (if t.coords.x % 2 == 0 then 0 else 1)
             else (if t.coords.x % 2 == 0 then 2 else 3);
    assert steps[i] == SendBorder(side.Opposite(), TagInto(side));
    DeliveredFromSteps(t, img, steps, i, t.Peer(side.Opposite()));
  }

  /** The Y part of ScriptDelivers. */
  lemma YScriptDelivers<T>(t: Topology, img: GridImage<T>, side: Side)
    requires img.Valid() && img.shape.HasHalo() && t.north != t.rank
    requires side == North || side == South
    ensures Delivered(YScript(t, img), t.Peer(side.Opposite()), TagInto(side))
            == Some(Cells(Border(img, side.Opposite())))
  {
    var steps := YSteps(t.coords.y % 2 == 0);
    var i := if side == North then (if t.coords.y % 2 == 0 then 0 else 1)
             else (if t.coords.y % 2 == 0 then 2 else 3);
    assert steps[i] == SendBorder(side.Opposite(), TagInto(side));
    DeliveredFromSteps(t, img, steps, i, t.Peer(side.Opposite()));
  }

  /** The neighbour on a side sends process q its facing border under the
      tag of that side's strip, as soon as the axis has more than one
      process. */
  lemma SentTo<T>(shape: Shape, imgs: seq<GridImage<T>>, q: nat, side: Side)
    requires Compatible(shape, imgs) && q < |imgs|
    requires (side == West || side == East) ==> 1 < shape.dimX
    requires (side == North || side == South) ==> 1 < shape.dimY
    ensures var p := Neighbor(shape, q, side);
      Network(shape, imgs, q)(p, TagInto(side)) == Some(Cells(Border(imgs[p], side.Opposite())))
  {
    var p := Neighbor(shape, q, side);
    var tp := TopologyOf(shape, p);
    NeighborSymmetric(shape, q, side);
    SelfNeighbor(shape, p);
    assert tp.Peer(side.Opposite()) == q;
    assert Scripts(shape, imgs)[p] == Script(tp, imgs[p]);
    ScriptDelivers(tp, imgs[p], side);
  }

  /** A run in which every receive is answered, and in which step i is the
      only receive into its strip, leaves in that strip the cells step i
      received, when they fill it. */
  lemma {:induction false} RunReceivesOnce<T>(t: Topology, img: GridImage<T>, inbox: Inbox<T>, steps: seq<Step>,
                                               halo: Halo<T>, i: nat, cells: seq<T>)
    requires img.Valid() && img.shape.HasHalo() && halo.Fits(img.shape)
    requires i < |steps| && steps[i].ReceiveStrip?
    requires forall j :: 0 <= j < |steps| ==> StepAccepts(t, img.shape, inbox, steps[j])
    requires forall j :: 0 <= j < |steps| && j != i && steps[j].ReceiveStrip? ==> steps[j].side != steps[i].side
    requires Accept(inbox, t.Peer(steps[i].side), steps[i].tag, img.shape.SideLength(steps[i].side)) == Some(cells)
    requires |cells| == img.shape.SideLength(steps[i].side)
    ensures Run(t, img, inbox, steps, halo).halo.Get(steps[i].side) == cells
    decreases |steps|
  {
    var side := steps[i].side;
    var next := StepHalo(t, img, inbox, steps[0], halo).value;
    if i == 0 {
      LandAll(cells, halo.Get(side));
      assert next.Get(side) == cells;
      assert forall j :: 0 <= j < |steps[1..]| ==> steps[1..][j] == steps[j + 1];
      assert !ReceivesInto(steps[1..], side);
      RunKeeps(t, img, inbox, steps[1..], next, side);
    } else {
      assert steps[1..][i - 1] == steps[i];
      forall j | 0 <= j < |steps[1..]| ensures StepAccepts(t, img.shape, inbox, steps[1..][j]) {
        assert steps[1..][j] == steps[j + 1];
      }
      forall j | 0 <= j < |steps[1..]| && j != i - 1 && steps[1..][j].ReceiveStrip?
        ensures steps[1..][j].side != side
      {
        assert steps[1..][j] == steps[j + 1];
      }
      RunReceivesOnce(t, img, inbox, steps[1..], next, i - 1, cells);
    }
  }

  /** An X axis whose two receives are answered with full columns succeeds
      and leaves those columns in the west and east strips. */
  lemma XAxisAnswered<T>(t: Topology, img: GridImage<T>, inbox: Inbox<T>, west: seq<T>, east: seq<T>)
    requires img.Valid() && img.shape.HasHalo() && t.west != t.rank
    requires inbox(t.west, 2) == Some(Cells(west)) && |west| == img.shape.height
    requires inbox(t.east, 3) == Some(Cells(east)) && |east| == img.shape.height
    ensures var x := XPhase(t, img, inbox); x.ok && x.halo.west == west && x.halo.east == east
  {
    var even := t.coords.x % 2 == 0;
    var steps := XSteps(even);
    var h0 := PaddingOf(img);
    RunTrace(t, img, inbox, steps, h0);
    RunReceivesOnce(t, img, inbox, steps, h0, if even then 1 else 0, west);
    RunReceivesOnce(t, img, inbox, steps, h0, if even then 3 else 2, east);
  }

  /** A Y axis whose two receives are answered with full rows succeeds and
      leaves those rows in the north and south strips. */
  lemma YAxisAnswered<T>(t: Topology, img: GridImage<T>, inbox: Inbox<T>, halo: Halo<T>, north: seq<T>, south: seq<T>)
    requires img.Valid() && img.shape.HasHalo() && halo.Fits(img.shape) && t.north != t.rank
    requires inbox(t.north, 4) == Some(Cells(north)) && |north| == img.shape.width
    requires inbox(t.south, 5) == Some(Cells(south)) && |south| == img.shape.width
    ensures var y := YPhase(t, img, inbox, halo); y.ok && y.halo.north == north && y.halo.south == south
  {
    var even := t.coords.y % 2 == 0;
    var steps := YSteps(even);
    RunTrace(t, img, inbox, steps, halo);
    RunReceivesOnce(t, img, inbox, steps, halo, if even then 1 else 0, north);
    RunReceivesOnce(t, img, inbox, steps, halo, if even then 3 else 2, south);
  }

  /** Along X every process ends with the west strip holding its west
      neighbour's east border and the east strip its east neighbour's west
      border, whether it exchanged messages or copied. */
  lemma XAxisDelivers<T>(shape: Shape, imgs: seq<GridImage<T>>, q: nat)
    requires Compatible(shape, imgs) && q < |imgs|
    ensures var x := XPhase(TopologyOf(shape, q), imgs[q], Network(shape, imgs, q));
      && x.ok
      && x.halo.west == Border(imgs[Neighbor(shape, q, West)], East)
      && x.halo.east == Border(imgs[Neighbor(shape, q, East)], West)
  {
    SelfNeighbor(shape, q);
    if 1 < shape.dimX {
      XAxisExchanges(shape, imgs, q);
    } else {
      var t := TopologyOf(shape, q);
      assert t.west == t.rank;
    }
  }

  /** XAxisDelivers when the X axis has more than one process. */
  lemma XAxisExchanges<T>(shape: Shape, imgs: seq<GridImage<T>>, q: nat)
    requires Compatible(shape, imgs) && q < |imgs| && 1 < shape.dimX
    ensures var x := XPhase(TopologyOf(shape, q), imgs[q], Network(shape, imgs, q));
      && x.ok
      && x.halo.west == Border(imgs[Neighbor(shape, q, West)], East)
      && x.halo.east == Border(imgs[Neighbor(shape, q, East)], West)
  {
    var t, img := TopologyOf(shape, q), imgs[q];
    SelfNeighbor(shape, q);
    var w, e := Neighbor(shape, q, West), Neighbor(shape, q, East);
    SentTo(shape, imgs, q, West);
    SentTo(shape, imgs, q, East);
    assert Facing(shape, imgs, q);
    XAxisAnswered(t, img, Network(shape, imgs, q), Border(imgs[w], East), Border(imgs[e], West));
  }

  /** Along Y, from whatever the X axis left, the north strip ends holding
      the north neighbour's south border and the south strip the south
      neighbour's north border. */
  lemma YAxisDelivers<T>(shape: Shape, imgs: seq<GridImage<T>>, q: nat, halo: Halo<T>)
    requires Compatible(shape, imgs) && q < |imgs| && halo.Fits(imgs[q].shape)
    ensures var y := YPhase(TopologyOf(shape, q), imgs[q], Network(shape, imgs, q), halo);
      && y.ok
      && y.halo.north == Border(imgs[Neighbor(shape, q, North)], South)
      && y.halo.south == Border(imgs[Neighbor(shape, q, South)], North)
  {
    SelfNeighbor(shape, q);
    if 1 < shape.dimY {
      YAxisExchanges(shape, imgs, q, halo);
    } else {
      var t := TopologyOf(shape, q);
      assert t.north == t.rank;
    }
  }

  /** YAxisDelivers when the Y axis has more than one process. */
  lemma YAxisExchanges<T>(shape: Shape, imgs: seq<GridImage<T>>, q: nat, halo: Halo<T>)
    requires Compatible(shape, imgs) && q < |imgs| && halo.Fits(imgs[q].shape) && 1 < shape.dimY
    ensures var y := YPhase(TopologyOf(shape, q), imgs[q], Network(shape, imgs, q), halo);
      && y.ok
      && y.halo.north == Border(imgs[Neighbor(shape, q, North)], South)
      && y.halo.south == Border(imgs[Neighbor(shape, q, South)], North)
  {
    var t, img := TopologyOf(shape, q), imgs[q];
    SelfNeighbor(shape, q);
    var n, s := Neighbor(shape, q, North), Neighbor(shape, q, South);
    SentTo(shape, imgs, q, North);
    SentTo(shape, imgs, q, South);
    assert Facing(shape, imgs, q);
    YAxisAnswered(t, img, Network(shape, imgs, q), halo, Border(imgs[n], South), Border(imgs[s], North));
  }

  /** When all processes exchange over the torus, every exchange succeeds,
      makes exactly the calls of its script, and leaves the padding the
      documentation promises. */
  lemma TorusExchange<T>(shape: Shape, imgs: seq<GridImage<T>>, q: nat)
    requires Compatible(shape, imgs) && q < |imgs|
    ensures var r := Exchange(TopologyOf(shape, q), imgs[q], Network(shape, imgs, q));
      && r.ok
      && r.trace == Script(TopologyOf(shape, q), imgs[q])
      && r.halo == Expected(shape, imgs, q)
  {
    var t, img, inbox := TopologyOf(shape, q), imgs[q], Network(shape, imgs, q);
    var x := XPhase(t, img, inbox);
    XAxisDelivers(shape, imgs, q);
    YAxisDelivers(shape, imgs, q, x.halo);
    YPhaseKeeps(t, img, inbox, x.halo);
    var y := YPhase(t, img, inbox, x.halo);
    assert Exchange(t, img, inbox).halo == y.halo;
    assert y.halo == Halo(y.halo.west, y.halo.east, y.halo.north, y.halo.south);
    ExchangeTrace(t, img, inbox);
  }

  /** The same, cell by cell along X: after the exchange, padding cell
      (-1, i) of process q holds cell (width - 1, i) of its west neighbour
      and (width, i) holds (0, i) of its east neighbour. */
  lemma TorusColumns<T>(shape: Shape, imgs: seq<GridImage<T>>, q: nat, i: int)
    requires Compatible(shape, imgs) && q < |imgs|
    requires 0 <= i < imgs[q].shape.height
    ensures var img := imgs[q];
      var r := WithPadding(img, Exchange(TopologyOf(shape, q), img, Network(shape, imgs, q)).halo);
      var w, e := imgs[Neighbor(shape, q, West)], imgs[Neighbor(shape, q, East)];
      && Facing(shape, imgs, q)
      && r.Cell(-1, i) == w.Cell(w.shape.width - 1, i)
      && r.Cell(img.shape.width, i) == e.Cell(0, i)
  {
    assert Facing(shape, imgs, q);
    TorusExchange(shape, imgs, q);
    ExpectedColumns(shape, imgs, q, i);
  }

  /** Padding column cells under the promised halo. */
  lemma ExpectedColumns<T>(shape: Shape, imgs: seq<GridImage<T>>, q: nat, i: int)
    requires Compatible(shape, imgs) && q < |imgs|
    requires 0 <= i < imgs[q].shape.height
    ensures var img := imgs[q];
      var r := WithPadding(img, Expected(shape, imgs, q));
      var w, e := imgs[Neighbor(shape, q, West)], imgs[Neighbor(shape, q, East)];
      && Facing(shape, imgs, q)
      && r.Cell(-1, i) == w.Cell(w.shape.width - 1, i)
      && r.Cell(img.shape.width, i) == e.Cell(0, i)
  {
    assert Facing(shape, imgs, q);
    ColumnCells(imgs[q], Expected(shape, imgs, q), imgs[Neighbor(shape, q, West)], imgs[Neighbor(shape, q, East)], i);
  }

  /** The same, cell by cell along Y: padding cell (i, -1) of process q
      holds cell (i, height - 1) of its north neighbour and (i, height)
      holds (i, 0) of its south neighbour. */
  lemma TorusRows<T>(shape: Shape, imgs: seq<GridImage<T>>, q: nat, i: int)
    requires Compatible(shape, imgs) && q < |imgs|
    requires 0 <= i < imgs[q].shape.width
    ensures var img := imgs[q];
      var r := WithPadding(img, Exchange(TopologyOf(shape, q), img, Network(shape, imgs, q)).halo);
      var n, s := imgs[Neighbor(shape, q, North)], imgs[Neighbor(shape, q, South)];
      && Facing(shape, imgs, q)
      && r.Cell(i, -1) == n.Cell(i, n.shape.height - 1)
      && r.Cell(i, img.shape.height) == s.Cell(i, 0)
  {
    assert Facing(shape, imgs, q);
    TorusExchange(shape, imgs, q);
    ExpectedRows(shape, imgs, q, i);
  }

  /** Padding row cells under the promised halo. */
  lemma ExpectedRows<T>(shape: Shape, imgs: seq<GridImage<T>>, q: nat, i: int)
    requires Compatible(shape, imgs) && q < |imgs|
    requires 0 <= i < imgs[q].shape.width
    ensures var img := imgs[q];
      var r := WithPadding(img, Expected(shape, imgs, q));
      var n, s := imgs[Neighbor(shape, q, North)], imgs[Neighbor(shape, q, South)];
      && Facing(shape, imgs, q)
      && r.Cell(i, -1) == n.Cell(i, n.shape.height - 1)
      && r.Cell(i, img.shape.height) == s.Cell(i, 0)
  {
    assert Facing(shape, imgs, q);
    RowCells(imgs[q], Expected(shape, imgs, q), imgs[Neighbor(shape, q, North)], imgs[Neighbor(shape, q, South)], i);
  }

  /** The step of the neighbour that answers a step: a send is answered by
      the receive into the opposite strip under the same tag, and a receive
      by the send of the opposite border. */
  function Flip(step: Step): Step {
    match step
    case SendBorder(side, tag) => ReceiveStrip(side.Opposite(), tag)
    case ReceiveStrip(side, tag) => SendBorder(side.Opposite(), tag)
  }

  /** Whatever the two parities, each step of an axis script has its answer
      in the script of the neighbour: at the other position of the same tag
      when the parities agree, at the same position when they differ. */
  lemma AxisPartner(a: bool, b: bool, i: nat) returns (j: nat)
    requires i < 4
    ensures j < 4
    ensures XSteps(b)[j] == Flip(XSteps(a)[i]) && YSteps(b)[j] == Flip(YSteps(a)[i])
  {
    j := if a != b then i else if i % 2 == 0 then i + 1 else i - 1;
  }

  /** Event `ep` of process `q`'s peer answers event `e` of q: a receive
      from q under the tag for a send, a send to q under the tag for a
      receive. */
  predicate Answers<T>(e: Event<T>, ep: Event<T>, q: nat) {
    && (e.Send? ==> ep == Recv(q, e.tag))
    && (e.Recv? ==> IsSendTo(ep, q, e.tag))
  }

  /** The flipped step, performed by the peer that faces back, answers the
      step. */
  lemma StepAnswered<T>(t: Topology, img: GridImage<T>, tp: Topology, imgp: GridImage<T>, step: Step)
    requires img.Valid() && img.shape.HasHalo() && imgp.Valid() && imgp.shape.HasHalo()
    requires tp.Peer(step.side.Opposite()) == t.rank
    ensures Answers(StepEvent(t, img, step), StepEvent(tp, imgp, Flip(step)), t.rank)
  {
  }

  /** Along X, call k of a process is answered by some call of the peer it
      addresses, provided that peer faces back and exchanges along X too. */
  lemma XAnswered<T>(t: Topology, img: GridImage<T>, tp: Topology, imgp: GridImage<T>, k: nat) returns (j: nat)
    requires img.Valid() && img.shape.HasHalo() && imgp.Valid() && imgp.shape.HasHalo()
    requires t.west != t.rank && tp.west != tp.rank && k < |XScript(t, img)|
    requires tp.Peer(XSteps(t.coords.x % 2 == 0)[k].side.Opposite()) == t.rank
    ensures j < |XScript(tp, imgp)| && Answers(XScript(t, img)[k], XScript(tp, imgp)[j], t.rank)
  {
    var step := XSteps(t.coords.x % 2 == 0)[k];
    j := AxisPartner(t.coords.x % 2 == 0, tp.coords.x % 2 == 0, k);
    StepAnswered(t, img, tp, imgp, step);
  }

  /** The same along Y. */
  lemma YAnswered<T>(t: Topology, img: GridImage<T>, tp: Topology, imgp: GridImage<T>, k: nat) returns (j: nat)
    requires img.Valid() && img.shape.HasHalo() && imgp.Valid() && imgp.shape.HasHalo()
    requires t.north != t.rank && tp.north != tp.rank && k < |YScript(t, img)|
    requires tp.Peer(YSteps(t.coords.y % 2 == 0)[k].side.Opposite()) == t.rank
    ensures j < |YScript(tp, imgp)| && Answers(YScript(t, img)[k], YScript(tp, imgp)[j], t.rank)
  {
    var step := YSteps(t.coords.y % 2 == 0)[k];
    j := AxisPartner(t.coords.y % 2 == 0, tp.coords.y % 2 == 0, k);
    StepAnswered(t, img, tp, imgp, step);
  }

  /** Call k of process q is answered by some call of the peer it
      addresses, whatever grids the two hold. */
  lemma ScriptAnswered<T>(shape: Shape, q: nat, img: GridImage<T>, p: nat, imgp: GridImage<T>, k: nat) returns (j: nat)
    requires shape.Valid() && q < shape.Size() && p < shape.Size()
    requires img.Valid() && img.shape.HasHalo() && imgp.Valid() && imgp.shape.HasHalo()
    requires k < |Script(TopologyOf(shape, q), img)| && Script(TopologyOf(shape, q), img)[k].peer == p
    ensures j < |Script(TopologyOf(shape, p), imgp)|
    ensures Answers(Script(TopologyOf(shape, q), img)[k], Script(TopologyOf(shape, p), imgp)[j], q)
  {
    if k < |XScript(TopologyOf(shape, q), img)| {
      j := XCallAnswered(shape, q, img, p, imgp, k);
    } else {
      j := YCallAnswered(shape, q, img, p, imgp, k);
    }
  }

  /** ScriptAnswered for a call of the X part. */
  lemma XCallAnswered<T>(shape: Shape, q: nat, img: GridImage<T>, p: nat, imgp: GridImage<T>, k: nat) returns (j: nat)
    requires shape.Valid() && q < shape.Size() && p < shape.Size()
    requires img.Valid() && img.shape.HasHalo() && imgp.Valid() && imgp.shape.HasHalo()
    requires k < |XScript(TopologyOf(shape, q), img)| && XScript(TopologyOf(shape, q), img)[k].peer == p
    ensures j < |Script(TopologyOf(shape, p), imgp)|
    ensures Answers(Script(TopologyOf(shape, q), img)[k], Script(TopologyOf(shape, p), imgp)[j], q)
  {
    var t, tp := TopologyOf(shape, q), TopologyOf(shape, p);
    var xs, xsp := XScript(t, img), XScript(tp, imgp);
    assert Script(t, img)[k] == xs[k];
    assert t.west != t.rank;
    var side := XSteps(t.coords.x % 2 == 0)[k].side;
    t.PeerIsNeighbor(side);
    NeighborSymmetric(shape, q, side);
    tp.PeerIsNeighbor(side.Opposite());
    SelfNeighbor(shape, q);
    SelfNeighbor(shape, p);
    j := XAnswered(t, img, tp, imgp, k);
    assert Script(tp, imgp)[j] == xsp[j];
  }

  /** ScriptAnswered for a call of the Y part. */
  lemma YCallAnswered<T>(shape: Shape, q: nat, img: GridImage<T>, p: nat, imgp: GridImage<T>, k: nat) returns (j: nat)
    requires shape.Valid() && q < shape.Size() && p < shape.Size()
    requires img.Valid() && img.shape.HasHalo() && imgp.Valid() && imgp.shape.HasHalo()
    requires var xs := XScript(TopologyOf(shape, q), img);
      |xs| <= k < |Script(TopologyOf(shape, q), img)| && Script(TopologyOf(shape, q), img)[k].peer == p
    ensures j < |Script(TopologyOf(shape, p), imgp)|
    ensures Answers(Script(TopologyOf(shape, q), img)[k], Script(TopologyOf(shape, p), imgp)[j], q)
  {
    var t, tp := TopologyOf(shape, q), TopologyOf(shape, p);
    var xs, ys := XScript(t, img), YScript(t, img);
    var i := k - |xs|;
    assert Script(t, img)[k] == ys[i];
    assert t.north != t.rank;
    var side := YSteps(t.coords.y % 2 == 0)[i].side;
    t.PeerIsNeighbor(side);
    NeighborSymmetric(shape, q, side);
    tp.PeerIsNeighbor(side.Opposite());
    SelfNeighbor(shape, q);
    SelfNeighbor(shape, p);
    var jy := YAnswered(t, img, tp, imgp, i);
    j := |XScript(tp, imgp)| + jy;
    assert Script(tp, imgp)[j] == YScript(tp, imgp)[jy];
  }

  /** Every call in a script is answered in the script of its peer: a send
      to p under tag t by a receive at p from this process under t, and a
      receive from p under t by a send of p to this process under t. */
  lemma ScriptMatching<T>(shape: Shape, imgs: seq<GridImage<T>>, q: nat, k: nat)
    requires Compatible(shape, imgs) && q < |imgs| && k < |Scripts(shape, imgs)[q]|
    ensures var scripts := Scripts(shape, imgs);
      var e := scripts[q][k];
      && e.peer < |imgs|
      && (e.Send? ==> Recv(q, e.tag) in scripts[e.peer])
      && (e.Recv? ==> exists j :: 0 <= j < |scripts[e.peer]| && IsSendTo(scripts[e.peer][j], q, e.tag))
  {
    var scripts := Scripts(shape, imgs);
    var e: Event<T> := scripts[q][k];
    assert scripts[q] == Script(TopologyOf(shape, q), imgs[q]);
    PeerInRange(TopologyOf(shape, q), imgs[q], k);
    var p := e.peer;
    var j := ScriptAnswered(shape, q, imgs[q], p, imgs[p], k);
    assert scripts[p] == Script(TopologyOf(shape, p), imgs[p]);
    assert Answers(e, scripts[p][j], q);
  }

  /** Every call of a script addresses a rank of the grid. */
  lemma PeerInRange<T>(t: Topology, img: GridImage<T>, k: nat)
    requires t.Valid() && img.Valid() && img.shape.HasHalo() && k < |Script(t, img)|
    ensures Script(t, img)[k].peer < t.rankCount
  {
    var xs := XScript(t, img);
    if k < |xs| {
      assert Script(t, img)[k] == xs[k];
    } else {
      assert Script(t, img)[k] == YScript(t, img)[k - |xs|];
    }
  }
}
