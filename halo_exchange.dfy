/** heatsim_exchange_borders: every process sends the four logical borders of
    its grid to its neighbours and receives theirs into its padding strips.

    Along an axis with a distinct neighbour the process performs four
    blocking calls whose order depends on the parity of its coordinate along
    that axis; along an axis where it is its own neighbour it copies its
    borders into its own padding with a loop. The X axis (tags 2 and 3) comes
    before the Y axis (tags 4 and 5). The first failed receive ends the
    exchange with -1; a receive no message answers, on which the program
    would block forever, counts as failed (see `Transport.Accept`). */
module HaloExchange {
  import opened Options
  import opened Torus
  import opened Topology
  import opened Transport
  import opened Grids
  import RowMajor

  /** One blocking call of an axis: send the logical border on `side` to the
      neighbour on that side, or receive the padding strip on `side` from
      that neighbour. Columns travel as MPI_Type_vector(height, 1,
      width_padded), rows as `width` contiguous cells. */
  datatype Step = SendBorder(side: Side, tag: nat) | ReceiveStrip(side: Side, tag: nat)

  /** The X axis: an even x sends its east border, receives its west strip,
      sends its west border and receives its east strip (tags 2, 2, 3, 3);
      an odd x swaps each send with the receive next to it. */
  function XSteps(even: bool): (r: seq<Step>)
    ensures |r| == 4
    ensures forall i :: 0 <= i < 4 ==> r[i].tag == 2 + i / 2 && (r[i].SendBorder? <==> (i % 2 == 0) == even)
    ensures forall i :: 0 <= i < 4 ==> (r[i].side == East || r[i].side == West) && (r[i].side == East <==> r[i].SendBorder? == (r[i].tag == 2))
  {
    if even then [SendBorder(East, 2), ReceiveStrip(West, 2), SendBorder(West, 3), ReceiveStrip(East, 3)]
    else [ReceiveStrip(West, 2), SendBorder(East, 2), ReceiveStrip(East, 3), SendBorder(West, 3)]
  }

  /** The Y axis: the same pattern with south and north and tags 4 and 5. */
  function YSteps(even: bool): (r: seq<Step>)
    ensures |r| == 4
    ensures forall i :: 0 <= i < 4 ==> r[i].tag == 4 + i / 2 && (r[i].SendBorder? <==> (i % 2 == 0) == even)
    ensures forall i :: 0 <= i < 4 ==> (r[i].side == South || r[i].side == North) && (r[i].side == South <==> r[i].SendBorder? == (r[i].tag == 4))
  {
    if even then [SendBorder(South, 4), ReceiveStrip(North, 4), SendBorder(North, 5), ReceiveStrip(South, 5)]
    else [ReceiveStrip(North, 4), SendBorder(South, 4), ReceiveStrip(South, 5), SendBorder(North, 5)]
  }

  /** The transport event of a step; a send carries the border of the grid. */
  function StepEvent<T>(t: Topology, img: GridImage<T>, step: Step): (e: Event<T>)
    requires img.Valid() && img.shape.HasHalo()
    ensures e.peer == t.Peer(step.side) && e.tag == step.tag && (e.Send? <==> step.SendBorder?)
  {
    match step
    case SendBorder(side, tag) => Send(t.Peer(side), tag, Cells(Border(img, side)))
    case ReceiveStrip(side, tag) => Recv(t.Peer(side), tag)
  }

  /** The events of a sequence of steps, in order. */
  function Events<T>(t: Topology, img: GridImage<T>, steps: seq<Step>): (r: seq<Event<T>>)
    requires img.Valid() && img.shape.HasHalo()
    ensures |r| == |steps|
  {
    seq(|steps|, i requires 0 <= i < |steps| => StepEvent(t, img, steps[i]))
  }

  /** A send always goes through; a receive needs a message of cells from the
      neighbour under the tag, no longer than the strip. */
  predicate StepAccepts<T>(t: Topology, shape: GridShape, inbox: Inbox<T>, step: Step) {
    step.SendBorder? || Accept(inbox, t.Peer(step.side), step.tag, shape.SideLength(step.side)).Some?
  }

  /** The halo after a step, or None when its receive fails. A received
      message overwrites a prefix of the strip. */
  function StepHalo<T>(t: Topology, img: GridImage<T>, inbox: Inbox<T>, step: Step, halo: Halo<T>): (r: Option<Halo<T>>)
    requires img.Valid() && img.shape.HasHalo() && halo.Fits(img.shape)
    ensures r.Some? <==> StepAccepts(t, img.shape, inbox, step)
    ensures r.Some? ==> r.value.Fits(img.shape)
  {
    match step
    case SendBorder(_, _) => Some(halo)
    case ReceiveStrip(side, tag) =>
      match Accept(inbox, t.Peer(side), tag, img.shape.SideLength(side))
      case None => None
      case Some(cells) => Some(halo.With(side, Land(cells, halo.Get(side))))
  }

  /** Some step of the sequence receives into the strip on `side`. */
  predicate ReceivesInto(steps: seq<Step>, side: Side) {
    exists i :: 0 <= i < |steps| && steps[i].ReceiveStrip? && steps[i].side == side
  }

  /** What an exchange leaves: whether it succeeded, the padding strips it
      produced, and the calls it made. */
  datatype Outcome<T> = Outcome(ok: bool, halo: Halo<T>, trace: seq<Event<T>>)

  /** Performing the steps in order from `halo`, stopping at the first failed
      receive. */
  function Run<T>(t: Topology, img: GridImage<T>, inbox: Inbox<T>, steps: seq<Step>, halo: Halo<T>): (r: Outcome<T>)
    requires img.Valid() && img.shape.HasHalo() && halo.Fits(img.shape)
    ensures r.halo.Fits(img.shape)
    decreases |steps|
  {
    if steps == [] then Outcome(true, halo, [])
    else
      var e := StepEvent(t, img, steps[0]);
      match StepHalo(t, img, inbox, steps[0], halo)
      case None => Outcome(false, halo, [e])
      case Some(next) =>
        var rest := Run(t, img, inbox, steps[1..], next);
        Outcome(rest.ok, rest.halo, [e] + rest.trace)
  }

  /** A run succeeds exactly when every receive is answered; then its trace
      is the whole script, and otherwise the script up to and including the
      first receive that is not answered. */
  lemma RunTrace<T>(t: Topology, img: GridImage<T>, inbox: Inbox<T>, steps: seq<Step>, halo: Halo<T>)
    requires img.Valid() && img.shape.HasHalo() && halo.Fits(img.shape)
    ensures var r := Run(t, img, inbox, steps, halo);
      r.ok <==> forall i :: 0 <= i < |steps| ==> StepAccepts(t, img.shape, inbox, steps[i])
    ensures var r := Run(t, img, inbox, steps, halo);
      r.ok ==> r.trace == Events(t, img, steps)
    ensures var r := Run(t, img, inbox, steps, halo);
      !r.ok ==> && 0 < |r.trace| <= |steps|
                && r.trace == Events(t, img, steps)[..|r.trace|]
                && !StepAccepts(t, img.shape, inbox, steps[|r.trace| - 1])
                && r.trace[|r.trace| - 1].Recv?
  {
    RunOk(t, img, inbox, steps, halo);
    RunEvents(t, img, inbox, steps, halo);
  }

  /** A run succeeds exactly when every receive is answered. */
  lemma {:induction false} RunOk<T>(t: Topology, img: GridImage<T>, inbox: Inbox<T>, steps: seq<Step>, halo: Halo<T>)
    requires img.Valid() && img.shape.HasHalo() && halo.Fits(img.shape)
    ensures Run(t, img, inbox, steps, halo).ok <==> forall i :: 0 <= i < |steps| ==> StepAccepts(t, img.shape, inbox, steps[i])
    decreases |steps|
  {
    if steps != [] {
      var next := StepHalo(t, img, inbox, steps[0], halo);
      if next.Some? {
        RunOk(t, img, inbox, steps[1..], next.value);
        assert forall i :: 0 < i < |steps| ==> steps[i] == steps[1..][i - 1];
      }
    }
  }

  /** The trace of a run: the whole script on success, otherwise the
      script up to and including the receive that is not answered. */
  lemma {:induction false} RunEvents<T>(t: Topology, img: GridImage<T>, inbox: Inbox<T>, steps: seq<Step>, halo: Halo<T>)
    requires img.Valid() && img.shape.HasHalo() && halo.Fits(img.shape)
    ensures var r := Run(t, img, inbox, steps, halo);
      r.ok ==> r.trace == Events(t, img, steps)
    ensures var r := Run(t, img, inbox, steps, halo);
      !r.ok ==> && 0 < |r.trace| <= |steps|
                && r.trace == Events(t, img, steps)[..|r.trace|]
                && !StepAccepts(t, img.shape, inbox, steps[|r.trace| - 1])
                && r.trace[|r.trace| - 1].Recv?
    decreases |steps|
  {
    if steps != [] {
      EventsCons(t, img, steps);
      var next := StepHalo(t, img, inbox, steps[0], halo);
      if next.Some? {
        RunEvents(t, img, inbox, steps[1..], next.value);
        var rest := Run(t, img, inbox, steps[1..], next.value);
        if !rest.ok {
          assert steps[|rest.trace|] == steps[1..][|rest.trace| - 1];
        }
      }
    }
  }

  /** A run leaves alone every strip none of its steps receives into. */
  lemma {:induction false} RunKeeps<T>(t: Topology, img: GridImage<T>, inbox: Inbox<T>, steps: seq<Step>, halo: Halo<T>, side: Side)
    requires img.Valid() && img.shape.HasHalo() && halo.Fits(img.shape)
    requires !ReceivesInto(steps, side)
    ensures Run(t, img, inbox, steps, halo).halo.Get(side) == halo.Get(side)
    decreases |steps|
  {
    if steps != [] {
      ReceivesIntoCons(steps);
      var next := StepHalo(t, img, inbox, steps[0], halo);
      if next.Some? {
        RunKeeps(t, img, inbox, steps[1..], next.value, side);
      }
    }
  }

  /** The calls a run makes are those of its first steps. */
  lemma RunPrefix<T>(t: Topology, img: GridImage<T>, inbox: Inbox<T>, steps: seq<Step>, halo: Halo<T>)
    requires img.Valid() && img.shape.HasHalo() && halo.Fits(img.shape)
    ensures var r := Run(t, img, inbox, steps, halo);
      |r.trace| <= |steps| && forall k :: 0 <= k < |r.trace| ==> r.trace[k] == StepEvent(t, img, steps[k])
  {
    RunTrace(t, img, inbox, steps, halo);
    var r := Run(t, img, inbox, steps, halo);
    assert forall k :: 0 <= k < |r.trace| ==> r.trace[k] == Events(t, img, steps)[k];
  }

  /** The events of a non-empty script are its first event followed by the
      events of the rest. */
  lemma EventsCons<T>(t: Topology, img: GridImage<T>, steps: seq<Step>)
    requires img.Valid() && img.shape.HasHalo() && steps != []
    ensures Events(t, img, steps) == [StepEvent(t, img, steps[0])] + Events(t, img, steps[1..])
  {
  }

  /** A strip is received into by a non-empty script exactly when its first
      step or the rest receives into it. */
  lemma ReceivesIntoCons(steps: seq<Step>)
    requires steps != []
    ensures forall side: Side :: ReceivesInto(steps, side) <==>
      (steps[0].ReceiveStrip? && steps[0].side == side) || ReceivesInto(steps[1..], side)
  {
    forall side: Side | ReceivesInto(steps, side)
      ensures (steps[0].ReceiveStrip? && steps[0].side == side) || ReceivesInto(steps[1..], side)
    {
      var i :| 0 <= i < |steps| && steps[i].ReceiveStrip? && steps[i].side == side;
      if i > 0 {
        assert steps[1..][i - 1] == steps[i];
      }
    }
    forall side: Side | ReceivesInto(steps[1..], side) ensures ReceivesInto(steps, side) {
      var i :| 0 <= i < |steps[1..]| && steps[1..][i].ReceiveStrip? && steps[1..][i].side == side;
      assert steps[i + 1] == steps[1..][i];
    }
  }

  /** The copy loop of a process that is its own neighbour along an axis:
      the strip on `low` gets the border on `high` and the strip on `high`
      the border on `low`. */
  function SelfCopy<T>(img: GridImage<T>, halo: Halo<T>, low: Side, high: Side): (r: Halo<T>)
    requires img.Valid() && img.shape.HasHalo() && halo.Fits(img.shape)
    requires img.shape.SideLength(low) == img.shape.SideLength(high)
    ensures r.Fits(img.shape)
    ensures r.Get(high) == Border(img, low) && (low != high ==> r.Get(low) == Border(img, high))
    ensures forall side :: side != low && side != high ==> r.Get(side) == halo.Get(side)
  {
    halo.With(low, Border(img, high)).With(high, Border(img, low))
  }

  /** The calls of the X axis when every receive is answered: none for the
      copy loop. */
  function XScript<T>(t: Topology, img: GridImage<T>): seq<Event<T>>
    requires img.Valid() && img.shape.HasHalo()
  {
    if t.west != t.rank then Events(t, img, XSteps(t.coords.x % 2 == 0)) else []
  }

  /** The calls of the Y axis when every receive is answered. */
  function YScript<T>(t: Topology, img: GridImage<T>): seq<Event<T>>
    requires img.Valid() && img.shape.HasHalo()
  {
    if t.north != t.rank then Events(t, img, YSteps(t.coords.y % 2 == 0)) else []
  }

  /** The calls of an exchange in which every receive is answered. */
  function Script<T>(t: Topology, img: GridImage<T>): seq<Event<T>>
    requires img.Valid() && img.shape.HasHalo()
  {
    XScript(t, img) + YScript(t, img)
  }

  /** The X axis of the exchange: the four calls with the west and east
      peers, or the copy loop when the west peer is the process itself. */
  function XPhase<T>(t: Topology, img: GridImage<T>, inbox: Inbox<T>): (r: Outcome<T>)
    requires img.Valid() && img.shape.HasHalo()
    ensures r.halo.Fits(img.shape)
  {
    if t.west != t.rank then Run(t, img, inbox, XSteps(t.coords.x % 2 == 0), PaddingOf(img))
    else Outcome(true, SelfCopy(img, PaddingOf(img), West, East), [])
  }

  /** On success the X axis made the calls of its script, on failure a
      prefix ending in the unanswered receive. Only the west and east strips
      change, and only tags 2 and 3 are used. */
  lemma XPhaseSpec<T>(t: Topology, img: GridImage<T>, inbox: Inbox<T>)
    requires img.Valid() && img.shape.HasHalo()
    ensures var r := XPhase(t, img, inbox);
      && (r.ok ==> r.trace == XScript(t, img))
      && (!r.ok ==> 0 < |r.trace| <= |XScript(t, img)| && r.trace == XScript(t, img)[..|r.trace|]
                    && r.trace[|r.trace| - 1].Recv?)
      && r.halo.north == Padding(img, North) && r.halo.south == Padding(img, South)
      && forall k :: 0 <= k < |r.trace| ==> r.trace[k].tag == 2 || r.trace[k].tag == 3
  {
    XPhaseTrace(t, img, inbox);
    XPhaseKeeps(t, img, inbox);
    XPhaseTags(t, img, inbox);
  }

  lemma XPhaseTrace<T>(t: Topology, img: GridImage<T>, inbox: Inbox<T>)
    requires img.Valid() && img.shape.HasHalo()
    ensures var r := XPhase(t, img, inbox);
      && (r.ok ==> r.trace == XScript(t, img))
      && (!r.ok ==> 0 < |r.trace| <= |XScript(t, img)| && r.trace == XScript(t, img)[..|r.trace|]
                    && r.trace[|r.trace| - 1].Recv?)
  {
    if t.west != t.rank {
      RunTrace(t, img, inbox, XSteps(t.coords.x % 2 == 0), PaddingOf(img));
    }
  }

  lemma XPhaseKeeps<T>(t: Topology, img: GridImage<T>, inbox: Inbox<T>)
    requires img.Valid() && img.shape.HasHalo()
    ensures var r := XPhase(t, img, inbox); r.halo.north == Padding(img, North) && r.halo.south == Padding(img, South)
  {
    var steps := XSteps(t.coords.x % 2 == 0);
    if t.west != t.rank {
      assert !ReceivesInto(steps, North) && !ReceivesInto(steps, South);
      RunKeeps(t, img, inbox, steps, PaddingOf(img), North);
      RunKeeps(t, img, inbox, steps, PaddingOf(img), South);
    }
  }

  lemma XPhaseTags<T>(t: Topology, img: GridImage<T>, inbox: Inbox<T>)
    requires img.Valid() && img.shape.HasHalo()
    ensures var r := XPhase(t, img, inbox); forall k :: 0 <= k < |r.trace| ==> r.trace[k].tag == 2 || r.trace[k].tag == 3
  {
    var steps := XSteps(t.coords.x % 2 == 0);
    if t.west != t.rank {
      RunPrefix(t, img, inbox, steps, PaddingOf(img));
    }
  }

  /** The Y axis of the exchange, from the strips the X axis left: the four
      calls with the north and south peers, or the copy loop when the north
      peer is the process itself. */
  function YPhase<T>(t: Topology, img: GridImage<T>, inbox: Inbox<T>, halo: Halo<T>): (r: Outcome<T>)
    requires img.Valid() && img.shape.HasHalo() && halo.Fits(img.shape)
    ensures r.halo.Fits(img.shape)
  {
    if t.north != t.rank then Run(t, img, inbox, YSteps(t.coords.y % 2 == 0), halo)
    else Outcome(true, SelfCopy(img, halo, North, South), [])
  }

  /** On success the Y axis made the calls of its script, on failure a
      prefix ending in the unanswered receive. Only the north and south
      strips change, and only tags 4 and 5 are used. */
  lemma YPhaseSpec<T>(t: Topology, img: GridImage<T>, inbox: Inbox<T>, halo: Halo<T>)
    requires img.Valid() && img.shape.HasHalo() && halo.Fits(img.shape)
    ensures var r := YPhase(t, img, inbox, halo);
      && (r.ok ==> r.trace == YScript(t, img))
      && (!r.ok ==> 0 < |r.trace| <= |YScript(t, img)| && r.trace == YScript(t, img)[..|r.trace|]
                    && r.trace[|r.trace| - 1].Recv?)
      && r.halo.west == halo.west && r.halo.east == halo.east
      && forall k :: 0 <= k < |r.trace| ==> r.trace[k].tag == 4 || r.trace[k].tag == 5
  {
    YPhaseTrace(t, img, inbox, halo);
    YPhaseKeeps(t, img, inbox, halo);
    YPhaseTags(t, img, inbox, halo);
  }

  lemma YPhaseTrace<T>(t: Topology, img: GridImage<T>, inbox: Inbox<T>, halo: Halo<T>)
    requires img.Valid() && img.shape.HasHalo() && halo.Fits(img.shape)
    ensures var r := YPhase(t, img, inbox, halo);
      && (r.ok ==> r.trace == YScript(t, img))
      && (!r.ok ==> 0 < |r.trace| <= |YScript(t, img)| && r.trace == YScript(t, img)[..|r.trace|]
                    && r.trace[|r.trace| - 1].Recv?)
  {
    if t.north != t.rank {
      RunTrace(t, img, inbox, YSteps(t.coords.y % 2 == 0), halo);
    }
  }

  lemma YPhaseKeeps<T>(t: Topology, img: GridImage<T>, inbox: Inbox<T>, halo: Halo<T>)
    requires img.Valid() && img.shape.HasHalo() && halo.Fits(img.shape)
    ensures var r := YPhase(t, img, inbox, halo); r.halo.west == halo.west && r.halo.east == halo.east
  {
    var steps := YSteps(t.coords.y % 2 == 0);
    if t.north != t.rank {
      assert !ReceivesInto(steps, West) && !ReceivesInto(steps, East);
      RunKeeps(t, img, inbox, steps, halo, West);
      RunKeeps(t, img, inbox, steps, halo, East);
    }
  }

  lemma YPhaseTags<T>(t: Topology, img: GridImage<T>, inbox: Inbox<T>, halo: Halo<T>)
    requires img.Valid() && img.shape.HasHalo() && halo.Fits(img.shape)
    ensures var r := YPhase(t, img, inbox, halo); forall k :: 0 <= k < |r.trace| ==> r.trace[k].tag == 4 || r.trace[k].tag == 5
  {
    var steps := YSteps(t.coords.y % 2 == 0);
    if t.north != t.rank {
      RunPrefix(t, img, inbox, steps, halo);
    }
  }

  /** The whole exchange of one process whose grid holds `img` and whose
      receives are answered from `inbox`: the X axis, then, if it succeeded,
      the Y axis. */
  function Exchange<T>(t: Topology, img: GridImage<T>, inbox: Inbox<T>): (r: Outcome<T>)
    requires img.Valid() && img.shape.HasHalo()
    ensures r.halo.Fits(img.shape)
  {
    var x := XPhase(t, img, inbox);
    if !x.ok then x
    else
      var y := YPhase(t, img, inbox, x.halo);
      Outcome(y.ok, y.halo, x.trace + y.trace)
  }

  /** When the exchange succeeds it made exactly the calls of its script;
      when it fails it made a prefix of them, the last being the receive
      that was not answered. */
  lemma ExchangeTrace<T>(t: Topology, img: GridImage<T>, inbox: Inbox<T>)
    requires img.Valid() && img.shape.HasHalo()
    ensures var r := Exchange(t, img, inbox);
      r.ok ==> r.trace == Script(t, img)
    ensures var r := Exchange(t, img, inbox);
      !r.ok ==> 0 < |r.trace| <= |Script(t, img)| && r.trace == Script(t, img)[..|r.trace|]
                && r.trace[|r.trace| - 1].Recv?
  {
    var x := XPhase(t, img, inbox);
    var xs, ys := XScript(t, img), YScript(t, img);
    XPhaseTrace(t, img, inbox);
    YPhaseTrace(t, img, inbox, x.halo);
    if !x.ok {
      assert (xs + ys)[..|x.trace|] == xs[..|x.trace|];
    } else {
      var y := YPhase(t, img, inbox, x.halo);
      if !y.ok {
        assert (xs + ys)[..|xs| + |y.trace|] == xs + ys[..|y.trace|];
      }
    }
  }

  /** Only the four padding strips change: every logical cell and every
      corner of the padding keeps its value, whatever the outcome. */
  lemma ExchangeKeepsInterior<T>(t: Topology, img: GridImage<T>, inbox: Inbox<T>, x: int, y: int)
    requires img.Valid() && img.shape.HasHalo() && img.shape.InPadded(x, y) && !img.shape.OnStrip(x, y)
    ensures WithPadding(img, Exchange(t, img, inbox).halo).Cell(x, y) == img.Cell(x, y)
  {
    WithPaddingLogical(img, Exchange(t, img, inbox).halo, x, y);
  }

  /** A process that is its own west neighbour copies: for every row i, the
      west padding cell (-1, i) gets the logical cell (width - 1, i) and the
      east padding cell (width, i) gets (0, i), whatever the Y axis that
      follows does; it sends nothing along X. */
  lemma SelfCopyX<T>(t: Topology, img: GridImage<T>, inbox: Inbox<T>, i: int)
    requires img.Valid() && img.shape.HasHalo() && t.west == t.rank
    requires 0 <= i < img.shape.height
    ensures var r := Exchange(t, img, inbox);
      && WithPadding(img, r.halo).Cell(-1, i) == img.Cell(img.shape.width - 1, i)
      && WithPadding(img, r.halo).Cell(img.shape.width, i) == img.Cell(0, i)
      && forall k :: 0 <= k < |r.trace| ==> r.trace[k].tag != 2 && r.trace[k].tag != 3
  {
    SelfCopyXHalo(t, img, inbox);
    ColumnCells(img, Exchange(t, img, inbox).halo, img, img, i);
  }

  /** The strips and calls behind SelfCopyX. */
  lemma SelfCopyXHalo<T>(t: Topology, img: GridImage<T>, inbox: Inbox<T>)
    requires img.Valid() && img.shape.HasHalo() && t.west == t.rank
    ensures var r := Exchange(t, img, inbox);
      && r.halo.west == Border(img, East) && r.halo.east == Border(img, West)
      && forall k :: 0 <= k < |r.trace| ==> r.trace[k].tag != 2 && r.trace[k].tag != 3
  {
    var x := XPhase(t, img, inbox);
    assert x.ok && x.trace == [];
    assert x.halo.west == Border(img, East) && x.halo.east == Border(img, West);
    var y := YPhase(t, img, inbox, x.halo);
    YPhaseSpec(t, img, inbox, x.halo);
    assert x.trace + y.trace == y.trace;
  }

  /** A process that is its own north neighbour copies: for every column i,
      the north padding cell (i, -1) gets the logical cell (i, height - 1)
      and the south padding cell (i, height) gets (i, 0); it sends nothing
      along Y. */
  lemma SelfCopyY<T>(t: Topology, img: GridImage<T>, inbox: Inbox<T>, i: int)
    requires img.Valid() && img.shape.HasHalo() && t.north == t.rank
    requires 0 <= i < img.shape.width
    ensures var r := Exchange(t, img, inbox);
      && (r.ok ==> WithPadding(img, r.halo).Cell(i, -1) == img.Cell(i, img.shape.height - 1))
      && (r.ok ==> WithPadding(img, r.halo).Cell(i, img.shape.height) == img.Cell(i, 0))
      && forall k :: 0 <= k < |r.trace| ==> r.trace[k].tag != 4 && r.trace[k].tag != 5
  {
    SelfCopyYHalo(t, img, inbox);
    var r := Exchange(t, img, inbox);
    if r.ok {
      RowCells(img, r.halo, img, img, i);
    }
  }

  /** The strips and calls behind SelfCopyY. */
  lemma SelfCopyYHalo<T>(t: Topology, img: GridImage<T>, inbox: Inbox<T>)
    requires img.Valid() && img.shape.HasHalo() && t.north == t.rank
    ensures var r := Exchange(t, img, inbox);
      && (r.ok ==> r.halo.north == Border(img, South) && r.halo.south == Border(img, North))
      && forall k :: 0 <= k < |r.trace| ==> r.trace[k].tag != 4 && r.trace[k].tag != 5
  {
    var x := XPhase(t, img, inbox);
    XPhaseSpec(t, img, inbox);
    if x.ok {
      var y := YPhase(t, img, inbox, x.halo);
      assert y.ok && y.trace == [];
      assert x.trace + y.trace == x.trace;
    }
  }

  /** One step on the grid object: a send hands over the cells the vector or
      the row starting at the first border cell selects; a receive writes the
      accepted cells from the first strip cell on, and on failure writes
      nothing. */
  method PerformStep<T>(t: Topology, g: Grid<T>, inbox: Inbox<T>, step: Step, ghost img: GridImage<T>, ghost halo: Halo<T>)
    returns (ok: bool, e: Event<T>)
    requires g.Valid() && img.Valid() && g.shape == img.shape && img.shape.HasHalo() && halo.Fits(img.shape)
    requires g.Image() == WithPadding(img, halo)
    modifies g.data
    ensures e == StepEvent(t, img, step)
    ensures ok == StepHalo(t, img, inbox, step, halo).Some?
    ensures g.Image() == WithPadding(img, if ok then StepHalo(t, img, inbox, step, halo).value else halo)
  {
    var shape := g.shape;
    match step
    case SendBorder(side, tag) =>
      shape.SideCells(side, 0);
      var b := shape.BorderCoord(side, 0);
      VectorReadsBorder(img, halo, side);
      var cells := Vector(g.data[..], shape.Index(b.x, b.y), shape.SideLength(side), shape.SideStride(side));
      ok, e := true, Send(t.Peer(side), tag, Cells(cells));
    case ReceiveStrip(side, tag) =>
      e := Recv(t.Peer(side), tag);
      var got := Accept(inbox, t.Peer(side), tag, shape.SideLength(side));
      if got.None? {
        ok := false;
        return;
      }
      shape.SideCells(side, 0);
      var s := shape.StripCoord(side, 0);
      ScatterIntoPadding(img, halo, side, got.value);
      Scatter(g.data, shape.Index(s.x, s.y), shape.SideStride(side), got.value);
      ok := true;
  }

  /** The steps of one axis in order, stopping at the first failed receive
      (the `goto fail_exit` after each call). */
  method RunSteps<T>(t: Topology, g: Grid<T>, inbox: Inbox<T>, steps: seq<Step>, ghost img: GridImage<T>, ghost halo: Halo<T>)
    returns (ok: bool, trace: seq<Event<T>>)
    requires g.Valid() && img.Valid() && g.shape == img.shape && img.shape.HasHalo() && halo.Fits(img.shape)
    requires g.Image() == WithPadding(img, halo)
    modifies g.data
    ensures var r := Run(t, img, inbox, steps, halo);
      ok == r.ok && trace == r.trace && g.Image() == WithPadding(img, r.halo)
    decreases |steps|
  {
    if steps == [] {
      return true, [];
    }
    var e;
    ok, e := PerformStep(t, g, inbox, steps[0], img, halo);
    if !ok {
      return false, [e];
    }
    var rest;
    ok, rest := RunSteps(t, g, inbox, steps[1..], img, StepHalo(t, img, inbox, steps[0], halo).value);
    trace := [e] + rest;
  }

  /** Writing padding cell `to` of a strip from border cell `from` of the
      grid is the same as setting cell i of that strip in the halo. */
  lemma CopyCell<T>(img: GridImage<T>, halo: Halo<T>, d: seq<T>, to: Side, from: Side, i: nat)
    requires img.Valid() && img.shape.HasHalo() && halo.Fits(img.shape)
    requires d == WithPadding(img, halo).data
    requires img.shape.SideLength(to) == img.shape.SideLength(from) && i < img.shape.SideLength(to)
    ensures var s, s0 := img.shape.StripCoord(to, i), img.shape.StripCoord(to, 0);
      var b, b0 := img.shape.BorderCoord(from, i), img.shape.BorderCoord(from, 0);
      && img.shape.InPadded(s0.x, s0.y) && img.shape.InPadded(b0.x, b0.y)
      && img.shape.Index(s.x, s.y) == img.shape.Index(s0.x, s0.y) + i * img.shape.SideStride(to) < |d|
      && img.shape.Index(b.x, b.y) == img.shape.Index(b0.x, b0.y) + i * img.shape.SideStride(from) < |d|
      && d[img.shape.Index(s.x, s.y) := d[img.shape.Index(b.x, b.y)]]
         == WithPadding(img, halo.With(to, halo.Get(to)[i := Border(img, from)[i]])).data
  {
    var shape := img.shape;
    shape.SideCells(to, i);
    shape.SideCells(to, 0);
    shape.SideCells(from, i);
    shape.SideCells(from, 0);
    shape.SideLayout(to, i);
    shape.SideLayout(from, i);
    var b := shape.BorderCoord(from, i);
    WithPaddingLogical(img, halo, b.x, b.y);
    SetStripCell(img, halo, to, i, Border(img, from)[i]);
  }

  /** The halo after the first n iterations of a copy loop. */
  function PartialCopy<T>(img: GridImage<T>, halo: Halo<T>, low: Side, high: Side, n: nat): (r: Halo<T>)
    requires img.Valid() && img.shape.HasHalo() && halo.Fits(img.shape)
    requires img.shape.SideLength(low) == img.shape.SideLength(high) && n <= img.shape.SideLength(low)
    requires low != high
    ensures r.Fits(img.shape)
  {
    var h1 := halo.With(low, Land(Border(img, high)[..n], halo.Get(low)));
    h1.With(high, Land(Border(img, low)[..n], halo.Get(high)))
  }

  /** One iteration of a copy loop. */
  lemma PartialCopyStep<T>(img: GridImage<T>, halo: Halo<T>, low: Side, high: Side, n: nat)
    requires img.Valid() && img.shape.HasHalo() && halo.Fits(img.shape)
    requires img.shape.SideLength(low) == img.shape.SideLength(high) && n < img.shape.SideLength(low)
    requires low != high
    ensures var h := PartialCopy(img, halo, low, high, n);
      var h1 := h.With(low, h.Get(low)[n := Border(img, high)[n]]);
      PartialCopy(img, halo, low, high, n + 1) == h1.With(high, h1.Get(high)[n := Border(img, low)[n]])
  {
    LandStep(Border(img, high), halo.Get(low), n);
    LandStep(Border(img, low), halo.Get(high), n);
  }

  /** The copy loop of a process that is its own west neighbour: for each
      row i, west padding cell (-1, i) gets (width - 1, i) and east padding
      cell (width, i) gets (0, i), through the pointers west_border,
      last_column, east_border and first_cell stepped by width_padded. */
  method CopyColumns<T>(g: Grid<T>, ghost img: GridImage<T>, ghost halo: Halo<T>)
    requires g.Valid() && img.Valid() && g.shape == img.shape && img.shape.HasHalo() && halo.Fits(img.shape)
    requires g.Image() == WithPadding(img, halo)
    modifies g.data
    ensures g.Image() == WithPadding(img, SelfCopy(img, halo, West, East))
  {
    var shape := g.shape;
    var wp := shape.WidthPadded();
    var firstCell := shape.Index(0, 0);
    var lastColumn := shape.Index(shape.width - 1, 0);
    var westBorder := shape.Index(-1, 0);
    var eastBorder := shape.Index(shape.width, 0);
    PartialCopyEnds(img, halo, West, East);
    for i := 0 to shape.height
      invariant g.Image() == WithPadding(img, PartialCopy(img, halo, West, East, i))
    {
      ghost var d := g.data[..];
      var o := i * wp;
      CopyIteration(img, halo, West, East, i, d, westBorder, lastColumn, eastBorder, firstCell, wp, o);
      g.data[westBorder + o] := g.data[lastColumn + o];
      ghost var d1 := d[westBorder + o := d[lastColumn + o]];
      assert g.data[..] == d1;
      g.data[eastBorder + o] := g.data[firstCell + o];
      assert g.data[..] == d1[eastBorder + o := d1[firstCell + o]];
    }
  }

  /** The copy loop of a process that is its own north neighbour: for each
      column i, north padding cell (i, -1) gets (i, height - 1) and south
      padding cell (i, height) gets (i, 0), through the pointers
      north_border, last_row, south_border and first_cell. */
  method CopyRows<T>(g: Grid<T>, ghost img: GridImage<T>, ghost halo: Halo<T>)
    requires g.Valid() && img.Valid() && g.shape == img.shape && img.shape.HasHalo() && halo.Fits(img.shape)
    requires g.Image() == WithPadding(img, halo)
    modifies g.data
    ensures g.Image() == WithPadding(img, SelfCopy(img, halo, North, South))
  {
    var shape := g.shape;
    var firstCell := shape.Index(0, 0);
    var lastRow := shape.Index(0, shape.height - 1);
    var northBorder := shape.Index(0, -1);
    var southBorder := shape.Index(0, shape.height);
    PartialCopyEnds(img, halo, North, South);
    for i := 0 to shape.width
      invariant g.Image() == WithPadding(img, PartialCopy(img, halo, North, South, i))
    {
      ghost var d := g.data[..];
      CopyRowIteration(img, halo, i, d, northBorder, lastRow, southBorder, firstCell);
      g.data[northBorder + i] := g.data[lastRow + i];
      ghost var d1 := d[northBorder + i := d[lastRow + i]];
      assert g.data[..] == d1;
      g.data[southBorder + i] := g.data[firstCell + i];
      assert g.data[..] == d1[southBorder + i := d1[firstCell + i]];
    }
  }

  /** The X axis on the grid object: the four calls, or the copy loop. */
  method ExchangeX<T>(t: Topology, g: Grid<T>, inbox: Inbox<T>) returns (ok: bool, trace: seq<Event<T>>)
    requires g.Valid() && g.shape.HasHalo()
    modifies g.data
    ensures var o := XPhase(t, old(g.Image()), inbox);
      ok == o.ok && trace == o.trace && g.Image() == WithPadding(old(g.Image()), o.halo)
  {
    ghost var img := g.Image();
    WithOwnPadding(img);
    if t.west != t.rank {
      ok, trace := RunSteps(t, g, inbox, XSteps(t.coords.x % 2 == 0), img, PaddingOf(img));
    } else {
      CopyColumns(g, img, PaddingOf(img));
      ok, trace := true, [];
    }
  }

  /** The Y axis on the grid object, from what the X axis left: the four
      calls, or the copy loop. */
  method ExchangeY<T>(t: Topology, g: Grid<T>, inbox: Inbox<T>, ghost img: GridImage<T>, ghost halo: Halo<T>)
    returns (ok: bool, trace: seq<Event<T>>)
    requires g.Valid() && img.Valid() && g.shape == img.shape && img.shape.HasHalo() && halo.Fits(img.shape)
    requires g.Image() == WithPadding(img, halo)
    modifies g.data
    ensures var o := YPhase(t, img, inbox, halo);
      ok == o.ok && trace == o.trace && g.Image() == WithPadding(img, o.halo)
  {
    if t.north != t.rank {
      ok, trace := RunSteps(t, g, inbox, YSteps(t.coords.y % 2 == 0), img, halo);
    } else {
      CopyRows(g, img, halo);
      ok, trace := true, [];
    }
  }

  /** One iteration of a copy loop on the buffer: writing strip cell i on
      `low` from border cell i on `high`, then strip cell i on `high` from
      border cell i on `low`, advances the copy by one cell. The four start
      offsets are those of the first cells of the two strips and borders. */
  lemma CopyIteration<T>(img: GridImage<T>, halo: Halo<T>, low: Side, high: Side, i: nat, d: seq<T>,
                         lowStrip: int, highBorder: int, highStrip: int, lowBorder: int, stride: int, o: int)
    requires img.Valid() && img.shape.HasHalo() && halo.Fits(img.shape)
    requires img.shape.SideLength(low) == img.shape.SideLength(high) && i < img.shape.SideLength(low) && low != high
    requires stride == img.shape.SideStride(low) == img.shape.SideStride(high) && o == i * stride
    requires d == WithPadding(img, PartialCopy(img, halo, low, high, i)).data
    requires var s := img.shape.StripCoord(low, 0); img.shape.InPadded(s.x, s.y) && lowStrip == img.shape.Index(s.x, s.y)
    requires var s := img.shape.StripCoord(high, 0); img.shape.InPadded(s.x, s.y) && highStrip == img.shape.Index(s.x, s.y)
    requires var b := img.shape.BorderCoord(low, 0); img.shape.InPadded(b.x, b.y) && lowBorder == img.shape.Index(b.x, b.y)
    requires var b := img.shape.BorderCoord(high, 0); img.shape.InPadded(b.x, b.y) && highBorder == img.shape.Index(b.x, b.y)
    ensures 0 <= lowStrip + o < |d| && 0 <= highBorder + o < |d|
    ensures 0 <= highStrip + o < |d| && 0 <= lowBorder + o < |d|
    ensures var d1 := d[lowStrip + o := d[highBorder + o]];
      d1[highStrip + o := d1[lowBorder + o]]
      == WithPadding(img, PartialCopy(img, halo, low, high, i + 1)).data
  {
    var h := PartialCopy(img, halo, low, high, i);
    CopyCellAt(img, h, d, low, high, i, lowStrip, highBorder, stride, o);
    var h1 := h.With(low, h.Get(low)[i := Border(img, high)[i]]);
    var d1 := d[lowStrip + o := d[highBorder + o]];
    CopyCellAt(img, h1, d1, high, low, i, highStrip, lowBorder, stride, o);
    PartialCopyStep(img, halo, low, high, i);
  }

  /** CopyCell with the strip and border cells addressed from the offsets
      of their first cells, as the loop's pointers address them. */
  lemma CopyCellAt<T>(img: GridImage<T>, halo: Halo<T>, d: seq<T>, to: Side, from: Side, i: nat,
                      strip: int, border: int, stride: int, o: int)
    requires img.Valid() && img.shape.HasHalo() && halo.Fits(img.shape)
    requires d == WithPadding(img, halo).data
    requires img.shape.SideLength(to) == img.shape.SideLength(from) && i < img.shape.SideLength(to)
    requires stride == img.shape.SideStride(to) == img.shape.SideStride(from) && o == i * stride
    requires var s := img.shape.StripCoord(to, 0); img.shape.InPadded(s.x, s.y) && strip == img.shape.Index(s.x, s.y)
    requires var b := img.shape.BorderCoord(from, 0); img.shape.InPadded(b.x, b.y) && border == img.shape.Index(b.x, b.y)
    ensures 0 <= strip + o < |d| && 0 <= border + o < |d|
    ensures d[strip + o := d[border + o]]
         == WithPadding(img, halo.With(to, halo.Get(to)[i := Border(img, from)[i]])).data
  {
    CopyCell(img, halo, d, to, from, i);
  }

  /** The iteration of the row copy loop, whose stride is 1. */
  lemma CopyRowIteration<T>(img: GridImage<T>, halo: Halo<T>, i: nat, d: seq<T>,
                            northStrip: int, southBorder: int, southStrip: int, northBorder: int)
    requires img.Valid() && img.shape.HasHalo() && halo.Fits(img.shape) && i < img.shape.width
    requires d == WithPadding(img, PartialCopy(img, halo, North, South, i)).data
    requires img.shape.InPadded(0, -1) && northStrip == img.shape.Index(0, -1)
    requires img.shape.InPadded(0, img.shape.height) && southStrip == img.shape.Index(0, img.shape.height)
    requires img.shape.InPadded(0, 0) && northBorder == img.shape.Index(0, 0)
    requires img.shape.InPadded(0, img.shape.height - 1) && southBorder == img.shape.Index(0, img.shape.height - 1)
    ensures 0 <= northStrip + i < |d| && 0 <= southBorder + i < |d|
    ensures 0 <= southStrip + i < |d| && 0 <= northBorder + i < |d|
    ensures var d1 := d[northStrip + i := d[southBorder + i]];
      d1[southStrip + i := d1[northBorder + i]]
      == WithPadding(img, PartialCopy(img, halo, North, South, i + 1)).data
  {
    CopyIteration(img, halo, North, South, i, d, northStrip, southBorder, southStrip, northBorder, 1, i);
  }

  /** Before the first iteration nothing is copied; after the last the
      strips hold the opposite borders. */
  lemma PartialCopyEnds<T>(img: GridImage<T>, halo: Halo<T>, low: Side, high: Side)
    requires img.Valid() && img.shape.HasHalo() && halo.Fits(img.shape)
    requires img.shape.SideLength(low) == img.shape.SideLength(high) && low != high
    ensures PartialCopy(img, halo, low, high, 0) == halo
    ensures PartialCopy(img, halo, low, high, img.shape.SideLength(low)) == SelfCopy(img, halo, low, high)
  {
    var n := img.shape.SideLength(low);
    assert Land(Border(img, high)[..0], halo.Get(low)) == halo.Get(low);
    assert Land(Border(img, low)[..0], halo.Get(high)) == halo.Get(high);
    assert Border(img, high)[..n] == Border(img, high);
    assert Border(img, low)[..n] == Border(img, low);
    match low {
      case West => assert halo.With(low, halo.Get(low)) == halo;
      case East => assert halo.With(low, halo.Get(low)) == halo;
      case North => assert halo.With(low, halo.Get(low)) == halo;
      case South => assert halo.With(low, halo.Get(low)) == halo;
    }
    var h1 := halo.With(low, halo.Get(low));
    assert h1.Get(high) == halo.Get(high);
    match high {
      case West => assert h1.With(high, h1.Get(high)) == h1;
      case East => assert h1.With(high, h1.Get(high)) == h1;
      case North => assert h1.With(high, h1.Get(high)) == h1;
      case South => assert h1.With(high, h1.Get(high)) == h1;
    }
  }

  /** heatsim_exchange_borders on the grid object. The result is 0 exactly
      when the exchange succeeds; the calls made and the new contents of the
      buffer are those of `Exchange` on the old contents. */
  method ExchangeBorders<T>(t: Topology, g: Grid<T>, inbox: Inbox<T>) returns (r: int, trace: seq<Event<T>>)
    requires g.Valid() && g.shape.HasHalo()
    modifies g.data
    ensures var o := Exchange(t, old(g.Image()), inbox);
      && (r == if o.ok then 0 else -1)
      && trace == o.trace
      && g.Image() == WithPadding(old(g.Image()), o.halo)
  {
    ghost var img := g.Image();
    var ok;
    ok, trace := ExchangeX(t, g, inbox);
    if !ok {
      return -1, trace;
    }
    var yTrace;
    ok, yTrace := ExchangeY(t, g, inbox, img, XPhase(t, img, inbox).halo);
    trace := trace + yTrace;
    r := if ok then 0 else -1;
  }
}
