/** The message-passing layer, abstracted. A send hands a payload to a peer
    under a tag; a process's receives are answered from its inbox, which maps
    (source rank, tag) to the payload that source sent it under that tag.
    Blocking, buffering and communicators are not modelled. */
module Transport {
  import opened Options

  /** What a message carries: the three unsigned grid parameters
      (width, height, padding) or a sequence of cells. */
  datatype Payload<T> = Dims(width: nat, height: nat, padding: nat) | Cells(cells: seq<T>)

  /** One transport operation of a process, in program order. */
  datatype Event<T> = Send(peer: nat, tag: nat, payload: Payload<T>) | Recv(peer: nat, tag: nat)

  /** The messages addressed to one process: (source, tag) to payload. */
  type Inbox<T> = (nat, nat) -> Option<Payload<T>>

  /** A receive of at most `count` cells from `peer` under `tag`; a shorter
      message is accepted. It fails (None) in two different ways. A message
      longer than the receive buffer is an error return of MPI_Recv
      (MPI_ERR_TRUNCATE), which the program turns into -1 or NULL. When
      nothing was sent from `peer` under `tag`, the blocking MPI_Recv of the
      program would never return; the model reports that case as a failure
      too. A parameter triple under the tag of a cell receive is also
      reported as a failure; the program's tags keep the triples (tag 0)
      apart from cells (tags 1 to 6), so that case does not arise there. */
  function Accept<T>(inbox: Inbox<T>, peer: nat, tag: nat, count: nat): (r: Option<seq<T>>)
    ensures r.Some? ==> |r.value| <= count && inbox(peer, tag) == Some(Cells(r.value))
    ensures r.None? <==> !(inbox(peer, tag).Some? && inbox(peer, tag).value.Cells? && |inbox(peer, tag).value.cells| <= count)
  {
    match inbox(peer, tag)
    case Some(Cells(cells)) => if |cells| <= count then Some(cells) else None
    case _ => None
  }

  /** The contents of a receive buffer after `cells` were received into it:
      the received cells overwrite a prefix and the rest is kept. */
  function Land<T>(cells: seq<T>, buffer: seq<T>): (r: seq<T>)
    requires |cells| <= |buffer|
    ensures |r| == |buffer|
    ensures forall i :: 0 <= i < |r| ==> r[i] == if i < |cells| then cells[i] else buffer[i]
  {
    cells + buffer[|cells|..]
  }

  /** A message that fills the whole buffer replaces it. */
  lemma LandAll<T>(cells: seq<T>, buffer: seq<T>)
    requires |cells| == |buffer|
    ensures Land(cells, buffer) == cells
  {
  }

  /** Receiving one more cell of a message overwrites one more cell of the
      buffer. */
  lemma LandStep<T>(cells: seq<T>, buffer: seq<T>, i: nat)
    requires i < |cells| <= |buffer|
    ensures Land(cells[..i + 1], buffer) == Land(cells[..i], buffer)[i := cells[i]]
  {
  }

  /** The payload of the first send to `dst` under `tag` in a process's trace. */
  function Delivered<T>(trace: seq<Event<T>>, dst: nat, tag: nat): (r: Option<Payload<T>>)
    ensures r.Some? ==> Send(dst, tag, r.value) in trace
    ensures r.None? ==> forall i :: 0 <= i < |trace| ==> !IsSendTo(trace[i], dst, tag)
  {
    if trace == [] then None
    else if IsSendTo(trace[0], dst, tag) then Some(trace[0].payload)
    else Delivered(trace[1..], dst, tag)
  }

  predicate IsSendTo<T>(e: Event<T>, dst: nat, tag: nat) {
    e.Send? && e.peer == dst && e.tag == tag
  }

  /** When every send to `dst` under `tag` in a trace carries the same payload
      and there is one, that payload is what `dst` receives. */
  lemma DeliveredUnique<T>(trace: seq<Event<T>>, dst: nat, tag: nat, p: Payload<T>)
    requires Send(dst, tag, p) in trace
    requires forall i :: 0 <= i < |trace| && IsSendTo(trace[i], dst, tag) ==> trace[i].payload == p
    ensures Delivered(trace, dst, tag) == Some(p)
  {
  }

  /** A trace with no event under `tag` delivers nothing under it. */
  lemma DeliveredNoTag<T>(trace: seq<Event<T>>, dst: nat, tag: nat)
    requires forall k :: 0 <= k < |trace| ==> trace[k].tag != tag
    ensures Delivered(trace, dst, tag) == None
  {
  }

  /** The first send of a concatenation comes from its first part when that
      part has one. */
  lemma {:induction false} DeliveredAppend<T>(a: seq<Event<T>>, b: seq<Event<T>>, dst: nat, tag: nat)
    ensures Delivered(a + b, dst, tag) == if Delivered(a, dst, tag).Some? then Delivered(a, dst, tag) else Delivered(b, dst, tag)
  {
    if a != [] {
      assert (a + b)[0] == a[0];
      assert (a + b)[1..] == a[1..] + b;
      DeliveredAppend(a[1..], b, dst, tag);
    } else {
      assert a + b == b;
    }
  }

  /** The inbox of `dst` when process `src` performed traces[src]. */
  function NetworkInbox<T>(traces: seq<seq<Event<T>>>, dst: nat): Inbox<T>
  {
    (src: nat, tag: nat) => if src < |traces| then Delivered(traces[src], dst, tag) else None
  }
}
