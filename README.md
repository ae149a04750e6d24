# Halo exchange of the MPI heat simulation

This project models the distributed bookkeeping of the MPI heat simulation
in `labo-3/source/heatsim-mpi.c`. The global grid is cut into sub-grids, one
per process of a periodic two-dimensional Cartesian communicator. Rank 0
(the coordinator) hands each sub-grid to its process. At every step each
process exchanges the one-cell borders of its grid with its four neighbours
(the halo exchange), and at the end rank 0 collects the results. Cell
values are only ever copied, so they are a type parameter `T`. The MPI
transport is a value: a process performs a trace of `Send`/`Recv` events,
and its receives are answered from an *inbox* mapping (source, tag) to the
payload that source sent it under that tag.

The modules follow the structure of the program:

- `RowMajor` (row_major.dfy): arithmetic of row-major layouts.
- `Torus` (torus.dfy): ranks, coordinates and periodic neighbours, as
  `MPI_Cart_create` (section 7.5.1 of the MPI 3.1 standard) and
  `MPI_Cart_shift` (section 7.5.6) define them.
- `Topology` (topology.dfy): `heatsim_init` and the `heatsim_t` record.
- `Transport` (transport.dfy): payloads, events, inboxes, what a receive
  accepts and how it lands in a buffer, and the inbox a set of traces builds.
- `Grids` (grid.dfy): the padded grid (`grid_t`) as a value and as a class
  over an `array`. It also covers the logical borders and the padding
  strips, strided vectors (`MPI_Type_vector`), and `Scatter`, the in-place
  write of a received message.
- `Carts` (cart.dfy): the coordinator's `cart2d_t`, a map from coordinates
  to grid objects.
- `Distribution` (distribution.dfy): `heatsim_send_grids` and
  `heatsim_receive_grid`.
- `HaloExchange` (halo_exchange.dfy): `heatsim_exchange_borders` for one
  process, with:
  - the parity scripts of both axes;
  - the two in-place copy loops;
  - a method version on the grid object, proved against the functional one.
- `TorusExchange` (torus_exchange.dfy): every process exchanges over the
  whole torus. The padding then holds exactly what the documentation of
  `heatsim_exchange_borders` pictures, and every call the scripts make is
  answered by the peer's matching call.
- `Collection` (collection.dfy): `heatsim_send_result` and
  `heatsim_receive_results`.

Cell `(x, y)` of a grid, with `-padding <= x < width + padding` and the same
range for `y`, is stored at offset
`(y + padding) * width_padded + (x + padding)`. `grid_get_cell` is not part
of this model. This layout agrees with the column vector of stride
`width_padded` and with the copy loops. The strips a process receives into
are `(-1, i)`, `(width, i)`, `(i, -1)` and `(i, height)`. The borders it
sends are column 0, column `width - 1`, row 0 and row `height - 1`.

## Model

All source cells refer to `labo-3/source/heatsim-mpi.c`.

| member | source | states |
|---|---|---|
| Torus.CoordOf | labo-3/source/heatsim-mpi.c:29-31 | the coordinates of a rank lie in the process grid and lead back to that rank under the row-major numbering |
| Torus.RankOf | labo-3/source/heatsim-mpi.c:29-31 | the number of the process at (x, y) in a dim_x-by-dim_y grid created without reordering is x * dim_y + y, a rank of the grid |
| Torus.CartShift | labo-3/source/heatsim-mpi.c:54-62 | a periodic shift by disp along a dimension gives as source the rank displaced by -disp and as destination the rank displaced by +disp along that dimension, modulo its extent |
| Torus.Neighbor | labo-3/source/heatsim-mpi.c:54-68 | north and south are the source and destination of a shift by 1 along dimension 1, west and east those along dimension 0; each is a rank of the grid |
| Torus.CoordOfRankOf | labo-3/source/heatsim-mpi.c:70 | ranks and coordinates are in one-to-one correspondence: the coordinates of the rank of c are c |
| Torus.NeighborCoords | labo-3/source/heatsim-mpi.c:54-68 | the four peers wrap around periodically: west at ((x - 1) mod dim_x, y), east at ((x + 1) mod dim_x, y), north at (x, (y - 1) mod dim_y), south at (x, (y + 1) mod dim_y) |
| Torus.NeighborSymmetric | labo-3/source/heatsim-mpi.c:54-68 | the neighbour of my neighbour in the opposite direction is me (east of west, south of north, ...) |
| Torus.SelfNeighbor | labo-3/source/heatsim-mpi.c:262 | a process is its own west peer iff it is its own east peer iff dim_x is 1, and likewise north/south with dim_y |
| Topology.InitAsWrittenAcceptsSurplusRanks | labo-3/source/heatsim-mpi.c:29-46 | as written, a 1-by-1 grid in a world of two processes is accepted and records rank_count 2 for a grid of one process |
| Topology.InitAsWritten | labo-3/source/heatsim-mpi.c:20-86 | as written, initialisation succeeds iff both dimensions are positive, the product is at most the world size and the rank lies in the grid (otherwise MPI_Cart_create or MPI_Cart_shift fails, or the communicator is null, and the result is -1); on success rank_count is the world size, and the record holds the shape, the rank, its coordinates and its four periodic peers |
| Topology.Build | labo-3/source/heatsim-mpi.c:54-76 | the record filled by the two shifts and MPI_Cart_coords holds the shape, the world size, the rank, its coordinates and, on each side, the periodic neighbour of the rank |
| Topology.Init | labo-3/source/heatsim-mpi.c:20-86 | initialisation succeeds iff both dimensions are positive, their product is the world size and the rank is in it; on success the record holds the shape, the rank, its coordinates and its four periodic peers |
| Topology.InitAgreesWithSource | labo-3/source/heatsim-mpi.c:20-86 | whenever the grid partitions the world exactly, the corrected initialisation and the one as written agree |
| Topology.TopologyOfIsInit | labo-3/source/heatsim-mpi.c:20-86 | the record of process r used by the torus lemmas is the one heatsim_init returns for r |
| Transport.Accept | labo-3/source/heatsim-mpi.c:179 | a receive of at most count cells succeeds iff the peer sent cells under that tag and no more than count of them, and then yields exactly those cells; otherwise it fails, which stands for an error return (a message too long) or for a receive that would block forever (nothing sent from that peer under that tag); a payload of the wrong kind under the tag also fails, a case the tags of the program rule out |
| Transport.Land | labo-3/source/heatsim-mpi.c:484 | received cells overwrite a prefix of the buffer and every later cell is kept |
| Transport.DeliveredAppend | labo-3/source/heatsim-mpi.c:262-428 | the first send of two traces in sequence comes from the first trace when it has one |
| Grids.GridShape.Decode | labo-3/source/heatsim-mpi.c:254-260 | every buffer offset is the offset of exactly one padded cell (with DecodeIndex: offsets and cells are in one-to-one correspondence) |
| Grids.GridShape.SideLayout | labo-3/source/heatsim-mpi.c:244 | a column strip or border is laid out in steps of width_padded from its first cell, a row in steps of 1 |
| Grids.VectorReadsBorder | labo-3/source/heatsim-mpi.c:244-266 | the vector sent from the first cell of a border holds exactly that logical border, whatever the padding holds |
| Grids.ScatterIntoPadding | labo-3/source/heatsim-mpi.c:275 | a receive into a strip from its first cell with the side's stride replaces the received prefix of that strip and no other cell |
| Grids.ScatterPrefix | labo-3/source/heatsim-mpi.c:179 | a contiguous receive at offset 0 overwrites a prefix of the buffer |
| Grids.WithOwnPadding | labo-3/source/heatsim-mpi.c:229-236 | writing back the padding a grid already holds changes nothing |
| Grids.Scatter | labo-3/source/heatsim-mpi.c:179 | the in-place write of a received message into an array puts cell i at start + i * stride |
| Grids.Grid.constructor | labo-3/source/heatsim-mpi.c:171-175 | a new grid of the announced shape owns a fresh buffer of width_padded * height_padded cells |
| HaloExchange.StepHalo | labo-3/source/heatsim-mpi.c:262-338 | a step succeeds iff it is a send or its receive is answered by a message that fits the strip, and it keeps the strips fitting the grid; a failed receive is an error return or a receive that would block forever |
| HaloExchange.XSteps | labo-3/source/heatsim-mpi.c:263-337 | the four X calls: an even column sends East under tag 2, receives West under tag 2, sends West under tag 3 and receives East under tag 3; an odd column swaps each send/receive pair |
| HaloExchange.YSteps | labo-3/source/heatsim-mpi.c:347-422 | the four Y calls: an even row sends South under tag 4, receives North under tag 4, sends North under tag 5 and receives South under tag 5; an odd row swaps each send/receive pair |
| HaloExchange.Run | labo-3/source/heatsim-mpi.c:262-338 | running a script keeps every strip fitting the grid; which calls it makes and where it stops is stated by HaloExchange.RunTrace, and the strips it leaves alone by HaloExchange.RunKeeps |
| HaloExchange.SelfCopy | labo-3/source/heatsim-mpi.c:339-344 | the copy of a process that is its own peer on an axis: the high strip receives the low border, the low strip the high border, and the strips of the other axis are kept |
| HaloExchange.XPhase | labo-3/source/heatsim-mpi.c:262-344 | the X axis keeps every strip fitting the grid; it runs the script of the parity of x unless the process is its own west peer, when it copies instead (HaloExchange.XPhaseSpec, HaloExchange.SelfCopyX) |
| HaloExchange.YPhase | labo-3/source/heatsim-mpi.c:346-428 | the Y axis keeps every strip fitting the grid; it runs the script of the parity of y unless the process is its own north peer, when it copies instead (HaloExchange.YPhaseSpec, HaloExchange.SelfCopyY) |
| HaloExchange.Exchange | labo-3/source/heatsim-mpi.c:195-436 | the exchange keeps every strip fitting the grid; a failure along X skips Y (HaloExchange.ExchangeTrace, HaloExchange.ExchangeKeepsInterior) |
| HaloExchange.RunTrace | labo-3/source/heatsim-mpi.c:262-338 | a run of steps succeeds iff every receive is answered by a message that fits; it then made every call of the script, and otherwise the calls up to and including the first failed receive, after which it stops: on an error return this is the goto fail_exit, on a receive no message answers the program blocks there forever |
| HaloExchange.RunKeeps | labo-3/source/heatsim-mpi.c:262-338 | a strip no step receives into is left as it was |
| HaloExchange.XPhaseSpec | labo-3/source/heatsim-mpi.c:262-344 | the X axis makes its script's calls (a prefix on failure), changes neither the north nor the south strip, and only uses tags 2 and 3 |
| HaloExchange.YPhaseSpec | labo-3/source/heatsim-mpi.c:346-428 | the Y axis makes its script's calls (a prefix on failure), keeps the west and east strips the X axis left, and only uses tags 4 and 5 |
| HaloExchange.ExchangeTrace | labo-3/source/heatsim-mpi.c:195-436 | a successful exchange made exactly the calls of the X script followed by the Y script; a failed one made a prefix of them ending in the unanswered receive |
| HaloExchange.ExchangeKeepsInterior | labo-3/source/heatsim-mpi.c:229-236 | every logical cell and every padding corner keeps its value, whatever the outcome |
| HaloExchange.SelfCopyX | labo-3/source/heatsim-mpi.c:339-344 | a process that is its own west peer ends with (-1, i) holding (width - 1, i) and (width, i) holding (0, i) for every row i, whatever the outcome of the Y axis that follows, and sends nothing along X |
| HaloExchange.SelfCopyY | labo-3/source/heatsim-mpi.c:423-428 | a process that is its own north peer ends with (i, -1) holding (i, height - 1) and (i, height) holding (i, 0) for every column i when the exchange succeeds (an X failure skips the copy), and sends nothing along Y |
| HaloExchange.PartialCopyStep | labo-3/source/heatsim-mpi.c:340-343 | one iteration of a copy loop sets cell i of both strips from the opposite borders |
| HaloExchange.CopyColumns | labo-3/source/heatsim-mpi.c:339-344 | the column copy loop on the buffer leaves the west strip holding the east border, the east strip holding the west border, and every other cell unchanged |
| HaloExchange.CopyRows | labo-3/source/heatsim-mpi.c:423-428 | the row copy loop leaves the north strip holding the south border, the south strip holding the north border, and every other cell unchanged |
| HaloExchange.PerformStep | labo-3/source/heatsim-mpi.c:262-338 | one blocking call on the grid object: a send hands over the border, a received message is written into the strip, and a failed receive writes nothing (see Left out for a message that is too long) |
| HaloExchange.RunSteps | labo-3/source/heatsim-mpi.c:262-338 | the four calls of an axis on the grid object, stopping at the first failure, produce the trace and the buffer of the functional run |
| HaloExchange.ExchangeX | labo-3/source/heatsim-mpi.c:262-344 | the X axis on the grid object produces the outcome and the buffer of the functional X axis |
| HaloExchange.ExchangeY | labo-3/source/heatsim-mpi.c:346-428 | the Y axis on the grid object produces the outcome and the buffer of the functional Y axis |
| HaloExchange.ExchangeBorders | labo-3/source/heatsim-mpi.c:195-436 | returns 0 iff the exchange succeeds, -1 otherwise; makes the exchange's calls and leaves the buffer with its padding strips replaced by the exchange's halo |
| TorusExchange.AxisPartner | labo-3/source/heatsim-mpi.c:263-337 | for any two parities, every step of an axis script is answered by a step of the other script: a receive of the same tag into the opposite strip for a send, a send of the opposite border for a receive |
| TorusExchange.ScriptDelivers | labo-3/source/heatsim-mpi.c:266-415 | under tags 2, 3, 4 and 5 a process sends its east, west, south and north border to its east, west, south and north peer |
| TorusExchange.SentTo | labo-3/source/heatsim-mpi.c:266-415 | over the torus the neighbour on a side sends process q the border facing q under the tag of the strip on that side |
| TorusExchange.XAxisAnswered | labo-3/source/heatsim-mpi.c:262-338 | an X axis whose two receives are answered with full columns succeeds and leaves those columns in the west and east strips |
| TorusExchange.YAxisAnswered | labo-3/source/heatsim-mpi.c:346-422 | a Y axis whose two receives are answered with full rows succeeds and leaves those rows in the north and south strips |
| TorusExchange.XAxisDelivers | labo-3/source/heatsim-mpi.c:262-344 | along X every process succeeds, with the west strip holding its west neighbour's east border and the east strip its east neighbour's west border, by messages or by the copy loop |
| TorusExchange.YAxisDelivers | labo-3/source/heatsim-mpi.c:346-428 | along Y every process succeeds, with the north strip holding its north neighbour's south border and the south strip its south neighbour's north border |
| TorusExchange.TorusExchange | labo-3/source/heatsim-mpi.c:198-238 | when all processes exchange, every exchange returns success, makes exactly its script's calls, and leaves the padding pictured in the documentation |
| TorusExchange.TorusColumns | labo-3/source/heatsim-mpi.c:229-236 | cell by cell: (-1, i) holds (width - 1, i) of the west neighbour and (width, i) holds (0, i) of the east neighbour |
| TorusExchange.TorusRows | labo-3/source/heatsim-mpi.c:229-236 | cell by cell: (i, -1) holds (i, height - 1) of the north neighbour and (i, height) holds (i, 0) of the south neighbour |
| TorusExchange.ScriptMatching | labo-3/source/heatsim-mpi.c:262-422 | every send of a script to peer p under tag t has a receive at p from this process under t, and every receive from p under t has a send of p to this process under t |
| TorusExchange.PeerInRange | labo-3/source/heatsim-mpi.c:262-422 | every call of a script addresses a rank of the grid |
| Distribution.DistributeOk | labo-3/source/heatsim-mpi.c:102-109 | the sending loop returns 0 iff every rank 1 .. rank_count - 1 has a grid at its coordinates |
| Distribution.Distribute | labo-3/source/heatsim-mpi.c:102-133 | on success the sending loop over ranks 1 .. k - 1 made two sends for each of those ranks; when it succeeds is stated by Distribution.DistributeOk and what it sends by Distribution.DistributeTrace |
| Distribution.GridMessages | labo-3/source/heatsim-mpi.c:114-124 | the two sends to one rank: the parameter triple of its grid under tag 0, then the whole padded buffer under tag 1 |
| Distribution.DistributeStops | labo-3/source/heatsim-mpi.c:107-109 | once a grid is missing, later ranks send nothing more |
| Distribution.DistributeTrace | labo-3/source/heatsim-mpi.c:102-133 | every send goes to a rank 1 .. rank_count - 1 and is its parameter triple (tag 0) or its whole padded buffer (tag 1); on success both are sent to every such rank |
| Distribution.SendGrids | labo-3/source/heatsim-mpi.c:88-140 | the loop on the cart returns 0 or -1 as the sending loop does and makes exactly its sends |
| Distribution.Received | labo-3/source/heatsim-mpi.c:163-179 | the result is None iff no parameter triple came from rank 0 under tag 0 or the cells under tag 1 are missing or longer than the buffer (a too-long message is an error return and gives NULL; a missing one leaves the blocking receive waiting forever, which the model also reports as None); otherwise the grid has the announced shape, a buffer of width_padded * height_padded cells, and begins with the received cells |
| Distribution.ReceiveGrid | labo-3/source/heatsim-mpi.c:142-193 | returns null exactly when a receive fails (an error return, or a receive that would block forever), otherwise a fresh grid holding what was received |
| Distribution.DistributionRoundTrip | labo-3/source/heatsim-mpi.c:8-124 | after a successful distribution, every rank 1 .. size - 1 receives exactly the grid staged at its coordinates (shape and padded buffer) |
| Collection.SendResult | labo-3/source/heatsim-mpi.c:438-460 | the one send, to rank 0 under tag 6, carries width * height cells: logical cell (x, y) at y * width + x |
| Collection.ResultLayout | labo-3/source/heatsim-mpi.c:448 | without padding the buffer holds exactly the logical cells row by row |
| Collection.Arrived | labo-3/source/heatsim-mpi.c:484 | the receive from rank j succeeds iff j sent at most width * height cells of the slot under tag 6; they then overwrite the front of the slot's buffer, whose shape and remaining cells are kept |
| Collection.LogicalCount | labo-3/source/heatsim-mpi.c:484 | the count width * height of the receive never exceeds the padded buffer of the slot |
| Collection.ReceiveFrom | labo-3/source/heatsim-mpi.c:475-490 | one iteration keeps every slot well formed, and it succeeds only when the loop has not failed yet and the cart has a slot at the coordinates of rank j |
| Collection.Collect | labo-3/source/heatsim-mpi.c:473-491 | the receiving loop keeps every slot well formed; what it returns and writes is stated by Collection.CollectRouting and Collection.CollectStops |
| Collection.CollectStops | labo-3/source/heatsim-mpi.c:480-490 | once a slot is missing or a receive fails, later ranks change nothing |
| Collection.CollectRouting | labo-3/source/heatsim-mpi.c:473-491 | the loop returns 0 iff every rank 1 .. rank_count - 1 has a slot and its receive succeeds; then the slot at coord_of(i) holds what arrived from i and every other slot is unchanged |
| Collection.ReceiveResults | labo-3/source/heatsim-mpi.c:462-497 | the loop on the cart returns 0 or -1 as the receiving loop does and leaves the cart's grids holding its slots |
| Collection.ReceiveRank | labo-3/source/heatsim-mpi.c:475-490 | one iteration on the cart: the receive from rank i into the grid at its coordinates |
| Collection.ReceiveSlot | labo-3/source/heatsim-mpi.c:484 | the receive writes a prefix of one grid's buffer and no other grid of the cart changes |
| Collection.ResultArrives | labo-3/source/heatsim-mpi.c:448-484 | the result a rank sends arrives whole in a slot of its shape |
| Collection.CollectionRoundTrip | labo-3/source/heatsim-mpi.c:448-484 | when every rank 1 .. size - 1 sent its result and rank 0 holds a slot of the same shape at its coordinates, collection returns 0 and each slot holds exactly that rank's result |
| Carts.Cart.Images | labo-3/source/heatsim-mpi.c:478 | cart2d_get_grid finds a grid exactly at the coordinates of the cart, and each one is well formed |

## Left out

- MPI's blocking, buffering and progress rules are not modelled. In
  particular nothing is claimed about deadlock freedom of the parity
  ordering. Only the peer/tag matching of the scripts is proved
  (TorusExchange.ScriptMatching).
- `MPI_Type_create_struct`, `MPI_Type_vector`, and the commits and frees
  of both are not modelled. The type `struct_create` builds is taken as
  what it selects: the whole padded buffer of width_padded * height_padded
  cells. A column vector becomes `Grids.Vector` and `Grids.Scattered`.
- Blocking receives that nothing answers: in the program a receive for
  which nothing was sent from that source under that tag waits forever.
  The model reports such a receive as failed, like an error return, so the
  -1 or NULL it then gives stands for a call that never returns. Only a
  message longer than the buffer is a real error return.
- MPI_Recv matches on source, tag and communicator, not on the datatype.
  The model reports a payload of the wrong kind under the expected tag (a
  parameter triple where cells are expected, or cells where a triple is)
  as a failed receive. The tags of the program keep the two apart: the
  triples travel under tag 0 (lines 114 and 163) and cells under tags 1
  to 6, so the case does not arise there.
- HaloExchange.PerformStep: on a message longer than the strip
  (MPI_ERR_TRUNCATE) the model leaves the strip as it was. MPI leaves the
  receive buffer unspecified in that case, and an implementation may write
  the truncated prefix. The -1 that follows ends the exchange either way.
- Sends never fail in the model, and MPI error handlers are not modelled.
  In the exchange, the distribution and the collection a -1 or NULL
  therefore comes only from a failed receive, as described above, or from
  a missing grid or slot in the cart. heatsim_init also returns -1: that
  is the None of Topology.InitAsWritten (lines 29-46 and 78-80). A failure
  of `MPI_Type_vector` in heatsim_exchange_borders (lines 246-250) is not
  modelled.
- `LOG_ERROR_MPI` logging is not modelled.
- `grid_create` allocation failure is not modelled. The initial contents
  of a new buffer are the `blank` parameter.
- `cart2d_*`, `grid_create` and `grid_get_cell` are not part of this
  model. The cell layout is the row-major one stated above. How the global
  grid is cut into sub-grids is not modelled.
- Cells are doubles in the source. Here they are an opaque type `T`,
  because they are only copied.
- The 32-bit widths of `unsigned int` and `int` are not modelled:
  `width * height`, `width_padded * height_padded` and ranks are unbounded.
- The sending of the three adjacent `unsigned` fields from `&grid->width`
  is modelled as one triple payload.
- Topology.InitAsWritten: the separate `MPI_COMM_NULL` test at lines 78-80
  is folded into the failure of `MPI_Cart_shift` for a rank outside the
  grid. Either way the result is -1.
- HaloExchange.ExchangeBorders: requires padding == 1, which is the
  `assert` at line 196. It also requires width and height of at least 1,
  because the pointers `last_column` and `last_row` would otherwise address
  the padding.
- Collection.SendResult: requires padding == 0, the `assert` at line 439.
- Distribution.SendGrids: requires rank_count == dim_x * dim_y. With more
  ranks than grid positions, which the source accepts (see Findings),
  `MPI_Cart_coords` is called on a rank outside the grid. Its error is not
  checked and the coordinates it leaves are undefined.
- Collection.ReceiveResults: requires rank_count == dim_x * dim_y, for the
  same reason as Distribution.SendGrids.
- TorusExchange.TorusExchange: assumes the sub-grids are compatible.
  Neighbours along X are equally tall and neighbours along Y equally wide
  (TorusExchange.Compatible). The source relies on that but does not check
  it.

## Findings

| source | as written | input that shows it | evidently intended | confidence | as-written member | corrected member |
|---|---|---|---|---|---|---|
| labo-3/source/heatsim-mpi.c:29-46 | heatsim_init succeeds whenever dim_x * dim_y is at most the world size, and records rank_count as the size of MPI_COMM_WORLD; the coordinator loops then visit ranks that have no position in the grid | a world of 2 processes with dim_x = dim_y = 1: rank 0 succeeds with rank_count 2 for a one-process grid | succeed only when dim_x * dim_y equals the world size, so that every rank below rank_count has coordinates | not executed | Topology.InitAsWrittenAcceptsSurplusRanks | Topology.Init |
