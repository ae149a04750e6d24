/** The padded grid of one sub-domain: a flat row-major buffer of
    width_padded * height_padded cells, where width_padded = width + 2 * padding
    and height_padded = height + 2 * padding. The logical cell (x, y), with
    -padding <= x < width + padding and likewise for y, is stored at offset
    (y + padding) * width_padded + (x + padding). Cells are only ever copied,
    so their type is a parameter. */
module Grids {
  import opened Torus
  import RowMajor
  import Transport

  datatype GridShape = GridShape(width: nat, height: nat, padding: nat) {
    function WidthPadded(): nat { width + 2 * padding }
    function HeightPadded(): nat { height + 2 * padding }
    function Size(): nat { WidthPadded() * HeightPadded() }

    /** (x, y) addresses a cell of the padded buffer. */
    predicate InPadded(x: int, y: int) {
      -(padding as int) <= x < width + padding && -(padding as int) <= y < height + padding
    }

    /** (x, y) is a logical (unpadded) cell. */
    predicate InLogical(x: int, y: int) {
      0 <= x < width && 0 <= y < height
    }

    /** The offset of cell (x, y) in the buffer. */
    function Index(x: int, y: int): (k: nat)
      requires InPadded(x, y)
      ensures k < Size()
    {
      RowMajor.OffsetInRange(y + padding, x + padding, HeightPadded(), WidthPadded());
      (y + padding) * WidthPadded() + (x + padding)
    }

    /** The cell stored at offset k. */
    function Decode(k: nat): (c: Coord)
      requires k < Size()
      ensures InPadded(c.x, c.y) && Index(c.x, c.y) == k
    {
      RowMajor.RowInRange(k, HeightPadded(), WidthPadded());
      Coord(k % WidthPadded() - padding, k / WidthPadded() - padding)
    }

    /** Decoding the offset of a cell gives the cell back, so distinct cells
        have distinct offsets. */
    lemma DecodeIndex(x: int, y: int)
      requires InPadded(x, y)
      ensures Decode(Index(x, y)) == Coord(x, y)
    {
      RowMajor.OffsetDecodes(y + padding, x + padding, WidthPadded());
    }

    /** The shape heatsim_exchange_borders works on: a one-cell padding
        around a non-empty logical grid. */
    predicate HasHalo() {
      padding == 1 && 1 <= width && 1 <= height
    }

    /** Number of cells along a side: a column of `height` cells on the west
        and east, a row of `width` cells on the north and south. */
    function SideLength(side: Side): nat {
      if side == West || side == East then height else width
    }

    /** Distance in the buffer between consecutive cells along a side: a
        column is strided by width_padded, a row is contiguous. */
    function SideStride(side: Side): nat {
      if side == West || side == East then WidthPadded() else 1
    }

    /** Cell i of the padding strip on a side: (-1, i), (width, i), (i, -1)
        and (i, height) for west, east, north and south. */
    function StripCoord(side: Side, i: int): Coord {
      match side
      case West => Coord(-1, i)
      case East => Coord(width, i)
      case North => Coord(i, -1)
      case South => Coord(i, height)
    }

    /** Cell i of the logical border on a side: column 0, column width - 1,
        row 0 and row height - 1. */
    function BorderCoord(side: Side, i: int): Coord {
      match side
      case West => Coord(0, i)
      case East => Coord(width - 1, i)
      case North => Coord(i, 0)
      case South => Coord(i, height - 1)
    }

    /** (x, y) lies on one of the four padding strips (corners excluded). */
    predicate OnStrip(x: int, y: int) {
      || ((x == -1 || x == width) && 0 <= y < height)
      || ((y == -1 || y == height) && 0 <= x < width)
    }

    /** The strips lie in the padding and the borders in the logical grid. */
    lemma SideCells(side: Side, i: int)
      requires HasHalo() && 0 <= i < SideLength(side)
      ensures var s := StripCoord(side, i); InPadded(s.x, s.y) && OnStrip(s.x, s.y)
      ensures var b := BorderCoord(side, i); InPadded(b.x, b.y) && InLogical(b.x, b.y) && !OnStrip(b.x, b.y)
    {
    }

    /** A strip or border is laid out from its first cell in steps of the
        side's stride: the west and east columns are vectors of `height`
        cells with stride width_padded, the north and south rows contiguous
        runs of `width` cells. */
    lemma SideLayout(side: Side, i: int)
      requires HasHalo() && 0 <= i < SideLength(side)
      ensures var s, s0 := StripCoord(side, i), StripCoord(side, 0);
        Index(s.x, s.y) == Index(s0.x, s0.y) + i * SideStride(side)
      ensures var b, b0 := BorderCoord(side, i), BorderCoord(side, 0);
        Index(b.x, b.y) == Index(b0.x, b0.y) + i * SideStride(side)
    {
      SideCells(side, i);
      SideCells(side, 0);
      if side == West || side == East {
        var s0, b0 := StripCoord(side, 0), BorderCoord(side, 0);
        ColumnStep(s0.x, 0, i);
        ColumnStep(b0.x, 0, i);
      }
    }

    /** Moving i cells down a column moves i rows through the buffer. */
    lemma ColumnStep(x: int, y: int, i: int)
      requires InPadded(x, y) && InPadded(x, y + i)
      ensures Index(x, y + i) == Index(x, y) + i * WidthPadded()
    {
      RowMajor.Distribute(y + padding, i, WidthPadded());
    }
  }

  /** The value of a grid: its shape and the contents of its buffer. */
  datatype GridImage<T> = GridImage(shape: GridShape, data: seq<T>) {
    predicate Valid() { |data| == shape.Size() }

    function Cell(x: int, y: int): T
      requires Valid() && shape.InPadded(x, y)
    {
      data[shape.Index(x, y)]
    }
  }

  /** The logical border on a side, in order (the cells a process sends). */
  function Border<T>(img: GridImage<T>, side: Side): (r: seq<T>)
    requires img.Valid() && img.shape.HasHalo()
    ensures |r| == img.shape.SideLength(side)
  {
    seq(img.shape.SideLength(side), i requires 0 <= i < img.shape.SideLength(side) =>
      img.shape.SideCells(side, i);
      var b := img.shape.BorderCoord(side, i); img.Cell(b.x, b.y))
  }

  /** The padding strip on a side, in order (where a process receives). */
  function Padding<T>(img: GridImage<T>, side: Side): (r: seq<T>)
    requires img.Valid() && img.shape.HasHalo()
    ensures |r| == img.shape.SideLength(side)
  {
    seq(img.shape.SideLength(side), i requires 0 <= i < img.shape.SideLength(side) =>
      img.shape.SideCells(side, i);
      var s := img.shape.StripCoord(side, i); img.Cell(s.x, s.y))
  }

  /** The contents of the four padding strips. */
  datatype Halo<T> = Halo(west: seq<T>, east: seq<T>, north: seq<T>, south: seq<T>) {
    function Get(side: Side): seq<T> {
      match side
      case West => west
      case East => east
      case North => north
      case South => south
    }

    /** The halo with the strip on one side replaced; a strip of the same
        length keeps every strip's length. */
    function With(side: Side, strip: seq<T>): (h: Halo<T>)
      ensures h.Get(side) == strip
      ensures |strip| == |Get(side)| ==> |h.west| == |west| && |h.east| == |east| && |h.north| == |north| && |h.south| == |south|
    {
      match side
      case West => this.(west := strip)
      case East => this.(east := strip)
      case North => this.(north := strip)
      case South => this.(south := strip)
    }

    predicate Fits(s: GridShape) {
      |west| == s.height && |east| == s.height && |north| == s.width && |south| == s.width
    }

    /** Replacing a strip twice keeps the second replacement. */
    lemma WithTwice(side: Side, a: seq<T>, b: seq<T>)
      ensures With(side, a).With(side, b) == With(side, b) && With(side, a).Get(side) == a
    {
    }
  }

  /** The halo a grid currently holds in its padding. */
  function PaddingOf<T>(img: GridImage<T>): (h: Halo<T>)
    requires img.Valid() && img.shape.HasHalo()
    ensures h.Fits(img.shape)
  {
    Halo(Padding(img, West), Padding(img, East), Padding(img, North), Padding(img, South))
  }

  /** Cell (x, y) of `img` once its padding strips hold `halo`. */
  function PaddedCell<T>(img: GridImage<T>, halo: Halo<T>, x: int, y: int): T
    requires img.Valid() && img.shape.HasHalo() && halo.Fits(img.shape) && img.shape.InPadded(x, y)
  {
    var w, h := img.shape.width, img.shape.height;
    if x == -1 && 0 <= y < h then halo.west[y]
    else if x == w && 0 <= y < h then halo.east[y]
    else if y == -1 && 0 <= x < w then halo.north[x]
    else if y == h && 0 <= x < w then halo.south[x]
    else img.Cell(x, y)
  }

  /** `img` with its four padding strips replaced by `halo`; every other
      cell (the logical grid and the four corners) is kept. */
  function WithPadding<T>(img: GridImage<T>, halo: Halo<T>): (r: GridImage<T>)
    requires img.Valid() && img.shape.HasHalo() && halo.Fits(img.shape)
    ensures r.shape == img.shape && r.Valid()
  {
    GridImage(img.shape, seq(|img.data|, k requires 0 <= k < |img.data| =>
      var c := img.shape.Decode(k); PaddedCell(img, halo, c.x, c.y)))
  }

  /** Reading cell (x, y) after the replacement. */
  lemma WithPaddingCell<T>(img: GridImage<T>, halo: Halo<T>, x: int, y: int)
    requires img.Valid() && img.shape.HasHalo() && halo.Fits(img.shape) && img.shape.InPadded(x, y)
    ensures WithPadding(img, halo).Cell(x, y) == PaddedCell(img, halo, x, y)
  {
    img.shape.DecodeIndex(x, y);
  }

  /** Writing back the halo a grid already holds changes nothing. */
  lemma WithOwnPadding<T>(img: GridImage<T>)
    requires img.Valid() && img.shape.HasHalo()
    ensures WithPadding(img, PaddingOf(img)) == img
  {
    var r := WithPadding(img, PaddingOf(img));
    forall k | 0 <= k < |img.data| ensures r.data[k] == img.data[k] {
      var c := img.shape.Decode(k);
      WithPaddingCell(img, PaddingOf(img), c.x, c.y);
    }
  }

  /** Replacing the padding strips leaves every cell off the strips (the
      logical grid and the corners) as it was. */
  lemma WithPaddingLogical<T>(img: GridImage<T>, halo: Halo<T>, x: int, y: int)
    requires img.Valid() && img.shape.HasHalo() && halo.Fits(img.shape) && img.shape.InPadded(x, y)
    requires !img.shape.OnStrip(x, y)
    ensures WithPadding(img, halo).Cell(x, y) == img.Cell(x, y)
  {
    WithPaddingCell(img, halo, x, y);
  }

  /** Writing cell i of a strip is the same as changing cell i of that
      strip in the halo. */
  lemma SetStripCell<T>(img: GridImage<T>, halo: Halo<T>, side: Side, i: nat, v: T)
    requires img.Valid() && img.shape.HasHalo() && halo.Fits(img.shape)
    requires i < img.shape.SideLength(side)
    ensures var s := img.shape.StripCoord(side, i);
      img.shape.InPadded(s.x, s.y)
      && WithPadding(img, halo.With(side, halo.Get(side)[i := v])).data
         == WithPadding(img, halo).data[img.shape.Index(s.x, s.y) := v]
  {
    var shape := img.shape;
    var halo' := halo.With(side, halo.Get(side)[i := v]);
    shape.SideCells(side, i);
    var s := shape.StripCoord(side, i);
    var a := WithPadding(img, halo').data;
    var b := WithPadding(img, halo).data[shape.Index(s.x, s.y) := v];
    forall k | 0 <= k < |a| ensures a[k] == b[k] {
      var c := shape.Decode(k);
      WithPaddingCell(img, halo', c.x, c.y);
      WithPaddingCell(img, halo, c.x, c.y);
      if c != s {
        shape.DecodeIndex(s.x, s.y);
      }
    }
  }

  /** The cells an MPI_Type_vector(count, 1, stride) datatype selects from a
      buffer, starting at offset `start`. */
  function Vector<T>(d: seq<T>, start: nat, count: nat, stride: nat): (r: seq<T>)
    requires count == 0 || start + (count - 1) * stride < |d|
    ensures |r| == count
  {
    seq(count, i requires 0 <= i < count =>
      RowMajor.StrideBelowLast(i, count, stride);
      d[start + i * stride])
  }

  /** Sending a side's border as a vector from its first cell sends exactly
      that border, whatever the padding holds. */
  lemma VectorReadsBorder<T>(img: GridImage<T>, halo: Halo<T>, side: Side)
    requires img.Valid() && img.shape.HasHalo() && halo.Fits(img.shape)
    ensures var b0 := img.shape.BorderCoord(side, 0);
      img.shape.InPadded(b0.x, b0.y)
      && var n := img.shape.SideLength(side);
      && (n == 0 || img.shape.Index(b0.x, b0.y) + (n - 1) * img.shape.SideStride(side) < |img.data|)
      && Vector(WithPadding(img, halo).data, img.shape.Index(b0.x, b0.y), n, img.shape.SideStride(side)) == Border(img, side)
  {
    var shape := img.shape;
    var n := shape.SideLength(side);
    shape.SideCells(side, 0);
    shape.SideCells(side, n - 1);
    shape.SideLayout(side, n - 1);
    var b0 := shape.BorderCoord(side, 0);
    var v := Vector(WithPadding(img, halo).data, shape.Index(b0.x, b0.y), n, shape.SideStride(side));
    forall i | 0 <= i < n ensures v[i] == Border(img, side)[i] {
      shape.SideCells(side, i);
      shape.SideLayout(side, i);
      var b := shape.BorderCoord(side, i);
      WithPaddingLogical(img, halo, b.x, b.y);
    }
  }

  /** The buffer after a receive of `cells` into an MPI_Type_vector of
      stride `stride` at offset `start`: cell i lands at start + i * stride. */
  function Scattered<T>(d: seq<T>, start: nat, stride: nat, cells: seq<T>): (r: seq<T>)
    requires |cells| == 0 || start + (|cells| - 1) * stride < |d|
    ensures |r| == |d|
    decreases |cells|
  {
    if cells == [] then d
    else
      var n := |cells| - 1;
      RowMajor.MulMonotone(n - 1, n, stride);
      Scattered(d, start, stride, cells[..n])[start + n * stride := cells[n]]
  }

  /** Receiving into a padding strip from its first cell, with the side's
      stride, replaces the received prefix of that strip in the halo. */
  lemma {:induction false} ScatterIntoPadding<T>(img: GridImage<T>, halo: Halo<T>, side: Side, cells: seq<T>)
    requires img.Valid() && img.shape.HasHalo() && halo.Fits(img.shape)
    requires |cells| <= img.shape.SideLength(side)
    ensures var s0 := img.shape.StripCoord(side, 0);
      img.shape.InPadded(s0.x, s0.y)
      && (|cells| == 0 || img.shape.Index(s0.x, s0.y) + (|cells| - 1) * img.shape.SideStride(side) < |img.data|)
      && Scattered(WithPadding(img, halo).data, img.shape.Index(s0.x, s0.y), img.shape.SideStride(side), cells)
         == WithPadding(img, halo.With(side, Transport.Land(cells, halo.Get(side)))).data
    decreases |cells|
  {
    var shape := img.shape;
    shape.SideCells(side, 0);
    var s0 := shape.StripCoord(side, 0);
    var start := shape.Index(s0.x, s0.y);
    var stride := shape.SideStride(side);
    if cells == [] {
      assert Transport.Land(cells, halo.Get(side)) == halo.Get(side);
      assert halo.With(side, halo.Get(side)) == halo;
    } else {
      var n := |cells| - 1;
      ScatterIntoPadding(img, halo, side, cells[..n]);
      ScatterLastCell(img, halo, side, cells);
    }
  }

  /** The inductive step of ScatterIntoPadding: the last received cell. */
  lemma ScatterLastCell<T>(img: GridImage<T>, halo: Halo<T>, side: Side, cells: seq<T>)
    requires img.Valid() && img.shape.HasHalo() && halo.Fits(img.shape)
    requires 0 < |cells| <= img.shape.SideLength(side)
    requires var s0 := img.shape.StripCoord(side, 0); var n := |cells| - 1;
      img.shape.InPadded(s0.x, s0.y)
      && (n == 0 || img.shape.Index(s0.x, s0.y) + (n - 1) * img.shape.SideStride(side) < |img.data|)
      && Scattered(WithPadding(img, halo).data, img.shape.Index(s0.x, s0.y), img.shape.SideStride(side), cells[..n])
         == WithPadding(img, halo.With(side, Transport.Land(cells[..n], halo.Get(side)))).data
    ensures var s0 := img.shape.StripCoord(side, 0);
      img.shape.Index(s0.x, s0.y) + (|cells| - 1) * img.shape.SideStride(side) < |img.data|
      && Scattered(WithPadding(img, halo).data, img.shape.Index(s0.x, s0.y), img.shape.SideStride(side), cells)
         == WithPadding(img, halo.With(side, Transport.Land(cells, halo.Get(side)))).data
  {
    var n := |cells| - 1;
    LandNextCell(img, halo, side, cells);
    assert cells[..n] == cells[..|cells| - 1];
  }

  /** Landing one more cell of a message in a strip writes that cell at
      its offset in the buffer, one stride past the previous one. */
  lemma LandNextCell<T>(img: GridImage<T>, halo: Halo<T>, side: Side, cells: seq<T>)
    requires img.Valid() && img.shape.HasHalo() && halo.Fits(img.shape)
    requires 0 < |cells| <= img.shape.SideLength(side) == |halo.Get(side)|
    ensures var s0 := img.shape.StripCoord(side, 0); var n := |cells| - 1;
      img.shape.InPadded(s0.x, s0.y)
      && img.shape.Index(s0.x, s0.y) + n * img.shape.SideStride(side) < |img.data|
      && WithPadding(img, halo.With(side, Transport.Land(cells, halo.Get(side)))).data
         == WithPadding(img, halo.With(side, Transport.Land(cells[..n], halo.Get(side)))).data
              [img.shape.Index(s0.x, s0.y) + n * img.shape.SideStride(side) := cells[n]]
  {
    var shape := img.shape;
    var n := |cells| - 1;
    shape.SideCells(side, n);
    shape.SideLayout(side, n);
    var strip := Transport.Land(cells[..n], halo.Get(side));
    LandOneMore(halo, side, cells);
    SetStripCell(img, halo.With(side, strip), side, n, cells[n]);
  }

  /** Landing one more cell of a message in a strip is one more update of
      that strip. */
  lemma LandOneMore<T>(halo: Halo<T>, side: Side, cells: seq<T>)
    requires 0 < |cells| <= |halo.Get(side)|
    ensures var n := |cells| - 1; var strip := Transport.Land(cells[..n], halo.Get(side));
      halo.With(side, strip).Get(side) == strip
      && halo.With(side, strip).With(side, strip[n := cells[n]]) == halo.With(side, Transport.Land(cells, halo.Get(side)))
  {
    var n := |cells| - 1;
    var strip := Transport.Land(cells[..n], halo.Get(side));
    halo.WithTwice(side, strip, strip[n := cells[n]]);
    Transport.LandStep(cells, halo.Get(side), n);
    assert cells[..n + 1] == cells;
  }

  /** A received contiguous run starting at offset 0 replaces a prefix of
      the buffer. */
  lemma {:induction false} ScatterPrefix<T>(d: seq<T>, cells: seq<T>)
    requires |cells| <= |d|
    ensures Scattered(d, 0, 1, cells) == Transport.Land(cells, d)
    decreases |cells|
  {
    if cells != [] {
      var n := |cells| - 1;
      ScatterPrefix(d, cells[..n]);
      assert Transport.Land(cells[..n], d)[n := cells[n]] == Transport.Land(cells, d);
    }
  }

  /** Padding column cells of a grid whose west and east strips hold the
      facing borders of two neighbours. */
  lemma ColumnCells<T>(img: GridImage<T>, halo: Halo<T>, w: GridImage<T>, e: GridImage<T>, i: int)
    requires img.Valid() && img.shape.HasHalo() && halo.Fits(img.shape)
    requires w.Valid() && w.shape.HasHalo() && e.Valid() && e.shape.HasHalo()
    requires w.shape.height == img.shape.height && e.shape.height == img.shape.height
    requires halo.west == Border(w, East) && halo.east == Border(e, West)
    requires 0 <= i < img.shape.height
    ensures WithPadding(img, halo).Cell(-1, i) == w.Cell(w.shape.width - 1, i)
    ensures WithPadding(img, halo).Cell(img.shape.width, i) == e.Cell(0, i)
  {
    WithPaddingCell(img, halo, -1, i);
    WithPaddingCell(img, halo, img.shape.width, i);
    w.shape.SideCells(East, i);
    e.shape.SideCells(West, i);
  }

  /** Padding row cells of a grid whose north and south strips hold the
      facing borders of two neighbours. */
  lemma RowCells<T>(img: GridImage<T>, halo: Halo<T>, n: GridImage<T>, s: GridImage<T>, i: int)
    requires img.Valid() && img.shape.HasHalo() && halo.Fits(img.shape)
    requires n.Valid() && n.shape.HasHalo() && s.Valid() && s.shape.HasHalo()
    requires n.shape.width == img.shape.width && s.shape.width == img.shape.width
    requires halo.north == Border(n, South) && halo.south == Border(s, North)
    requires 0 <= i < img.shape.width
    ensures WithPadding(img, halo).Cell(i, -1) == n.Cell(i, n.shape.height - 1)
    ensures WithPadding(img, halo).Cell(i, img.shape.height) == s.Cell(i, 0)
  {
    WithPaddingCell(img, halo, i, -1);
    WithPaddingCell(img, halo, i, img.shape.height);
    n.shape.SideCells(South, i);
    s.shape.SideCells(North, i);
  }

  /** A grid object (grid_t): a shape and its own cell buffer. */
  class Grid<T> {
    const shape: GridShape
    const data: array<T>

    predicate Valid() {
      data.Length == shape.Size()
    }

    function Image(): GridImage<T>
      reads data
    {
      GridImage(shape, data[..])
    }

    /** A grid of the given shape whose cells all hold `blank` (the storage
        grid_create allocates; its initial contents are not part of this
        model). */
    constructor (shape: GridShape, blank: T)
      ensures this.shape == shape && Valid() && fresh(data)
      ensures data[..] == seq(shape.Size(), _ => blank)
    {
      this.shape := shape;
      data := new T[shape.Size()](_ => blank);
    }
  }

  /** Store `cells` in `a` as a receive into an MPI_Type_vector does: cell i
      at offset start + i * stride (a contiguous receive has stride 1). */
  method Scatter<T>(a: array<T>, start: nat, stride: nat, cells: seq<T>)
    requires |cells| == 0 || start + (|cells| - 1) * stride < a.Length
    modifies a
    ensures a[..] == Scattered(old(a[..]), start, stride, cells)
  {
    for i := 0 to |cells|
      invariant a[..] == Scattered(old(a[..]), start, stride, cells[..i])
    {
      RowMajor.StrideBelowLast(i, |cells|, stride);
      a[start + i * stride] := cells[i];
      assert cells[..i + 1][..i] == cells[..i];
    }
    assert cells[..|cells|] == cells;
  }
}
