/** Off-screen pixel buffers and the view tree drawn into them. A buffer
    keeps its pixels row by row; rendering copies a rectangle of one buffer
    into a rectangle of the same size in another; a view renders its own
    buffer and then each of its subviews, in the order they were added, on
    top of it. */
module Views {
  import opened Base

  // ---------------------------------------------------------------------
  // Row-major grids

  /** Multiplying by `w` keeps the order. */
  lemma {:induction false} MulMono(w: nat, a: nat, b: nat)
    requires a <= b
    ensures w * a <= w * b
    decreases b - a
  {
    if a < b {
      MulMono(w, a + 1, b);
      assert w * (a + 1) == w * a + w;
    }
  }

  lemma MulStep(w: nat, a: nat, b: nat)
    requires a < b
    ensures w * a + w <= w * b
  {
    MulMono(w, a + 1, b);
    assert w * (a + 1) == w * a + w;
  }

  /** The row-major index of a cell lies inside the grid. */
  lemma GridIndex(w: nat, h: nat, x: nat, y: nat)
    requires x < w && y < h
    ensures w * y + x < w * h
  {
    MulStep(w, y, h);
  }

  /** Distinct cells have distinct row-major indices. */
  lemma GridInjective(w: nat, x1: nat, y1: nat, x2: nat, y2: nat)
    requires x1 < w && x2 < w && w * y1 + x1 == w * y2 + x2
    ensures x1 == x2 && y1 == y2
  {
    if y1 < y2 {
      MulStep(w, y1, y2);
      assert false;
    } else if y2 < y1 {
      MulStep(w, y2, y1);
      assert false;
    }
  }

  // ---------------------------------------------------------------------
  // Buffers

  /** A buffer of `width` by `height` pixels, row by row. */
  datatype ViewBuffer = ViewBuffer(data: seq<Color>, width: u64, height: u64)

  /** The buffer has one pixel per cell. Every buffer the code makes does. */
  predicate Valid(b: ViewBuffer) {
    |b.data| == b.width * b.height
  }

  /** The pixel in column `x` of row `y`. */
  function Pixel(b: ViewBuffer, x: nat, y: nat): Color
    requires Valid(b) && x < b.width && y < b.height
  {
    GridIndex(b.width, b.height, x, y);
    b.data[b.width * y + x]
  }

  /** `ViewBuffer::new`: every pixel transparent. */
  function NewBuffer(width: u64, height: u64): (b: ViewBuffer)
    ensures Valid(b) && b.width == width && b.height == height
    ensures forall x, y :: 0 <= x < width && 0 <= y < height ==> Pixel(b, x, y) == Transparent()
  {
    var b := ViewBuffer(seq(width * height, _ => Transparent()), width, height);
    forall x, y | 0 <= x < width && 0 <= y < height ensures Pixel(b, x, y) == Transparent() {
      GridIndex(width, height, x, y);
    }
    b
  }

  /** `write_pixel`: a cell outside the buffer is refused by an assertion,
      hence the precondition. Only the pixel written changes. */
  function WritePixel(b: ViewBuffer, x: nat, y: nat, color: Color): (r: ViewBuffer)
    requires Valid(b) && x < b.width && y < b.height
    ensures Valid(r) && r.width == b.width && r.height == b.height
    ensures Pixel(r, x, y) == color
    ensures forall x', y' :: 0 <= x' < b.width && 0 <= y' < b.height && (x', y') != (x, y) ==>
      Pixel(r, x', y') == Pixel(b, x', y')
  {
    GridIndex(b.width, b.height, x, y);
    var r := b.(data := b.data[b.width * y + x := color]);
    forall x', y' | 0 <= x' < b.width && 0 <= y' < b.height && (x', y') != (x, y)
      ensures Pixel(r, x', y') == Pixel(b, x', y')
    {
      StoreElsewhere(b, x, y, color, x', y');
    }
    r
  }

  /** Storing at one cell's index leaves every other cell as it was. */
  lemma StoreElsewhere(b: ViewBuffer, x: nat, y: nat, color: Color, x': nat, y': nat)
    requires Valid(b) && x < b.width && y < b.height && x' < b.width && y' < b.height
    requires (x', y') != (x, y)
    ensures b.width * y + x < |b.data|
    ensures Pixel(b.(data := b.data[b.width * y + x := color]), x', y') == Pixel(b, x', y')
  {
    GridIndex(b.width, b.height, x, y);
    GridIndex(b.width, b.height, x', y');
    if b.width * y' + x' == b.width * y + x {
      GridInjective(b.width, x', y', x, y);
    }
  }

  // ---------------------------------------------------------------------
  // Rendering one buffer into another

  /** The assertions of `render` as written: the frame and the bounds have
      the same size, the frame fits in the destination, the bounds' origin
      lies in the source, and the bounds' far edges fit in the destination. */
  predicate GuardAsWritten(dst: ViewBuffer, src: ViewBuffer, frame: Rect, bounds: Rect) {
    frame.width == bounds.width && frame.height == bounds.height &&
    frame.origin.x < dst.width && frame.origin.y < dst.height &&
    frame.origin.x + frame.width <= dst.width && frame.origin.y + frame.height <= dst.height &&
    bounds.origin.x < src.width && bounds.origin.y < src.height &&
    bounds.origin.x + bounds.width <= dst.width && bounds.origin.y + bounds.height <= dst.height
  }

  /** The row-major index `render` reads from the source for the cell in
      column `c` of row `r` of the bounds. */
  function ReadIndex(src: ViewBuffer, bounds: Rect, r: nat, c: nat): nat {
    src.width * (bounds.origin.y + r) + bounds.origin.x + c
  }

  /** Every read of `render` lies in the source. */
  predicate ReadsInside(src: ViewBuffer, bounds: Rect) {
    forall r, c :: 0 <= r < bounds.height && 0 <= c < bounds.width ==>
      ReadIndex(src, bounds, r, c) < |src.data|
  }

  /** The guard lets a 3 by 1 rectangle be read from a 2 by 1 source into a
      3 by 1 destination, and the third read falls past the source's pixels. */
  lemma GuardAdmitsOverread()
    ensures var dst := NewBuffer(3, 1);
      var src := NewBuffer(2, 1);
      var whole := FromOrigin(3, 1);
      GuardAsWritten(dst, src, whole, whole) && !ReadsInside(src, whole)
  {
    var src := NewBuffer(2, 1);
    var whole := FromOrigin(3, 1);
    assert ReadIndex(src, whole, 0, 2) >= |src.data|;
  }

  /** The guard as written also admits bounds whose rows run past the end
      of a source row while every read stays inside the source's pixels:
      in a 2 by 2 source, bounds of width 2 at column 1 read pixel 1 of row
      0 and then pixel 0 of row 1, so the row drawn wraps round instead of
      failing an assertion. */
  lemma GuardAdmitsWrap()
    ensures var dst := NewBuffer(3, 1);
      var src := NewBuffer(2, 2);
      var frame := FromOrigin(2, 1);
      var bounds := Rect(Point(1, 0), 2, 1);
      GuardAsWritten(dst, src, frame, bounds) && ReadsInside(src, bounds) &&
      bounds.origin.x + bounds.width > src.width && ReadIndex(src, bounds, 0, 1) == src.width * (bounds.origin.y + 1)
  {
    var src := NewBuffer(2, 2);
    var bounds := Rect(Point(1, 0), 2, 1);
    forall r, c | 0 <= r < bounds.height && 0 <= c < bounds.width
      ensures ReadIndex(src, bounds, r, c) < |src.data|
    {
      assert r == 0;
    }
  }

  /** The guard with the bounds' far edges checked against the source. */
  predicate Guard(dst: ViewBuffer, src: ViewBuffer, frame: Rect, bounds: Rect) {
    frame.width == bounds.width && frame.height == bounds.height &&
    frame.origin.x < dst.width && frame.origin.y < dst.height &&
    frame.origin.x + frame.width <= dst.width && frame.origin.y + frame.height <= dst.height &&
    bounds.origin.x < src.width && bounds.origin.y < src.height &&
    bounds.origin.x + bounds.width <= src.width && bounds.origin.y + bounds.height <= src.height
  }

  /** Under the corrected guard every read lies in the source. */
  lemma GuardReadsInside(dst: ViewBuffer, src: ViewBuffer, frame: Rect, bounds: Rect)
    requires Valid(src) && Guard(dst, src, frame, bounds)
    ensures ReadsInside(src, bounds)
  {
    forall r, c | 0 <= r < bounds.height && 0 <= c < bounds.width
      ensures ReadIndex(src, bounds, r, c) < |src.data|
    {
      GridIndex(src.width, src.height, bounds.origin.x + c, bounds.origin.y + r);
    }
  }

  /** Where the cell `(x, y)` of a frame finds its pixel in the bounds. */
  function SourceX(frame: Rect, bounds: Rect, x: int): int {
    bounds.origin.x + (x - frame.origin.x)
  }

  function SourceY(frame: Rect, bounds: Rect, y: int): int {
    bounds.origin.y + (y - frame.origin.y)
  }

  /** Whether the loop of `render` has drawn cell `(x, y)` once it stands at
      column `column` of row `row` of the frame. */
  predicate Drawn(frame: Rect, row: int, column: int, x: int, y: int) {
    InRect(frame, x, y) &&
    (y - frame.origin.y < row || (y - frame.origin.y == row && x - frame.origin.x < column))
  }

  /** What `render` makes of the destination: the frame shows the bounds of
      the source, and every other pixel is left alone. */
  predicate Rendered(out: ViewBuffer, dst: ViewBuffer, src: ViewBuffer, frame: Rect, bounds: Rect)
    requires Valid(dst) && Valid(src) && Guard(dst, src, frame, bounds)
  {
    Valid(out) && out.width == dst.width && out.height == dst.height &&
    forall x, y :: 0 <= x < dst.width && 0 <= y < dst.height ==>
      Pixel(out, x, y) ==
        if InRect(frame, x, y) then Pixel(src, SourceX(frame, bounds, x), SourceY(frame, bounds, y))
        else Pixel(dst, x, y)
  }

  /** A row-major position `pixel` of a `w` by `h` rectangle that stands at
      column `column` of row `row`, with the column past the last one only
      once a row is done, is inside the rectangle while `pixel` is. */
  lemma RowInRange(w: nat, h: nat, row: nat, column: nat, pixel: nat)
    requires column <= w && pixel == row * w + column && pixel < w * h
    ensures 0 < w && (column < w ==> row < h) && (column == w ==> row + 1 < h)
  {
    if w == 0 {
      assert false;
    }
    if column < w && row >= h {
      MulMono(w, h, row);
      assert false;
    }
    if column == w && row + 1 >= h {
      MulMono(w, h, row + 1);
      assert false;
    }
  }

  /** When the loop stops after at least one pixel, it stands past the last
      column of the last row. */
  lemma LoopEnd(w: nat, h: nat, row: nat, column: nat)
    requires 1 <= column <= w && row * w + column == w * h
    ensures row + 1 == h && column == w
  {
    if row + 1 < h {
      MulStep(w, row + 1, h);
      assert false;
    }
    if row + 1 > h {
      MulStep(w, h, row + 1);
      assert false;
    }
  }

  /** Drawing the cell at column `column` of row `row` adds exactly that
      cell to the drawn ones. */
  lemma DrawnAdvance(frame: Rect, row: nat, column: nat, x: int, y: int)
    requires row < frame.height && column < frame.width
    ensures Drawn(frame, row, column + 1, x, y) <==>
      Drawn(frame, row, column, x, y) || (x == frame.origin.x + column && y == frame.origin.y + row)
  {
  }

  /** When the loop stops, every cell of the frame is drawn. */
  lemma DrawnAll(frame: Rect, row: nat, column: nat, pixel: nat, x: int, y: int)
    requires column <= frame.width && pixel == row * frame.width + column
    requires pixel == frame.width * frame.height && (0 < pixel ==> 1 <= column)
    ensures Drawn(frame, row, column, x, y) <==> InRect(frame, x, y)
  {
    if 0 < pixel {
      LoopEnd(frame.width, frame.height, row, column);
    } else if 0 < frame.width && 0 < frame.height {
      MulStep(frame.width, 0, frame.height);
      assert false;
    }
  }

  /** The destination as the loop of `render` leaves it at column `column`
      of row `row`: the cells drawn so far show the source, the others are
      as they were. */
  predicate Painted(out: ViewBuffer, dst: ViewBuffer, src: ViewBuffer, frame: Rect, bounds: Rect,
                    row: nat, column: nat)
    requires Valid(dst) && Valid(src) && Guard(dst, src, frame, bounds)
  {
    Valid(out) && out.width == dst.width && out.height == dst.height &&
    forall x, y :: 0 <= x < dst.width && 0 <= y < dst.height ==>
      Pixel(out, x, y) ==
        if Drawn(frame, row, column, x, y) then Pixel(src, SourceX(frame, bounds, x), SourceY(frame, bounds, y))
        else Pixel(dst, x, y)
  }

  /** Overlaying the next cell with its source pixel draws it. */
  lemma PaintCell(out: ViewBuffer, dst: ViewBuffer, src: ViewBuffer, frame: Rect, bounds: Rect,
                  row: nat, column: nat)
    requires Valid(dst) && Valid(src) && Guard(dst, src, frame, bounds)
    requires row < frame.height && column < frame.width
    requires Painted(out, dst, src, frame, bounds, row, column)
    ensures var x0, y0 := frame.origin.x + column, frame.origin.y + row;
      x0 < dst.width && y0 < dst.height &&
      bounds.origin.x + column < src.width && bounds.origin.y + row < src.height &&
      Painted(WritePixel(out, x0, y0, Overlay(Pixel(out, x0, y0), Pixel(src, bounds.origin.x + column, bounds.origin.y + row))),
              dst, src, frame, bounds, row, column + 1)
  {
    var x0, y0 := frame.origin.x + column, frame.origin.y + row;
    var next := WritePixel(out, x0, y0, Overlay(Pixel(out, x0, y0), Pixel(src, bounds.origin.x + column, bounds.origin.y + row)));
    forall x, y | 0 <= x < dst.width && 0 <= y < dst.height
      ensures Pixel(next, x, y) ==
        if Drawn(frame, row, column + 1, x, y) then Pixel(src, SourceX(frame, bounds, x), SourceY(frame, bounds, y))
        else Pixel(dst, x, y)
    {
      DrawnAdvance(frame, row, column, x, y);
    }
  }

  /** Where the loop of `render` stands: the frame cell it drew last (row,
      and column past it) and the destination and source indices after it. */
  predicate At(dst: ViewBuffer, src: ViewBuffer, frame: Rect, bounds: Rect,
               row: nat, column: nat, frameIndex: nat, boundsIndex: nat) {
    column <= frame.width &&
    frameIndex == dst.width * (frame.origin.y + row) + frame.origin.x + column &&
    boundsIndex == src.width * (bounds.origin.y + row) + bounds.origin.x + column
  }

  /** At the end of a row both indices move to the start of the next, and
      the cells drawn stay the same. */
  lemma NextRow(out: ViewBuffer, dst: ViewBuffer, src: ViewBuffer, frame: Rect, bounds: Rect, row: nat)
    requires Valid(dst) && Valid(src) && Guard(dst, src, frame, bounds)
    requires Painted(out, dst, src, frame, bounds, row, frame.width)
    ensures Painted(out, dst, src, frame, bounds, row + 1, 0)
    ensures At(dst, src, frame, bounds, row + 1, 0,
      dst.width * (row + 1 + frame.origin.y) + frame.origin.x,
      src.width * (row + 1 + bounds.origin.y) + bounds.origin.x)
  {
    forall x, y ensures Drawn(frame, row, frame.width, x, y) <==> Drawn(frame, row + 1, 0, x, y) {
    }
  }

  /** Storing at the row-major index of a cell writes that cell. */
  lemma StoreIsWrite(b: ViewBuffer, x: nat, y: nat, i: nat, color: Color)
    requires Valid(b) && x < b.width && y < b.height && i == b.width * y + x
    ensures i < |b.data| && Pixel(b, x, y) == b.data[i]
    ensures b.(data := b.data[i := color]) == WritePixel(b, x, y, color)
  {
    GridIndex(b.width, b.height, x, y);
  }

  /** The cell the next turn of the loop of `render` draws: the next one in
      the row, or, at the end of a row, the first of the next row. */
  method NextCell(out: ViewBuffer, dst: ViewBuffer, src: ViewBuffer, frame: Rect, bounds: Rect,
                  row: nat, column: nat, frameIndex: nat, boundsIndex: nat, pixel: nat)
    returns (row': nat, column': nat, frameIndex': nat, boundsIndex': nat)
    requires Valid(dst) && Valid(src) && Guard(dst, src, frame, bounds)
    requires At(dst, src, frame, bounds, row, column, frameIndex, boundsIndex)
    requires pixel == row * frame.width + column && pixel < frame.width * frame.height
    requires Painted(out, dst, src, frame, bounds, row, column)
    ensures At(dst, src, frame, bounds, row', column', frameIndex', boundsIndex')
    ensures pixel == row' * frame.width + column' && column' < frame.width && row' < frame.height
    ensures Painted(out, dst, src, frame, bounds, row', column')
  {
    row', column', frameIndex', boundsIndex' := row, column, frameIndex, boundsIndex;
    RowInRange(frame.width, frame.height, row, column, pixel);
    if column' == frame.width {
      NextRow(out, dst, src, frame, bounds, row);
      row' := row' + 1;
      frameIndex' := dst.width * (row' + frame.origin.y) + frame.origin.x;
      boundsIndex' := src.width * (row' + bounds.origin.y) + bounds.origin.x;
      column' := 0;
    }
  }

  /** Overlaying the destination pixel at `frameIndex` with the source pixel
      at `boundsIndex` draws the cell the loop stands at. */
  method PaintAt(out: ViewBuffer, dst: ViewBuffer, src: ViewBuffer, frame: Rect, bounds: Rect,
                 row: nat, column: nat, frameIndex: nat, boundsIndex: nat)
    returns (out': ViewBuffer)
    requires Valid(dst) && Valid(src) && Guard(dst, src, frame, bounds)
    requires At(dst, src, frame, bounds, row, column, frameIndex, boundsIndex)
    requires column < frame.width && row < frame.height
    requires Painted(out, dst, src, frame, bounds, row, column)
    ensures Painted(out', dst, src, frame, bounds, row, column + 1)
  {
    var x0, y0 := frame.origin.x + column, frame.origin.y + row;
    PaintCell(out, dst, src, frame, bounds, row, column);
    GridIndex(dst.width, dst.height, x0, y0);
    GridIndex(src.width, src.height, bounds.origin.x + column, bounds.origin.y + row);
    assert |out.data| == dst.width * dst.height;
    StoreIsWrite(out, x0, y0, frameIndex, Overlay(out.data[frameIndex], src.data[boundsIndex]));
    StoreIsWrite(src, bounds.origin.x + column, bounds.origin.y + row, boundsIndex, Transparent());
    out' := out.(data := out.data[frameIndex := Overlay(out.data[frameIndex], src.data[boundsIndex])]);
  }

  /** One turn of the loop of `render`: at the end of a row, move both
      indices to the start of the next; then overlay the destination pixel
      with the source pixel and step both indices on. */
  method RenderTurn(out: ViewBuffer, dst: ViewBuffer, src: ViewBuffer, frame: Rect, bounds: Rect,
                    row: nat, column: nat, frameIndex: nat, boundsIndex: nat, pixel: nat)
    returns (out': ViewBuffer, row': nat, column': nat, frameIndex': nat, boundsIndex': nat)
    requires Valid(dst) && Valid(src) && Guard(dst, src, frame, bounds)
    requires At(dst, src, frame, bounds, row, column, frameIndex, boundsIndex)
    requires pixel == row * frame.width + column && pixel < frame.width * frame.height
    requires Painted(out, dst, src, frame, bounds, row, column)
    ensures At(dst, src, frame, bounds, row', column', frameIndex', boundsIndex')
    ensures pixel + 1 == row' * frame.width + column' && 1 <= column'
    ensures Painted(out', dst, src, frame, bounds, row', column')
  {
    row', column', frameIndex', boundsIndex' := NextCell(out, dst, src, frame, bounds, row, column, frameIndex, boundsIndex, pixel);
    out' := PaintAt(out, dst, src, frame, bounds, row', column', frameIndex', boundsIndex');
    column' := column' + 1;
    frameIndex' := frameIndex' + 1;
    boundsIndex' := boundsIndex' + 1;
  }

  /** `ViewBuffer::render`, with the corrected guard: walks the frame row by
      row, overlaying each destination pixel with the matching source pixel.
      `count` is the number of turns the loop takes. The guard as written
      checks the bounds' far edges against the destination instead; the
      calls it admits beyond `Guard` either read past the source's pixels
      (`GuardAdmitsOverread`, an out-of-range panic) or draw rows that wrap
      round into the next source row (`GuardAdmitsWrap`). Neither is
      modelled here. */
  method Render(dst: ViewBuffer, src: ViewBuffer, frame: Rect, bounds: Rect)
    returns (out: ViewBuffer, count: nat)
    requires Valid(dst) && Valid(src) && Guard(dst, src, frame, bounds)
    ensures Rendered(out, dst, src, frame, bounds)
    ensures count == frame.width * frame.height
  {
    out := dst;
    var frameIndex: nat := dst.width * frame.origin.y + frame.origin.x;
    var boundsIndex: nat := src.width * bounds.origin.y + bounds.origin.x;
    var column: nat, row: nat, pixel: nat := 0, 0, 0;
    Start(dst, src, frame, bounds);
    while pixel < frame.width * frame.height
      invariant At(dst, src, frame, bounds, row, column, frameIndex, boundsIndex)
      invariant Progress(frame, row, column, pixel)
      invariant Painted(out, dst, src, frame, bounds, row, column)
      decreases frame.width * frame.height - pixel
    {
      out, row, column, frameIndex, boundsIndex :=
        RenderTurn(out, dst, src, frame, bounds, row, column, frameIndex, boundsIndex, pixel);
      pixel := pixel + 1;
    }
    PaintedAll(out, dst, src, frame, bounds, row, column, pixel);
    count := pixel;
  }

  /** How far the loop of `render` has got: `pixel` cells of the frame, in
      row-major order, standing past the first cell of a row once any is
      drawn. */
  predicate Progress(frame: Rect, row: nat, column: nat, pixel: nat) {
    pixel == row * frame.width + column && pixel <= frame.width * frame.height &&
    (0 < pixel ==> 1 <= column)
  }

  /** Before the loop of `render`: nothing is drawn and both indices stand
      at the origins. */
  lemma Start(dst: ViewBuffer, src: ViewBuffer, frame: Rect, bounds: Rect)
    requires Valid(dst) && Valid(src) && Guard(dst, src, frame, bounds)
    ensures At(dst, src, frame, bounds, 0, 0,
      dst.width * frame.origin.y + frame.origin.x, src.width * bounds.origin.y + bounds.origin.x)
    ensures Progress(frame, 0, 0, 0)
    ensures Painted(dst, dst, src, frame, bounds, 0, 0)
  {
    assert 0 <= frame.width * frame.height;
  }

  /** Once the loop has drawn every cell of the frame, the destination is
      rendered. */
  lemma PaintedAll(out: ViewBuffer, dst: ViewBuffer, src: ViewBuffer, frame: Rect, bounds: Rect,
                   row: nat, column: nat, pixel: nat)
    requires Valid(dst) && Valid(src) && Guard(dst, src, frame, bounds)
    requires Painted(out, dst, src, frame, bounds, row, column)
    requires column <= frame.width && pixel == row * frame.width + column
    requires pixel == frame.width * frame.height && (0 < pixel ==> 1 <= column)
    ensures Rendered(out, dst, src, frame, bounds)
  {
    forall x, y ensures Drawn(frame, row, column, x, y) <==> InRect(frame, x, y) {
      DrawnAll(frame, row, column, pixel, x, y);
    }
  }

  /** `render_full`: the whole source, drawn at `frame`. */
  method RenderFull(dst: ViewBuffer, src: ViewBuffer, frame: Rect) returns (out: ViewBuffer)
    requires Valid(dst) && Valid(src)
    requires Guard(dst, src, frame, FromOrigin(src.width, src.height))
    ensures Rendered(out, dst, src, frame, FromOrigin(src.width, src.height))
    ensures forall x, y :: 0 <= x < dst.width && 0 <= y < dst.height && InRect(frame, x, y) ==>
      Pixel(out, x, y) == Pixel(src, x - frame.origin.x, y - frame.origin.y)
  {
    var count;
    out, count := Render(dst, src, frame, FromOrigin(src.width, src.height));
  }

  // ---------------------------------------------------------------------
  // Views

  /** A view: its subviews in drawing order, where it sits in its parent
      (`frame`), which part of its own buffer it shows (`bounds`), and its
      buffer. */
  datatype View = View(subviews: seq<View>, frame: Rect, bounds: Rect, buffer: ViewBuffer)

  /** `View::new`: no subviews, and a transparent buffer shown whole. */
  function NewView(w: u64, h: u64): (v: View)
    ensures v.subviews == [] && v.frame == FromOrigin(w, h) && v.bounds == FromOrigin(w, h)
    ensures v.buffer == NewBuffer(w, h)
  {
    View([], FromOrigin(w, h), FromOrigin(w, h), NewBuffer(w, h))
  }

  /** `add_subview`: frame and bounds of different sizes are refused by an
      assertion, hence the precondition. The subview, placed, goes last. */
  function AddSubview(v: View, subview: View, frame: Rect, bounds: Rect): (r: View)
    requires frame.width == bounds.width && frame.height == bounds.height
    ensures |r.subviews| == |v.subviews| + 1 && r.subviews[..|v.subviews|] == v.subviews
    ensures r.subviews[|v.subviews|] == subview.(frame := frame, bounds := bounds)
    ensures r.frame == v.frame && r.bounds == v.bounds && r.buffer == v.buffer
  {
    v.(subviews := v.subviews + [subview.(frame := frame, bounds := bounds)])
  }

  /** `add_full_subview`: the subview's whole buffer, placed at `origin`. */
  function AddFullSubview(v: View, subview: View, origin: Point): (r: View)
    ensures |r.subviews| == |v.subviews| + 1 && r.subviews[..|v.subviews|] == v.subviews
    ensures var placed := r.subviews[|v.subviews|];
      placed.frame == Rect(origin, subview.buffer.width, subview.buffer.height) &&
      placed.bounds == FromOrigin(subview.buffer.width, subview.buffer.height) &&
      placed.subviews == subview.subviews && placed.buffer == subview.buffer
    ensures r.frame == v.frame && r.bounds == v.bounds && r.buffer == v.buffer
  {
    var w, h := subview.buffer.width, subview.buffer.height;
    AddSubview(v, subview, Rect(origin, w, h), FromOrigin(w, h))
  }

  /** `View::write_pixel`: writes the view's own buffer. */
  function ViewWritePixel(v: View, x: nat, y: nat, color: Color): (r: View)
    requires Valid(v.buffer) && x < v.buffer.width && y < v.buffer.height
    ensures r.subviews == v.subviews && r.frame == v.frame && r.bounds == v.bounds
    ensures r.buffer == WritePixel(v.buffer, x, y, color)
  {
    v.(buffer := WritePixel(v.buffer, x, y, color))
  }

  /** The views `render` draws without failing an assertion: every buffer
      has a pixel per cell, frame and bounds have the same non-empty size,
      the bounds lie in the view's buffer, and every subview's frame lies in
      its parent's frame-sized canvas. */
  predicate Renderable(v: View)
    decreases v
  {
    Valid(v.buffer) &&
    Guard(NewBuffer(v.frame.width, v.frame.height), v.buffer,
          FromOrigin(v.frame.width, v.frame.height), v.bounds) &&
    forall i :: 0 <= i < |v.subviews| ==>
      Renderable(v.subviews[i]) &&
      Guard(NewBuffer(v.frame.width, v.frame.height),
            NewBuffer(v.subviews[i].frame.width, v.subviews[i].frame.height),
            v.subviews[i].frame,
            FromOrigin(v.subviews[i].frame.width, v.subviews[i].frame.height))
  }

  /** `View::render` draws its own buffer into a fresh canvas the size of
      its frame, with the whole canvas as the frame. The guard as written
      checks the bounds' far edges against that canvas, so it holds only for
      bounds at the origin: a view shown through shifted bounds fails an
      assertion. For bounds at the origin the corrected guard implies the
      guard as written; the converse fails (`OversizedViewRefused`). */
  lemma ViewGuardForcesOrigin(v: View)
    ensures var w, h := v.frame.width, v.frame.height;
      GuardAsWritten(NewBuffer(w, h), v.buffer, FromOrigin(w, h), v.bounds) ==> v.bounds.origin == Origin()
    ensures var w, h := v.frame.width, v.frame.height;
      Guard(NewBuffer(w, h), v.buffer, FromOrigin(w, h), v.bounds) && v.bounds.origin == Origin() ==>
        GuardAsWritten(NewBuffer(w, h), v.buffer, FromOrigin(w, h), v.bounds)
  {
  }

  /** A view at the origin whose bounds are wider than its buffer: the
      guard as written lets `View::render` draw it, reading pixels (0, 0),
      (1, 0) and (0, 1) of the 2 by 2 buffer as one wrapped row, while the
      model refuses it. */
  lemma OversizedViewRefused()
    ensures var v := View([], FromOrigin(3, 1), FromOrigin(3, 1), NewBuffer(2, 2));
      GuardAsWritten(NewBuffer(3, 1), v.buffer, FromOrigin(3, 1), v.bounds) &&
      ReadsInside(v.buffer, v.bounds) && !Renderable(v)
  {
    var src := NewBuffer(2, 2);
    var bounds := FromOrigin(3, 1);
    forall r, c | 0 <= r < bounds.height && 0 <= c < bounds.width
      ensures ReadIndex(src, bounds, r, c) < |src.data|
    {
      assert r == 0;
    }
  }

  /** A view with shifted bounds that the model renders, and that the
      guard as written refuses. */
  lemma ShiftedViewRenderable()
    ensures var v := View([], FromOrigin(2, 1), Rect(Point(1, 0), 2, 1), NewBuffer(3, 1));
      Renderable(v) &&
      !GuardAsWritten(NewBuffer(2, 1), v.buffer, FromOrigin(2, 1), v.bounds)
  {
  }

  /** Whether `(x, y)` lies in the frame of one of the first `n` subviews. */
  predicate Covered(subviews: seq<View>, n: nat, x: int, y: int)
    requires n <= |subviews|
  {
    exists i :: 0 <= i < n && InRect(subviews[i].frame, x, y)
  }

  /** `View::render`: a canvas the size of the frame showing the bounds of
      the view's buffer, with each subview rendered and drawn on top in turn.
      Where no subview covers it, the canvas shows the view's own buffer.
      This is the render with the corrected guard: as written, the guard
      fails for every view whose bounds do not start at the origin
      (`ViewGuardForcesOrigin`), and such views are rendered here. */
  method RenderView(v: View) returns (canvas: ViewBuffer)
    requires Renderable(v)
    ensures Valid(canvas) && canvas.width == v.frame.width && canvas.height == v.frame.height
    ensures forall x, y ::
      0 <= x < canvas.width && 0 <= y < canvas.height && !Covered(v.subviews, |v.subviews|, x, y) ==>
        Pixel(canvas, x, y) == Pixel(v.buffer, v.bounds.origin.x + x, v.bounds.origin.y + y)
    decreases v
  {
    var whole := FromOrigin(v.frame.width, v.frame.height);
    var blank := NewBuffer(v.frame.width, v.frame.height);
    var count;
    canvas, count := Render(blank, v.buffer, whole, v.bounds);
    var i := 0;
    while i < |v.subviews|
      invariant i <= |v.subviews|
      invariant Valid(canvas) && canvas.width == v.frame.width && canvas.height == v.frame.height
      invariant forall x, y ::
        0 <= x < canvas.width && 0 <= y < canvas.height && !Covered(v.subviews, i, x, y) ==>
          Pixel(canvas, x, y) == Pixel(v.buffer, v.bounds.origin.x + x, v.bounds.origin.y + y)
    {
      var sub := v.subviews[i];
      assert Renderable(sub);
      var drawn := RenderView(sub);
      var before := canvas;
      canvas := RenderFull(canvas, drawn, sub.frame);
      forall x, y | 0 <= x < canvas.width && 0 <= y < canvas.height && !Covered(v.subviews, i + 1, x, y)
        ensures Pixel(canvas, x, y) == Pixel(v.buffer, v.bounds.origin.x + x, v.bounds.origin.y + y)
      {
        assert !InRect(sub.frame, x, y);
        assert !Covered(v.subviews, i, x, y);
        assert Pixel(canvas, x, y) == Pixel(before, x, y);
      }
      i := i + 1;
    }
  }
}
