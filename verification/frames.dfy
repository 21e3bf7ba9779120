/** The frame tiling of the storage codec and the diff set of each frame. */
module FrameDiff {
  import opened Pixels
  import opened Colors

  /** The fixed frame size and offsets (`frame_width`, `frame_height`, `offset_x`, `offset_y`). */
  const FrameWidth := 16
  const FrameHeight := 27
  const OffsetX := 0
  const OffsetY := 0

  /** `_getpixel`: the cell at `(x, y)` of a row-major sheet `width` cells wide; an index past the
      end of the data reads as transparent. */
  function SheetPixel(data: seq<Color>, width: nat, x: nat, y: nat): (c: Color)
    ensures y * width + x < |data| ==> c == data[y * width + x]
    ensures y * width + x >= |data| ==> c == Transparent
  {
    if y * width + x < |data| then data[y * width + x] else Transparent
  }

  /** A local cell of a frame. */
  predicate InFrame(c: Cell)
  {
    0 <= c.0 < FrameWidth && OffsetY <= c.1 < FrameHeight
  }

  function FrameCells(): set<Cell>
  {
    set x, y | 0 <= x < FrameWidth && OffsetY <= y < FrameHeight :: (x, y)
  }

  lemma FrameCellsAre(c: Cell)
    ensures c in FrameCells() <==> InFrame(c)
  {
    if InFrame(c) {
      var (x, y) := c;
      assert (x, y) in FrameCells();
    }
  }

  /** The sheet cell that local cell `c` of frame `f` shows: column `f * 16 + c.0`, row `c.1`. */
  function FramePixel(data: seq<Color>, width: nat, f: nat, c: Cell): Color
    requires InFrame(c)
  {
    SheetPixel(data, width, f * FrameWidth + c.0, c.1)
  }

  /** What local cell `c` showed in the frame before `f`; before the first frame, transparent. */
  function Prior(data: seq<Color>, width: nat, f: nat, c: Cell): Color
    requires InFrame(c)
  {
    if f == 0 then Transparent else FramePixel(data, width, f - 1, c)
  }

  /** The diff set of frame `f`: the local cells whose colour differs from what the previous frame
      showed there, each with its new colour. */
  function Diff(data: seq<Color>, width: nat, f: nat): (d: map<Cell, Color>)
    ensures forall c :: c in d <==> InFrame(c) && FramePixel(data, width, f, c) != Prior(data, width, f, c)
    ensures forall c :: c in d ==> d[c] == FramePixel(data, width, f, c)
  {
    forall c ensures c in FrameCells() <==> InFrame(c) { FrameCellsAre(c); }
    map c | c in FrameCells() && FramePixel(data, width, f, c) != Prior(data, width, f, c) :: FramePixel(data, width, f, c)
  }

  /** `prev_pixels.get(c, TRANSPARENT)`: the last colour emitted for local cell `c`. */
  function Shown(prev: map<Cell, Color>, c: Cell): (col: Color)
    ensures c !in prev ==> col == Transparent
  {
    if c in prev then prev[c] else Transparent
  }

  /** Whether the column-by-column scan of a frame has passed cell `c`, once it has finished the
      columns left of `lx` and the rows above `y` of column `lx`. */
  predicate Passed(c: Cell, lx: int, y: int)
  {
    c.0 < lx || (c.0 == lx && c.1 < y)
  }

  /** The carried map partway through frame `f`: a scanned cell shows frame `f`'s colour, any
      other what the frame before showed. */
  ghost predicate Showing(prev: map<Cell, Color>, data: seq<Color>, width: nat, f: nat, lx: int, y: int)
  {
    (forall c :: c in prev ==> InFrame(c)) &&
    (forall c :: InFrame(c) ==> Shown(prev, c) == if Passed(c, lx, y) then FramePixel(data, width, f, c) else Prior(data, width, f, c))
  }

  /** The diff buffer partway through frame `f`: exactly the scanned cells of the diff set, each
      with its new colour. */
  ghost predicate Collected(pixbuf: map<Cell, Color>, data: seq<Color>, width: nat, f: nat, lx: int, y: int)
  {
    (forall c :: c in pixbuf <==> InFrame(c) && Passed(c, lx, y) && FramePixel(data, width, f, c) != Prior(data, width, f, c)) &&
    (forall c :: c in pixbuf ==> pixbuf[c] == FramePixel(data, width, f, c))
  }

  /** Finishing column `lx` is starting column `lx + 1`. */
  lemma NextColumn(prev: map<Cell, Color>, pixbuf: map<Cell, Color>, data: seq<Color>, width: nat, f: nat, lx: int)
    requires Showing(prev, data, width, f, lx, FrameHeight) && Collected(pixbuf, data, width, f, lx, FrameHeight)
    ensures Showing(prev, data, width, f, lx + 1, 0) && Collected(pixbuf, data, width, f, lx + 1, 0)
  {
    assert forall c :: InFrame(c) ==> (Passed(c, lx, FrameHeight) <==> Passed(c, lx + 1, 0));
  }

  /** A finished frame is what the next frame is compared against: the carried map after the last
      column of frame `f` shows, at every cell, the colour prior to frame `f + 1`. */
  lemma NextFrame(prev: map<Cell, Color>, data: seq<Color>, width: nat, f: nat)
    requires Showing(prev, data, width, f, FrameWidth, 0)
    ensures Showing(prev, data, width, f + 1, 0, 0)
  {
  }

  /** The diff buffer after the last column of frame `f` is the diff set of frame `f`. */
  lemma CollectedDiff(pixbuf: map<Cell, Color>, data: seq<Color>, width: nat, f: nat)
    requires Collected(pixbuf, data, width, f, FrameWidth, 0)
    ensures pixbuf == Diff(data, width, f)
  {
    var d := Diff(data, width, f);
    assert forall c :: c in pixbuf <==> c in d;
    assert pixbuf.Keys == d.Keys;
  }
}
