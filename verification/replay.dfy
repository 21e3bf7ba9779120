/** The replay half of the storage codec: painting each frame's commands over the previous frame,
    pasting every frame into the sheet, and the marker pixel after the last frame. */
module Replay {
  import opened Pixels
  import opened Segments
  import opened FrameDiff
  import opened StorageLayout

  /** The colour of the marker pixel put after the last frame. */
  const Marker := Rgba(200, 200, 200, 200)

  /** The cells of one `frame_width` by `frame_height` image. */
  const CanvasSize := FrameWidth * FrameHeight

  /** `prev`, read with the colour a fresh image has where nothing was painted. */
  function Get(prev: map<Cell, Rgba>, c: Cell): Rgba
  {
    if c in prev then prev[c] else Clear
  }

  /** Every remembered cell lies inside the frame image. */
  predicate InCanvas(prev: map<Cell, Rgba>)
  {
    forall c :: c in prev ==> InFrame(c)
  }

  /** The row-major position of a frame cell in the frame image. */
  function Slot(c: Cell): (i: nat)
    requires InFrame(c)
    ensures i < CanvasSize
  {
    c.1 * FrameWidth + c.0
  }

  lemma SlotOf(c: Cell, i: int)
    requires InFrame(c) && 0 <= i < CanvasSize
    ensures i == Slot(c) <==> (i % FrameWidth, i / FrameWidth) == c
  {
  }

  function RectCells(r: Rect): (cells: set<Cell>)
    ensures forall c :: c in cells <==> InRect(r, c)
  {
    var cells := set a, b | r.x <= a < r.x + r.w && r.y <= b < r.y + r.h :: (a, b);
    assert forall c :: InRect(r, c) ==> c in cells by {
      forall c | InRect(r, c) ensures c in cells {
        var (a, b) := c;
        assert (a, b) in cells;
      }
    }
    cells
  }

  /** The `dx`/`dy` loops of one command: every cell of the rectangle takes the colour `col`, in
      `prev` as in the image. */
  function PaintRect(prev: map<Cell, Rgba>, r: Rect, col: Rgba): (m: map<Cell, Rgba>)
    ensures forall c :: c in m <==> c in prev || InRect(r, c)
    ensures forall c :: Get(m, c) == if InRect(r, c) then col else Get(prev, c)
  {
    map c | c in prev.Keys + RectCells(r) :: if InRect(r, c) then col else prev[c]
  }

  /** `putpixel` on the frame image raises for a cell outside it: a command with cells that reach
      past the frame fails. */
  predicate Overflows(r: Rect)
  {
    r.w > 0 && r.h > 0 && (r.x + r.w > FrameWidth || r.y + r.h > FrameHeight)
  }

  /** The commands of one frame painted in order over `prev`. A palette index the palette does
      not hold raises before any cell is painted; a command reaching past the frame raises. */
  function PaintCmds(prev: map<Cell, Rgba>, cmds: seq<Rect>, pal: seq<Rgba>): (res: Result<map<Cell, Rgba>>)
    ensures res.Ok? && InCanvas(prev) ==> InCanvas(res.value)
  {
    if cmds == [] then Ok(prev)
    else
      match PaintCmds(prev, cmds[..|cmds| - 1], pal)
      case Err(e) => Err(e)
      case Ok(m) =>
        var r := cmds[|cmds| - 1];
        if r.p >= |pal| then Err(MissingPaletteIndex)
        else if Overflows(r) then Err(ImageIndexOutOfRange)
        else Ok(PaintRect(m, r, pal[r.p]))
  }

  /** The frame image: a fresh transparent image with every remembered cell drawn on it. */
  function Canvas(prev: map<Cell, Rgba>): (img: seq<Rgba>)
    ensures |img| == CanvasSize
    ensures forall i :: 0 <= i < CanvasSize ==> img[i] == Get(prev, (i % FrameWidth, i / FrameWidth))
  {
    seq(CanvasSize, i requires 0 <= i < CanvasSize => Get(prev, (i % FrameWidth, i / FrameWidth)))
  }

  /** One cell of `paste` of the frame image at column `ox`, row 0: a sheet cell at column `col`
      and row `row` that the frame covers takes the frame's cell; any other keeps `under`. */
  function PasteCell(under: Rgba, img: seq<Rgba>, ox: nat, col: int, row: int): Rgba
    requires |img| == CanvasSize
  {
    if ox <= col < ox + FrameWidth && 0 <= row < FrameHeight then img[row * FrameWidth + (col - ox)] else under
  }

  /** `paste` of the frame image at column `ox`, row 0 of a row-major sheet `width` cells wide:
      the part of the frame that falls inside the sheet replaces the sheet's cells. */
  function Paste(sheet: seq<Rgba>, width: nat, img: seq<Rgba>, ox: nat): (s: seq<Rgba>)
    requires |img| == CanvasSize
    ensures |s| == |sheet|
  {
    if width == 0 then sheet
    else seq(|sheet|, i requires 0 <= i < |sheet| => PasteCell(sheet[i], img, ox, i % width, i / width))
  }

  lemma WidthFitsSheet(width: nat, height: nat)
    requires 1 <= height
    ensures width <= width * height
  {
  }

  /** After frame `f` of `count` is painted: the paste, and after the last frame the marker pixel
      two columns past it on row 0, put only when that column is inside the sheet. */
  function StepSheet(sheet: seq<Rgba>, width: nat, height: nat, img: seq<Rgba>, f: nat, count: nat): (res: Result<seq<Rgba>>)
    requires |sheet| == width * height && |img| == CanvasSize
    ensures res.Ok? ==> |res.value| == width * height
  {
    var pasted := Paste(sheet, width, img, f * FrameWidth);
    if width - 1 > f * FrameWidth && f + 1 == count && f * FrameWidth + FrameWidth + 1 < width then
      if height == 0 then Err(ImageIndexOutOfRange)
      else
        WidthFitsSheet(width, height);
        Ok(pasted[f * FrameWidth + FrameWidth + 1 := Marker])
    else Ok(pasted)
  }

  /** The remembered cells and the sheet after the first `k` frames of `retrieve`'s replay. */
  function ReplayPrefix(frames: seq<seq<Rect>>, pal: seq<Rgba>, width: nat, height: nat, k: nat)
    : (res: Result<(map<Cell, Rgba>, seq<Rgba>)>)
    requires k <= |frames|
    ensures res.Ok? ==> InCanvas(res.value.0) && |res.value.1| == width * height
  {
    if k == 0 then Ok((map[], Repeat(Clear, width * height)))
    else
      match ReplayPrefix(frames, pal, width, height, k - 1)
      case Err(e) => Err(e)
      case Ok((prev, sheet)) =>
        match PaintCmds(prev, frames[k - 1], pal)
        case Err(e) => Err(e)
        case Ok(m) =>
          match StepSheet(sheet, width, height, Canvas(m), k - 1, |frames|)
          case Err(e) => Err(e)
          case Ok(next) => Ok((m, next))
  }

  /** `retrieve` after decompression: parse, then replay every frame into a `width` by `height`
      sheet, returned row-major. */
  function Decode(raw: seq<byte>, width: nat, height: nat): (r: Result<seq<Rgba>>)
    ensures Parse(raw).Err? ==> r == Err(Parse(raw).fault)
    ensures r.Ok? ==> Parse(raw).Ok? && |r.value| == width * height
  {
    match Parse(raw)
    case Err(e) => Err(e)
    case Ok((frames, pal)) =>
      match ReplayPrefix(frames, pal, width, height, |frames|)
      case Err(e) => Err(e)
      case Ok((_, sheet)) => Ok(sheet)
  }
}
