/** `util_converter`: the storage codec. Its module globals (`data`, `dims`, `palette`,
    `palette_max`) are the fields of a `Converter`; the palette is never reset, so it carries over
    from one encode to the next exactly as the globals do. */
module UtilConverter {
  import opened Pixels
  import opened Colors
  import opened Segments
  import opened FrameDiff
  import opened StorageLayout
  import opened StorageProofs
  import opened Serializer
  import opened Replay
  import opened Painting

  /** The palette raises once its counter reaches this value. */
  const PaletteLimit := 254

  /** The palette dictionary hands out the indices of `order`: colour `order[i]` has index `i`. */
  ghost predicate Numbering(palette: map<Rgba, nat>, order: seq<Rgba>)
  {
    (forall t :: t in palette <==> t in order) &&
    (forall t :: t in palette ==> palette[t] < |order| && order[palette[t]] == t) &&
    (forall i :: 0 <= i < |order| ==> order[i] in palette && palette[order[i]] == i)
  }

  /** The palette after the complete frames `done` of the loop of `finite_compress`, which began
      with `known`: the frames are segmented against it, it met their colours in order, it has not
      reached the limit unless it is unchanged, and every new entry is drawn by one of them. */
  ghost predicate Learnt(data: seq<Color>, width: nat, known: seq<Rgba>, done: seq<seq<Rect>>, order: seq<Rgba>)
  {
    known <= order && Segmented(data, width, done, order) &&
    order == Learn(known, FramesColors(data, width, done)) &&
    (order == known || |order| < PaletteLimit) &&
    forall i :: |known| <= i < |order| ==> DiffColour(data, width, |done|, order[i])
  }

  /** `{v: k for k, v in palette.items()}`: the palette turned round, from index to colour. */
  function Invert(palette: map<Rgba, nat>): (inv: map<int, Rgba>)
    requires forall s, t :: s in palette && t in palette && palette[s] == palette[t] ==> s == t
    ensures forall t :: t in palette ==> palette[t] in inv && inv[palette[t]] == t
    ensures forall i :: i in inv ==> inv[i] in palette && palette[inv[i]] == i
  {
    map t | t in palette :: palette[t] := t
  }

  /** The indices `0 .. n - 1`. */
  function Indices(n: nat): (r: set<int>)
    ensures forall i :: i in r <==> 0 <= i < n
    ensures |r| == n
  {
    if n == 0 then {} else Indices(n - 1) + {n - 1}
  }

  /** A palette that numbers `order` gives distinct colours distinct indices, and turns round
      into a dictionary whose keys are exactly the indices `0 .. |order| - 1`. */
  lemma InvertKeys(palette: map<Rgba, nat>, order: seq<Rgba>)
    requires Numbering(palette, order)
    ensures forall s, t :: s in palette && t in palette && palette[s] == palette[t] ==> s == t
    ensures forall i :: i in Invert(palette) <==> 0 <= i < |order|
  {
    forall i | 0 <= i < |order| ensures i in Invert(palette) {
      assert order[i] in palette;
    }
  }

  /** The palette order the class keeps never repeats a colour. */
  lemma NumberingDistinct(palette: map<Rgba, nat>, order: seq<Rgba>)
    requires Numbering(palette, order)
    ensures Distinct(order)
  {
  }

  /** A palette that numbers `order` turns round into the entries of `order`, one per index. */
  lemma InvertNumbering(palette: map<Rgba, nat>, order: seq<Rgba>)
    requires Numbering(palette, order)
    ensures forall s, t :: s in palette && t in palette && palette[s] == palette[t] ==> s == t
    ensures forall i :: 0 <= i < |order| ==> i in Invert(palette)
    ensures |Invert(palette)| == |order| && PalEntries(Invert(palette), |order|) == order
  {
    InvertKeys(palette, order);
    var inv := Invert(palette);
    assert |inv| == |order| by {
      assert inv.Keys == Indices(|order|);
    }
    assert PalEntries(inv, |order|) == order by {
      forall i | 0 <= i < |order| ensures inv[i] == order[i] {
        assert order[i] in palette;
      }
    }
  }

  /** The tail of `finite_compress`: the frames and the turned-round palette written out and
      handed to `compress`. Writing fails, with a byte-range error, exactly when a count or a
      field does not fit in a byte. */
  method WriteStored(frames: seq<seq<Rect>>, palette: map<Rgba, nat>, ghost order: seq<Rgba>,
                     compress: seq<byte> -> seq<byte>) returns (r: Result<seq<byte>>)
    requires Numbering(palette, order)
    ensures r.Ok? ==> Fits(frames, order) && r.value == compress(Layout(frames, order))
    ensures r.Err? ==> r.fault == ByteRange && !Fits(frames, order)
  {
    InvertNumbering(palette, order);
    var pal := Invert(palette);
    var written := WriteLayout(frames, pal);
    if written.Err? {
      return Err(written.fault);
    }
    return Ok(compress(written.value));
  }

  class Converter {
    var dims: (nat, nat)
    var data: seq<Color>
    var palette: map<Rgba, nat>
    var paletteMax: nat
    /** The palette read by index: `order[i]` is the colour whose index is `i`. */
    ghost var order: seq<Rgba>

    /** `palette` hands out the indices `0 .. palette_max - 1`, one per colour. */
    ghost predicate Valid()
      reads this
    {
      paletteMax == |order| && Numbering(palette, order)
    }

    /** The module as it is first imported. */
    constructor ()
      ensures Valid()
      ensures dims == (1, 1) && data == [] && palette == map[] && paletteMax == 0 && order == []
    {
      dims, data := (1, 1), [];
      palette, paletteMax := map[], 0;
      order := [];
    }

    /** The palette step of `segment`: a colour already in the palette keeps its index; a new one
        gets the next index, and raises once the counter has reached 254, staying in the palette. */
    method PaletteIndex(tpl: Rgba) returns (r: Result<nat>)
      requires Valid()
      modifies this
      ensures Valid() && dims == old(dims) && data == old(data)
      ensures order == if tpl in old(order) then old(order) else old(order) + [tpl]
      ensures r.Ok? ==> r.value < |order| && order[r.value] == tpl
      ensures r.Err? <==> tpl !in old(order) && |old(order)| + 1 >= PaletteLimit
      ensures r.Err? ==> r.fault == PaletteMaxExceeded
    {
      if tpl !in palette {
        palette := palette[tpl := paletteMax];
        order := order + [tpl];
        paletteMax := paletteMax + 1;
        if paletteMax >= PaletteLimit {
          return Err(PaletteMaxExceeded);
        }
      }
      return Ok(palette[tpl]);
    }

    /** One origin of `segment`: the width loop, the height loop, the marking loops, the palette step
        and the append of the new command. */
    method EmitRect(frame: map<Cell, Color>, width: nat, height: nat, x: nat, y: nat,
                    visited: set<Cell>, rects: seq<Rect>, ghost order0: seq<Rgba>)
      returns (r: Result<(set<Cell>, seq<Rect>)>)
      requires Valid() && Built(frame, width, height, visited, rects, order0, order, PaletteLimit)
      requires x < width && y < height && (x, y) !in visited && !DiffPixel(frame, x, y).isVoid
      requires VisitedBefore(frame, width, height, visited, x, y)
      modifies this
      ensures Valid() && dims == old(dims) && data == old(data) && order0 <= order
      ensures r.Ok? ==> Built(frame, width, height, r.value.0, r.value.1, order0, order, PaletteLimit)
      ensures r.Ok? ==> visited <= r.value.0 && (x, y) in r.value.0
      ensures r.Err? ==> (r.fault == PaletteMaxExceeded &&
        |order| == (if |order0| < PaletteLimit then PaletteLimit else |order0| + 1))
      ensures r.Err? ==> (order == old(order) + [ToTuple(DiffPixel(frame, x, y))] &&
        order == Learn(order0, RectColors(frame, rects) + [ToTuple(DiffPixel(frame, x, y))]))
      ensures forall i :: |order0| <= i < |order| ==> Drawable(frame, width, height, order[i])
    {
      var w, h, marked := GrowRect(frame, visited, width, height, x, y);
      r := PlaceRect(frame, width, height, x, y, w, h, visited, marked, rects, order0);
    }

    /** The palette step for the colour of the block grown from `(x, y)`, and the append of its
        command. */
    method PlaceRect(frame: map<Cell, Color>, width: nat, height: nat, x: nat, y: nat, w: nat, h: nat,
                     visited: set<Cell>, marked: set<Cell>, rects: seq<Rect>, ghost order0: seq<Rgba>)
      returns (r: Result<(set<Cell>, seq<Rect>)>)
      requires Valid() && Built(frame, width, height, visited, rects, order0, order, PaletteLimit)
      requires Grown(frame, visited, width, height, x, y, w, h, DiffPixel(frame, x, y), marked)
      requires VisitedBefore(frame, width, height, visited, x, y)
      modifies this
      ensures Valid() && dims == old(dims) && data == old(data) && order0 <= order
      ensures r.Ok? ==> Built(frame, width, height, r.value.0, r.value.1, order0, order, PaletteLimit)
      ensures r.Ok? ==> r.value.0 == marked
      ensures r.Err? ==> (r.fault == PaletteMaxExceeded &&
        |order| == (if |order0| < PaletteLimit then PaletteLimit else |order0| + 1))
      ensures r.Err? ==> (order == old(order) + [ToTuple(DiffPixel(frame, x, y))] &&
        order == Learn(order0, RectColors(frame, rects) + [ToTuple(DiffPixel(frame, x, y))]))
      ensures forall i :: |order0| <= i < |order| ==> Drawable(frame, width, height, order[i])
    {
      var color := DiffPixel(frame, x, y);
      var tpl := ToTuple(color);
      ghost var before := order;
      BuiltDrawable(frame, width, height, visited, rects, order0, before, PaletteLimit);
      var index := PaletteIndex(tpl);
      DrawableGrow(frame, width, height, order0, before, order, x, y);
      if index.Err? {
        LearnSnoc(order0, RectColors(frame, rects), tpl);
        return Err(index.fault);
      }
      var rect := Rect(x, y, w, h, index.value);
      BuiltStep(frame, width, height, visited, marked, rects, rect, color, order0, before, order, PaletteLimit);
      return Ok((marked, rects + [rect]));
    }

    /** One row of `segment`'s scan: every drawable cell of row `y` not yet visited becomes the
        origin of a new rectangle. */
    method ScanRow(frame: map<Cell, Color>, width: nat, height: nat, y: nat,
                   visited: set<Cell>, rects: seq<Rect>, ghost order0: seq<Rgba>)
      returns (r: Result<(set<Cell>, seq<Rect>)>, ghost done: seq<Rect>, ghost next: Cell)
      requires Valid() && Built(frame, width, height, visited, rects, order0, order, PaletteLimit)
      requires y < height && VisitedBefore(frame, width, height, visited, 0, y)
      modifies this
      ensures Valid() && dims == old(dims) && data == old(data) && order0 <= order
      ensures r.Ok? ==> Built(frame, width, height, r.value.0, r.value.1, order0, order, PaletteLimit)
      ensures r.Ok? ==> visited <= r.value.0
      ensures r.Ok? ==> VisitedBefore(frame, width, height, r.value.0, width, y)
      ensures r.Err? ==> (r.fault == PaletteMaxExceeded &&
        |order| == (if |order0| < PaletteLimit then PaletteLimit else |order0| + 1))
      ensures r.Err? ==> Overflowed(frame, width, height, order0, done, next, order)
      ensures forall i :: |order0| <= i < |order| ==> Drawable(frame, width, height, order[i])
    {
      var seen, found := visited, rects;
      for x := 0 to width
        invariant Valid() && Built(frame, width, height, seen, found, order0, order, PaletteLimit)
        invariant dims == old(dims) && data == old(data) && order0 <= order
        invariant visited <= seen
        invariant VisitedBefore(frame, width, height, seen, x, y)
      {
        if (x, y) in seen {
          continue;
        }
        var color := DiffPixel(frame, x, y);
        if color.isVoid {
          continue;
        }
        var step := EmitRect(frame, width, height, x, y, seen, found, order0);
        if step.Err? {
          OverflowAt(frame, width, height, seen, found, x, y, order0, order);
          return Err(step.fault), found, (x, y);
        }
        seen, found := step.value.0, step.value.1;
      }
      BuiltDrawable(frame, width, height, seen, found, order0, order, PaletteLimit);
      return Ok((seen, found)), found, (0, 0);
    }

    /** `segment`: scans the `width` by `height` grid row by row, grows a rectangle from every
        unvisited drawable cell (width first, then height), and gives each new colour the next
        palette index. The palette counter reaching 254 aborts the call, leaving the new colour in
        the palette. */
    method Segment(width: nat, height: nat, frame: map<Cell, Color>)
      returns (r: Result<seq<Rect>>, ghost done: seq<Rect>, ghost next: Cell)
      requires Valid()
      modifies this
      ensures Valid() && dims == old(dims) && data == old(data)
      ensures old(order) <= order
      ensures r.Ok? ==> Segmentation(frame, width, height, r.value) && Indexed(frame, r.value, order)
      ensures r.Ok? ==> Greedy(frame, width, height, r.value)
      ensures r.Ok? ==> order == Learn(old(order), RectColors(frame, r.value))
      ensures r.Ok? ==> order == old(order) || |order| < PaletteLimit
      ensures r.Err? ==> (r.fault == PaletteMaxExceeded &&
        |order| == (if |old(order)| < PaletteLimit then PaletteLimit else |old(order)| + 1))
      ensures r.Err? ==> Overflowed(frame, width, height, old(order), done, next, order)
      ensures forall i :: |old(order)| <= i < |order| ==> Drawable(frame, width, height, order[i])
    {
      var visited: set<Cell> := {};
      var rects: seq<Rect> := [];
      for y := 0 to height
        invariant Valid() && Built(frame, width, height, visited, rects, old(order), order, PaletteLimit)
        invariant dims == old(dims) && data == old(data) && old(order) <= order
        invariant VisitedBefore(frame, width, height, visited, 0, y)
      {
        var row;
        row, done, next := ScanRow(frame, width, height, y, visited, rects, old(order));
        if row.Err? {
          return Err(row.fault), done, next;
        }
        visited, rects := row.value.0, row.value.1;
      }
      forall c | InGrid(c, width, height) && !DiffPixel(frame, c.0, c.1).isVoid
        ensures c in visited
      {
        var a: nat, b: nat := c.0, c.1;
        assert !DiffPixel(frame, a, b).isVoid;
      }
      BuiltSegmentation(frame, width, height, visited, rects, old(order), order, PaletteLimit);
      BuiltDrawable(frame, width, height, visited, rects, old(order), order, PaletteLimit);
      return Ok(rects), rects, (0, 0);
    }

    /** One column of `finite_compress`'s scan: sheet column `gx` is local column `lx` of frame
        `f`. A cell whose colour differs from the last colour emitted for it enters the diff buffer
        and the carried map; no other cell of either changes. */
    method ScanColumn(gx: nat, ghost f: nat, lx: nat, prev: map<Cell, Color>, pixbuf: map<Cell, Color>)
      returns (prev': map<Cell, Color>, pixbuf': map<Cell, Color>)
      requires gx == f * FrameWidth + lx && lx < FrameWidth
      requires Showing(prev, data, dims.0, f, lx, 0) && Collected(pixbuf, data, dims.0, f, lx, 0)
      ensures Showing(prev', data, dims.0, f, lx + 1, 0) && Collected(pixbuf', data, dims.0, f, lx + 1, 0)
      ensures forall c :: c !in pixbuf' || c in pixbuf ==> (c in prev' <==> c in prev) && Shown(prev', c) == Shown(prev, c)
    {
      prev', pixbuf' := prev, pixbuf;
      for y := OffsetY to FrameHeight
        invariant Showing(prev', data, dims.0, f, lx, y) && Collected(pixbuf', data, dims.0, f, lx, y)
        invariant forall c :: c !in pixbuf' || c in pixbuf ==> (c in prev' <==> c in prev) && Shown(prev', c) == Shown(prev, c)
      {
        var curr := SheetPixel(data, dims.0, gx, y);
        if !All(Shown(prev', (lx, y)), curr) {
          pixbuf' := pixbuf'[(lx, y) := curr];
          prev' := prev'[(lx, y) := curr];
        }
      }
      NextColumn(prev', pixbuf', data, dims.0, f, lx);
    }

    /** The end of one frame in `finite_compress`'s loop: frame `|done|`'s diff set is segmented
        against the palette learnt so far. `known` is the palette before the loop. */
    method FinishFrame(done: seq<seq<Rect>>, pixbuf: map<Cell, Color>, ghost known: seq<Rgba>)
      returns (r: Result<seq<Rect>>, ghost partial: seq<Rect>, ghost next: Cell)
      requires Valid() && |done| < dims.0 / FrameWidth && pixbuf == Diff(data, dims.0, |done|)
      requires Learnt(data, dims.0, known, done, order)
      modifies this
      ensures Valid() && dims == old(dims) && data == old(data) && old(order) <= order
      ensures r.Ok? ==> Learnt(data, dims.0, known, done + [r.value], order)
      ensures r.Err? ==> (r.fault == PaletteMaxExceeded &&
        |order| == (if |known| < PaletteLimit then PaletteLimit else |known| + 1))
      ensures r.Err? ==> OverflowedAt(data, dims.0, known, done, partial, next, order)
      ensures r.Err? ==> forall i :: |known| <= i < |order| ==> DiffColour(data, dims.0, dims.0 / FrameWidth, order[i])
    {
      ghost var before := order;
      r, partial, next := Segment(FrameWidth, FrameHeight, pixbuf);
      if r.Err? {
        DiffColours(data, dims.0, |done|, dims.0 / FrameWidth, known, before, order);
        return;
      }
      DiffColours(data, dims.0, |done|, |done| + 1, known, before, order);
      SegmentedSnoc(data, dims.0, done, r.value, before, order);
      FramesColorsSnoc(data, dims.0, done, r.value);
      LearnConcat(known, FramesColors(data, dims.0, done), RectColors(pixbuf, r.value));
    }

    /** The loop of `finite_compress`: scans the sheet column by column, collecting for each
        frame the cells whose colour differs from the last colour emitted for them, and segments
        each complete frame's diff buffer. The trailing partial frame is never segmented. */
    method CollectFrames() returns (r: Result<seq<seq<Rect>>>, ghost complete: seq<seq<Rect>>, ghost partial: seq<Rect>, ghost next: Cell)
      requires Valid()
      modifies this
      ensures Valid() && dims == old(dims) && data == old(data) && old(order) <= order
      ensures r.Ok? ==> |r.value| == dims.0 / FrameWidth && Segmented(data, dims.0, r.value, order)
      ensures r.Ok? ==> order == Learn(old(order), FramesColors(data, dims.0, r.value))
      ensures r.Ok? ==> order == old(order) || |order| < PaletteLimit
      ensures r.Err? ==> (r.fault == PaletteMaxExceeded &&
        |order| == (if |old(order)| < PaletteLimit then PaletteLimit else |old(order)| + 1))
      ensures r.Err? ==> OverflowedAt(data, dims.0, old(order), complete, partial, next, order)
      ensures forall i :: |old(order)| <= i < |order| ==> DiffColour(data, dims.0, dims.0 / FrameWidth, order[i])
    {
      var width := dims.0;
      var prev: map<Cell, Color> := map[];
      var pixbuf: map<Cell, Color> := map[];
      var done: seq<seq<Rect>> := [];
      ghost var f: nat := 0;
      ghost var lx: nat := 0;
      for gx := 0 to width
        invariant Valid() && dims == old(dims) && data == old(data) && old(order) <= order
        invariant gx == f * FrameWidth + lx && lx < FrameWidth && |done| == f
        invariant Showing(prev, data, width, f, lx, 0)
        invariant lx > 0 ==> Collected(pixbuf, data, width, f, lx, 0)
        invariant Learnt(data, width, old(order), done, order)
      {
        var local := gx % FrameWidth;
        assert local == lx;
        if local == 0 {
          pixbuf := map[];
        }
        prev, pixbuf := ScanColumn(gx, f, local, prev, pixbuf);
        if local == FrameWidth - 1 {
          CollectedDiff(pixbuf, data, width, f);
          var rects;
          rects, partial, next := FinishFrame(done, pixbuf, old(order));
          if rects.Err? {
            return Err(rects.fault), done, partial, next;
          }
          done := done + [rects.value];
          NextFrame(prev, data, width, f);
          f, lx := f + 1, 0;
        } else {
          lx := lx + 1;
        }
      }
      return Ok(done), done, [], (0, 0);
    }

    /** `finite_compress`: the frames of the loop, then the frame layout and the turned-round
        palette written out and handed to `compress`. `frames` are the segmented frames. */
    method FiniteCompress(compress: seq<byte> -> seq<byte>)
      returns (r: Result<seq<byte>>, ghost frames: seq<seq<Rect>>, ghost partial: seq<Rect>, ghost next: Cell)
      requires Valid()
      modifies this
      ensures Valid() && dims == old(dims) && data == old(data) && old(order) <= order
      ensures r.Ok? || r.fault == ByteRange ==>
        |frames| == dims.0 / FrameWidth && Segmented(data, dims.0, frames, order)
      ensures r.Ok? || r.fault == ByteRange ==>
        order == Learn(old(order), FramesColors(data, dims.0, frames)) && (order == old(order) || |order| < PaletteLimit)
      ensures r.Ok? ==> Fits(frames, order) && r.value == compress(Layout(frames, order))
      ensures r.Err? ==> r.fault == PaletteMaxExceeded || (r.fault == ByteRange && !Fits(frames, order))
      ensures r.Err? && r.fault == PaletteMaxExceeded ==>
        |order| == (if |old(order)| < PaletteLimit then PaletteLimit else |old(order)| + 1)
      ensures r.Err? && r.fault == PaletteMaxExceeded ==> OverflowedAt(data, dims.0, old(order), frames, partial, next, order)
      ensures forall i :: |old(order)| <= i < |order| ==> DiffColour(data, dims.0, dims.0 / FrameWidth, order[i])
    {
      var collected;
      collected, frames, partial, next := CollectFrames();
      if collected.Err? {
        return Err(collected.fault), frames, partial, next;
      }
      var done := collected.value;
      frames := done;
      r := WriteStored(done, palette, order, compress);
    }

    /** `retrieve`: decompresses, parses, and replays every frame into a transparent sheet of
        `dims`, returned row-major. A frame paints over the cells remembered from the frames before
        it; after the last frame the marker pixel goes two columns past it when that column is
        inside the sheet. */
    method Retrieve(blob: seq<byte>, decompress: seq<byte> -> Option<seq<byte>>) returns (r: Result<seq<Rgba>>)
      ensures r == match decompress(blob)
                   case None => Err(DecompressFailed)
                   case Some(raw) => Decode(raw, dims.0, dims.1)
      ensures r.Ok? ==> |r.value| == dims.0 * dims.1
    {
      var unpacked := decompress(blob);
      if unpacked.None? {
        return Err(DecompressFailed);
      }
      var parsed := ParseStored(unpacked.value);
      if parsed.Err? {
        return Err(parsed.fault);
      }
      r := ReplayFrames(parsed.value.0, parsed.value.1, dims.0, dims.1);
    }

    /** `perform_compress`: the pixel tuples become non-void colours, the sheet size is set, and
        the sheet is compressed. */
    method PerformCompress(pixels: seq<seq<byte>>, newDims: (nat, nat), compress: seq<byte> -> seq<byte>)
      returns (r: Result<seq<byte>>, ghost frames: seq<seq<Rect>>, ghost partial: seq<Rect>, ghost next: Cell)
      requires Valid()
      modifies this
      ensures Valid() && old(order) <= order
      ensures dims == newDims && |data| == |pixels| && Drawn(data)
      ensures forall i :: 0 <= i < |pixels| ==> ToTuple(data[i]) == Rgba(Channel(pixels[i], 0), Channel(pixels[i], 1), Channel(pixels[i], 2), Channel(pixels[i], 3))
      ensures r.Ok? || r.fault == ByteRange ==>
        |frames| == newDims.0 / FrameWidth && Segmented(data, newDims.0, frames, order)
      ensures r.Ok? || r.fault == ByteRange ==>
        order == Learn(old(order), FramesColors(data, newDims.0, frames)) && (order == old(order) || |order| < PaletteLimit)
      ensures r.Ok? ==> Fits(frames, order) && r.value == compress(Layout(frames, order))
      ensures r.Err? ==> r.fault == PaletteMaxExceeded || (r.fault == ByteRange && !Fits(frames, order))
      ensures r.Err? && r.fault == PaletteMaxExceeded ==>
        |order| == (if |old(order)| < PaletteLimit then PaletteLimit else |old(order)| + 1)
      ensures r.Err? && r.fault == PaletteMaxExceeded ==> OverflowedAt(data, newDims.0, old(order), frames, partial, next, order)
      ensures forall i :: |old(order)| <= i < |order| ==> DiffColour(data, newDims.0, newDims.0 / FrameWidth, order[i])
    {
      data := seq(|pixels|, i requires 0 <= i < |pixels| => MakeColor(pixels[i], false));
      dims := newDims;
      r, frames, partial, next := FiniteCompress(compress);
    }

    /** `perform_decompress`: sets the sheet size, then retrieves. */
    method PerformDecompress(blob: seq<byte>, newDims: (nat, nat), decompress: seq<byte> -> Option<seq<byte>>)
      returns (r: Result<seq<Rgba>>)
      requires Valid()
      modifies this
      ensures Valid() && dims == newDims && data == old(data) && order == old(order)
      ensures r == match decompress(blob)
                   case None => Err(DecompressFailed)
                   case Some(raw) => Decode(raw, newDims.0, newDims.1)
    {
      dims := newDims;
      r := Retrieve(blob, decompress);
    }

    /** A sheet stored by `perform_compress` and read back by `perform_decompress` at the same
        size, through a compressor that `decompress` undoes: unless storing fails, the sheet comes
        back with every pixel of the complete frames, transparent elsewhere, and the marker pixel.
        A sheet with no rows whose marker is due is left aside: `putpixel` raises there. */
    method StoreThenLoad(pixels: seq<seq<byte>>, newDims: (nat, nat), compress: seq<byte> -> seq<byte>,
                         decompress: seq<byte> -> Option<seq<byte>>)
      returns (r: Result<seq<Rgba>>)
      requires Valid() && forall raw :: decompress(compress(raw)) == Some(raw)
      modifies this
      ensures Valid() && dims == newDims && |data| == |pixels| && Drawn(data)
      ensures newDims.1 >= 1 || !MarkerDue(newDims.0, newDims.0 / FrameWidth) ==>
        (r.Ok? ==> r.value == Restored(data, newDims.0, newDims.1, newDims.0 / FrameWidth, newDims.0 / FrameWidth)) &&
        (r.Err? ==> r.fault == PaletteMaxExceeded || r.fault == ByteRange)
    {
      var stored, frames, partial, next := PerformCompress(pixels, newDims, compress);
      if stored.Err? {
        return Err(stored.fault);
      }
      if newDims.1 >= 1 || !MarkerDue(newDims.0, newDims.0 / FrameWidth) {
        StorageRoundTrip(data, newDims.0, newDims.1, frames, order);
      }
      r := PerformDecompress(stored.value, newDims, decompress);
    }
  }
}
