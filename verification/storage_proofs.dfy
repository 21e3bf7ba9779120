/** What the storage codec promises end to end: replaying the layout written from a frame-by-frame
    segmentation of the sheet's diff sets gives back the sheet's pixels inside the complete
    frames, transparent elsewhere, and the marker pixel. */
module StorageProofs {
  import opened Pixels
  import opened Colors
  import opened Segments
  import opened FrameDiff
  import opened StorageLayout
  import opened Replay

  /** Pixels built from tuples are never void. */
  ghost predicate Drawn(data: seq<Color>)
  {
    forall i :: 0 <= i < |data| ==> !data[i].isVoid
  }

  /** The marker is due after `count` frames when its column, one past the column after the last
      frame, lies inside the sheet. */
  predicate MarkerDue(width: nat, count: nat)
  {
    count > 0 && count * FrameWidth + 1 < width
  }

  /** The cell at column `col`, row `row` (position `i`) of the sheet after `k` of `count` frames
      are replayed: inside the first `k` frames' columns and the first 27 rows it shows the
      original pixel; after the last frame the marker sits at its column on row 0; every other
      cell is transparent. */
  ghost function RestoredCell(data: seq<Color>, width: nat, k: nat, count: nat, col: int, row: int, i: int): Rgba
  {
    if k == count && MarkerDue(width, count) && i == count * FrameWidth + 1 then Marker
    else if 0 <= col < k * FrameWidth && 0 <= row < FrameHeight then ToTuple(SheetPixel(data, width, col, row))
    else Clear
  }

  /** The whole sheet after `k` of `count` frames are replayed, row-major. */
  ghost function Restored(data: seq<Color>, width: nat, height: nat, k: nat, count: nat): (sheet: seq<Rgba>)
    ensures |sheet| == width * height
  {
    if width == 0 then []
    else
      seq(width * height, i requires 0 <= i < width * height =>
        RestoredCell(data, width, k, count, i % width, i / width, i))
  }

  /** Frame `f`'s commands are the greedy segmentation of its diff set, in scan order, indexed by
      the palette `pal`. */
  ghost predicate FrameSegmented(data: seq<Color>, width: nat, f: nat, rects: seq<Rect>, pal: seq<Rgba>)
  {
    Segmentation(Diff(data, width, f), FrameWidth, FrameHeight, rects) && Indexed(Diff(data, width, f), rects, pal) &&
    Greedy(Diff(data, width, f), FrameWidth, FrameHeight, rects)
  }

  /** Every frame's commands are a segmentation of that frame's diff set, indexed by `pal`. */
  ghost predicate Segmented(data: seq<Color>, width: nat, frames: seq<seq<Rect>>, pal: seq<Rgba>)
  {
    forall f {:trigger FrameSegmented(data, width, f, frames[f], pal)} ::
      0 <= f < |frames| ==> FrameSegmented(data, width, f, frames[f], pal)
  }

  /** The remembered cells show, at every frame cell, what frame `f - 1` showed there. */
  ghost predicate ShowsBefore(prev: map<Cell, Rgba>, data: seq<Color>, width: nat, f: nat)
  {
    forall c :: InFrame(c) ==> Get(prev, c) == ToTuple(Prior(data, width, f, c))
  }

  lemma FramePixelDrawn(data: seq<Color>, width: nat, f: nat, c: Cell)
    requires Drawn(data) && InFrame(c)
    ensures !FramePixel(data, width, f, c).isVoid
  {
  }

  /** What painting a frame's commands over `prev` should leave at cell `c`. */
  ghost function Painted(prev: map<Cell, Rgba>, rects: seq<Rect>, frame: map<Cell, Color>, c: Cell): Rgba
  {
    if Covered(rects, c) then ToTuple(DiffPixel(frame, c.0, c.1)) else Get(prev, c)
  }

  lemma CoveredSnoc(rects: seq<Rect>, c: Cell)
    requires rects != []
    ensures Covered(rects, c) <==> Covered(rects[..|rects| - 1], c) || InRect(rects[|rects| - 1], c)
  {
    var n := |rects| - 1;
    if Covered(rects, c) && !InRect(rects[n], c) {
      var i :| 0 <= i < |rects| && InRect(rects[i], c);
      assert InRect(rects[..n][i], c);
    }
    if Covered(rects[..n], c) {
      var i :| 0 <= i < n && InRect(rects[..n][i], c);
      assert InRect(rects[i], c);
    }
  }

  /** Painting sound, correctly indexed commands: each covered cell takes its diff colour and
      every other cell keeps what it had. */
  lemma {:induction false} PaintSound(prev: map<Cell, Rgba>, rects: seq<Rect>, pal: seq<Rgba>, frame: map<Cell, Color>)
    requires forall i :: 0 <= i < |rects| ==> Sound(frame, FrameWidth, FrameHeight, rects[i])
    requires Indexed(frame, rects, pal)
    ensures PaintCmds(prev, rects, pal).Ok?
    ensures forall c :: Get(PaintCmds(prev, rects, pal).value, c) == Painted(prev, rects, frame, c)
  {
    if rects != [] {
      var n := |rects| - 1;
      var init, r := rects[..n], rects[n];
      assert forall i :: 0 <= i < n ==> init[i] == rects[i];
      PaintSound(prev, init, pal, frame);
      var m := PaintCmds(prev, init, pal).value;
      assert Sound(frame, FrameWidth, FrameHeight, r);
      assert r.p < |pal| && pal[r.p] == ToTuple(OriginColor(frame, r));
      forall c ensures Get(PaintRect(m, r, pal[r.p]), c) == Painted(prev, rects, frame, c) {
        CoveredSnoc(rects, c);
      }
    }
  }

  /** One frame of the replay: over a canvas showing the previous frame, painting a segmentation
      of the frame's diff set shows the frame. */
  lemma FrameStep(data: seq<Color>, width: nat, f: nat, prev: map<Cell, Rgba>, rects: seq<Rect>, pal: seq<Rgba>)
    requires Drawn(data)
    requires ShowsBefore(prev, data, width, f) && FrameSegmented(data, width, f, rects, pal)
    ensures PaintCmds(prev, rects, pal).Ok?
    ensures ShowsBefore(PaintCmds(prev, rects, pal).value, data, width, f + 1)
  {
    var d := Diff(data, width, f);
    PaintSound(prev, rects, pal, d);
    forall c | InFrame(c)
      ensures Get(PaintCmds(prev, rects, pal).value, c) == ToTuple(Prior(data, width, f + 1, c))
    {
      FramePixelDrawn(data, width, f, c);
      assert Get(PaintCmds(prev, rects, pal).value, c) == Painted(prev, rects, d, c);
      if Covered(rects, c) {
        var i :| 0 <= i < |rects| && InRect(rects[i], c);
        assert Sound(d, FrameWidth, FrameHeight, rects[i]);
      } else {
        assert InGrid(c, FrameWidth, FrameHeight);
        assert c !in d;
      }
    }
  }

  lemma CanvasCell(row: nat, dx: nat)
    requires row < FrameHeight && dx < FrameWidth
    ensures row * FrameWidth + dx < CanvasSize
    ensures (row * FrameWidth + dx) % FrameWidth == dx && (row * FrameWidth + dx) / FrameWidth == row
  {
  }

  /** The frame image of frame `k - 1` shows, at sheet column `col` and row `row`, the sheet's own pixel. */
  lemma PastedPixel(data: seq<Color>, width: nat, k: nat, m: map<Cell, Rgba>, col: int, row: int)
    requires 1 <= k
    requires ShowsBefore(m, data, width, k)
    requires (k - 1) * FrameWidth <= col < (k - 1) * FrameWidth + FrameWidth && 0 <= row < FrameHeight
    ensures row * FrameWidth + (col - (k - 1) * FrameWidth) < CanvasSize
    ensures Canvas(m)[row * FrameWidth + (col - (k - 1) * FrameWidth)] == ToTuple(SheetPixel(data, width, col, row))
  {
    var dx := col - (k - 1) * FrameWidth;
    CanvasCell(row, dx);
    assert InFrame((dx, row));
    assert Get(m, (dx, row)) == ToTuple(Prior(data, width, k, (dx, row)));
    assert FramePixel(data, width, k - 1, (dx, row)) == SheetPixel(data, width, col, row);
  }

  lemma FirstRow(i: nat, width: nat)
    requires i < width
    ensures i % width == i && i / width == 0
  {
  }

  /** One cell of the paste of frame `k - 1`: away from the marker, it takes the cell of `k - 1`
      replayed frames to the cell of `k`. */
  lemma CellStep(data: seq<Color>, width: nat, k: nat, count: nat, m: map<Cell, Rgba>, col: int, row: int, i: int)
    requires 1 <= k <= count
    requires ShowsBefore(m, data, width, k)
    requires !(k == count && MarkerDue(width, count) && i == count * FrameWidth + 1)
    ensures PasteCell(RestoredCell(data, width, k - 1, count, col, row, i), Canvas(m), (k - 1) * FrameWidth, col, row)
      == RestoredCell(data, width, k, count, col, row, i)
  {
    var ox := (k - 1) * FrameWidth;
    if ox <= col < ox + FrameWidth && 0 <= row < FrameHeight {
      PastedPixel(data, width, k, m, col, row);
    }
  }

  /** The paste of frame `k - 1` and, after the last frame, the marker, take the sheet of `k - 1`
      replayed frames to the sheet of `k`. */
  lemma PasteStep(data: seq<Color>, width: nat, height: nat, k: nat, count: nat, m: map<Cell, Rgba>)
    requires 1 <= k <= count
    requires ShowsBefore(m, data, width, k)
    requires height >= 1 || !(k == count && MarkerDue(width, count))
    ensures StepSheet(Restored(data, width, height, k - 1, count), width, height, Canvas(m), k - 1, count)
      == Ok(Restored(data, width, height, k, count))
  {
    var sheet := Restored(data, width, height, k - 1, count);
    var ox := (k - 1) * FrameWidth;
    var pasted := Paste(sheet, width, Canvas(m), ox);
    var want := Restored(data, width, height, k, count);
    var marked := k == count && MarkerDue(width, count);
    var spot := count * FrameWidth + 1;
    if width > 0 {
      forall i | 0 <= i < width * height && !(marked && i == spot)
        ensures pasted[i] == want[i]
      {
        CellStep(data, width, k, count, m, i % width, i / width, i);
      }
    }
    if marked {
      WidthFitsSheet(width, height);
      FirstRow(spot, width);
      var put := pasted[spot := Marker];
      assert put == want;
    } else {
      assert pasted == want;
    }
  }

  /** The cells the replay remembers after its first `k` frames, leaving the sheet aside. */
  ghost function Remembered(frames: seq<seq<Rect>>, pal: seq<Rgba>, k: nat): Result<map<Cell, Rgba>>
    requires k <= |frames|
  {
    if k == 0 then Ok(map[])
    else
      match Remembered(frames, pal, k - 1)
      case Err(e) => Err(e)
      case Ok(prev) => PaintCmds(prev, frames[k - 1], pal)
  }

  /** Replaying the first `k` frames of a frame-by-frame segmentation remembers, at each frame
      cell, the pixel frame `k - 1` shows there. */
  lemma {:induction false} RememberedCells(data: seq<Color>, width: nat, frames: seq<seq<Rect>>, pal: seq<Rgba>, k: nat)
    requires Drawn(data) && k <= |frames|
    requires Segmented(data, width, frames, pal)
    ensures Remembered(frames, pal, k).Ok?
    ensures ShowsBefore(Remembered(frames, pal, k).value, data, width, k)
  {
    if k > 0 {
      RememberedCells(data, width, frames, pal, k - 1);
      var prev := Remembered(frames, pal, k - 1).value;
      FrameStep(data, width, k - 1, prev, frames[k - 1], pal);
    }
  }

  /** The first `k` frames of the replay remember `Remembered` and leave the sheet `Restored`
      after `k` frames. */
  lemma {:induction false} ReplaySheet(data: seq<Color>, width: nat, height: nat, frames: seq<seq<Rect>>, pal: seq<Rgba>, k: nat)
    requires Drawn(data) && k <= |frames|
    requires Segmented(data, width, frames, pal)
    requires height >= 1 || !MarkerDue(width, |frames|)
    ensures Remembered(frames, pal, k).Ok?
    ensures ReplayPrefix(frames, pal, width, height, k) == Ok((Remembered(frames, pal, k).value, Restored(data, width, height, k, |frames|)))
  {
    RememberedCells(data, width, frames, pal, k);
    if k == 0 {
      assert Repeat(Clear, width * height) == Restored(data, width, height, 0, |frames|);
    } else {
      ReplaySheet(data, width, height, frames, pal, k - 1);
      var m := Remembered(frames, pal, k).value;
      PasteStep(data, width, height, k, |frames|, m);
    }
  }

  /** The storage round trip: the layout of a frame-by-frame segmentation, indexed by the palette
      it was written with, replays to the restored sheet. */
  lemma StorageRoundTrip(data: seq<Color>, width: nat, height: nat, frames: seq<seq<Rect>>, order: seq<Rgba>)
    requires Drawn(data) && Fits(frames, order)
    requires Segmented(data, width, frames, order)
    requires height >= 1 || !MarkerDue(width, |frames|)
    ensures Decode(Layout(frames, order), width, height) == Ok(Restored(data, width, height, |frames|, |frames|))
  {
    ReplaySheet(data, width, height, frames, order, |frames|);
  }

  /** Indices that name the right colours still do once the palette has learned more colours. */
  lemma IndexedGrow(frame: map<Cell, Color>, rects: seq<Rect>, known: seq<Rgba>, grown: seq<Rgba>)
    requires known <= grown && Indexed(frame, rects, known)
    ensures Indexed(frame, rects, grown)
  {
  }

  /** `finite_compress` stopped by the palette overflow in frame `|frames|`: the complete frames
      before it are segmented against the palette as it then stood, `old0` having met their
      colours in order, and inside that frame `segment` overflowed after laying `partial`, at the
      origin `next`. */
  ghost predicate OverflowedAt(data: seq<Color>, width: nat, old0: seq<Rgba>, frames: seq<seq<Rect>>,
                               partial: seq<Rect>, next: Cell, order: seq<Rgba>)
  {
    |frames| < width / FrameWidth &&
    Segmented(data, width, frames, Learn(old0, FramesColors(data, width, frames))) &&
    Overflowed(Diff(data, width, |frames|), FrameWidth, FrameHeight, Learn(old0, FramesColors(data, width, frames)), partial, next, order)
  }

  /** The stored frames are pinned down: two frame lists for the same sheet, both segmented
      greedily in scan order against one palette without repeated colours, are equal. */
  lemma SegmentedUnique(data: seq<Color>, width: nat, a: seq<seq<Rect>>, b: seq<seq<Rect>>, pal: seq<Rgba>)
    requires Distinct(pal) && |a| == |b|
    requires Segmented(data, width, a, pal) && Segmented(data, width, b, pal)
    ensures a == b
  {
    forall f | 0 <= f < |a| ensures a[f] == b[f] {
      assert FrameSegmented(data, width, f, a[f], pal) && FrameSegmented(data, width, f, b[f], pal);
      GreedyUnique(Diff(data, width, f), FrameWidth, FrameHeight, pal, a[f], b[f]);
    }
  }

  /** Closing frame `|frames|` with a segmentation of its diff set keeps every frame segmented,
      against the palette as it stands after the new frame. */
  lemma SegmentedSnoc(data: seq<Color>, width: nat, frames: seq<seq<Rect>>, rects: seq<Rect>, known: seq<Rgba>, grown: seq<Rgba>)
    requires known <= grown && Segmented(data, width, frames, known)
    requires FrameSegmented(data, width, |frames|, rects, grown)
    ensures Segmented(data, width, frames + [rects], grown)
  {
    var all := frames + [rects];
    forall f | 0 <= f < |all|
      ensures FrameSegmented(data, width, f, all[f], grown)
    {
      if f < |frames| {
        assert all[f] == frames[f];
        assert FrameSegmented(data, width, f, frames[f], known);
        IndexedGrow(Diff(data, width, f), frames[f], known, grown);
      }
    }
  }

  /** The colours of every frame's commands, frame after frame, in the order `finite_compress`
      meets them. */
  ghost function FramesColors(data: seq<Color>, width: nat, frames: seq<seq<Rect>>): seq<Rgba>
    decreases |frames|
  {
    if frames == [] then []
    else FramesColors(data, width, frames[..|frames| - 1]) + RectColors(Diff(data, width, |frames| - 1), frames[|frames| - 1])
  }

  lemma FramesColorsSnoc(data: seq<Color>, width: nat, frames: seq<seq<Rect>>, rects: seq<Rect>)
    ensures FramesColors(data, width, frames + [rects]) == FramesColors(data, width, frames) + RectColors(Diff(data, width, |frames|), rects)
  {
    assert (frames + [rects])[..|frames|] == frames;
  }

  /** `t` is the colour of a drawable cell of the diff set of one of the first `count` frames. */
  ghost predicate DiffColour(data: seq<Color>, width: nat, count: nat, t: Rgba)
  {
    exists f: nat :: f < count && Drawable(Diff(data, width, f), FrameWidth, FrameHeight, t)
  }

  /** The palette entries met up to and including frame `f` are colours of drawable diff cells of
      frames up to `f`, so of any `count` frames past `f`. */
  lemma DiffColours(data: seq<Color>, width: nat, f: nat, count: nat, known: seq<Rgba>, before: seq<Rgba>, order: seq<Rgba>)
    requires f < count && known <= before <= order
    requires forall i :: |known| <= i < |before| ==> DiffColour(data, width, f, before[i])
    requires forall i :: |before| <= i < |order| ==> Drawable(Diff(data, width, f), FrameWidth, FrameHeight, order[i])
    ensures forall i :: |known| <= i < |order| ==> DiffColour(data, width, count, order[i])
  {
    forall i | |known| <= i < |order| ensures DiffColour(data, width, count, order[i]) {
      if i < |before| {
        assert before[i] == order[i];
        var g: nat :| g < f && Drawable(Diff(data, width, g), FrameWidth, FrameHeight, order[i]);
        assert g < count;
      } else {
        assert f < count && Drawable(Diff(data, width, f), FrameWidth, FrameHeight, order[i]);
      }
    }
  }
}
