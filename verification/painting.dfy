/** The drawing loops of `retrieve`: a fresh frame image with the remembered cells put back, and
    each command's `dx`/`dy` loops, which write the image and the remembered cells together. */
module Painting {
  import opened Pixels
  import opened Segments
  import opened FrameDiff
  import opened Replay

  /** Putting one cell on the frame image agrees with remembering it. */
  lemma CanvasUpdate(m: map<Cell, Rgba>, c: Cell, col: Rgba)
    requires InFrame(c)
    ensures Canvas(m[c := col]) == Canvas(m)[Slot(c) := col]
  {
    var after, before := Canvas(m[c := col]), Canvas(m)[Slot(c) := col];
    forall i | 0 <= i < CanvasSize
      ensures after[i] == before[i]
    {
      SlotOf(c, i);
    }
  }

  /** `Image.new` followed by `putpixel` of every remembered cell: the frame image shows exactly
      the remembered cells, transparent elsewhere. */
  method FreshCanvas(prev: map<Cell, Rgba>) returns (img: seq<Rgba>)
    requires InCanvas(prev)
    ensures img == Canvas(prev)
  {
    img := Repeat(Clear, CanvasSize);
    ghost var done: map<Cell, Rgba> := map[];
    assert img == Canvas(done);
    var rest := prev.Keys;
    while rest != {}
      invariant rest <= prev.Keys
      invariant forall c :: c in done <==> c in prev && c !in rest
      invariant forall c :: c in done ==> done[c] == prev[c]
      invariant img == Canvas(done)
      decreases |rest|
    {
      var c :| c in rest;
      CanvasUpdate(done, c, prev[c]);
      img := img[Slot(c) := prev[c]];
      done := done[c := prev[c]];
      rest := rest - {c};
    }
    assert done == prev;
  }

  /** The cells the `dx`/`dy` loops of command `r` have painted once column `dx` is under way and
      `dy` of its cells are done. */
  predicate PaintedSoFar(r: Rect, dx: nat, dy: nat, c: Cell)
  {
    (r.x <= c.0 < r.x + dx && r.y <= c.1 < r.y + r.h) || (c.0 == r.x + dx && r.y <= c.1 < r.y + dy)
  }

  /** The remembered cells partway through command `r`: the painted cells hold `col`, the others
      what they held before. */
  ghost predicate PartlyPainted(m: map<Cell, Rgba>, prev: map<Cell, Rgba>, r: Rect, col: Rgba, dx: nat, dy: nat)
  {
    (forall c :: c in m <==> c in prev || PaintedSoFar(r, dx, dy, c)) &&
    (forall c :: c in m ==> m[c] == if PaintedSoFar(r, dx, dy, c) then col else prev[c])
  }

  /** A cell of a command that lies outside the frame image makes the command overflow it. */
  lemma OutsideOverflows(r: Rect, c: Cell)
    requires InRect(r, c) && !InFrame(c)
    ensures Overflows(r)
  {
  }

  /** The `dx`/`dy` loops of one command: `putpixel` on the frame image and an update of the
      remembered cells for every cell of the rectangle, column by column. A cell outside the frame
      image raises. */
  method PaintCommand(prev: map<Cell, Rgba>, img: seq<Rgba>, r: Rect, col: Rgba)
    returns (res: Result<(map<Cell, Rgba>, seq<Rgba>)>)
    requires InCanvas(prev) && img == Canvas(prev)
    ensures res.Err? <==> Overflows(r)
    ensures res.Err? ==> res.fault == ImageIndexOutOfRange
    ensures res.Ok? ==> res.value == (PaintRect(prev, r, col), Canvas(PaintRect(prev, r, col)))
  {
    var m := prev;
    var image := img;
    for dx := 0 to r.w
      invariant InCanvas(m) && image == Canvas(m)
      invariant PartlyPainted(m, prev, r, col, dx, 0)
    {
      for dy := 0 to r.h
        invariant InCanvas(m) && image == Canvas(m)
        invariant PartlyPainted(m, prev, r, col, dx, dy)
      {
        var c := (r.x + dx, r.y + dy);
        if !InFrame(c) {
          OutsideOverflows(r, c);
          return Err(ImageIndexOutOfRange);
        }
        CanvasUpdate(m, c, col);
        image := image[Slot(c) := col];
        m := m[c := col];
      }
    }
    if r.w > 0 && r.h > 0 {
      assert PaintedSoFar(r, r.w, 0, (r.x + r.w - 1, r.y + r.h - 1));
    }
    assert m == PaintRect(prev, r, col);
    return Ok((m, image));
  }

  /** Once painting the first `j` commands raises, painting them all raises the same way. */
  lemma {:induction false} PaintCmdsStuck(prev: map<Cell, Rgba>, cmds: seq<Rect>, pal: seq<Rgba>, j: nat)
    requires j <= |cmds| && PaintCmds(prev, cmds[..j], pal).Err?
    ensures PaintCmds(prev, cmds, pal) == PaintCmds(prev, cmds[..j], pal)
    decreases |cmds| - j
  {
    if j == |cmds| {
      assert cmds[..j] == cmds;
    } else {
      var init := cmds[..|cmds| - 1];
      assert init[..j] == cmds[..j];
      PaintCmdsStuck(prev, init, pal, j);
    }
  }

  /** One frame of `retrieve`'s replay: a fresh image showing the remembered cells, then every
      command in order, each looking its colour up in the palette before painting. */
  method PaintFrame(prev: map<Cell, Rgba>, cmds: seq<Rect>, pal: seq<Rgba>)
    returns (res: Result<(map<Cell, Rgba>, seq<Rgba>)>)
    requires InCanvas(prev)
    ensures res == match PaintCmds(prev, cmds, pal)
                   case Err(e) => Err(e)
                   case Ok(m) => Ok((m, Canvas(m)))
  {
    var image := FreshCanvas(prev);
    var m := prev;
    for j := 0 to |cmds|
      invariant PaintCmds(prev, cmds[..j], pal) == Ok(m)
      invariant InCanvas(m) && image == Canvas(m)
    {
      var r := cmds[j];
      assert cmds[..j + 1][..j] == cmds[..j];
      if r.p >= |pal| {
        PaintCmdsStuck(prev, cmds, pal, j + 1);
        return Err(MissingPaletteIndex);
      }
      var step := PaintCommand(m, image, r, pal[r.p]);
      if step.Err? {
        PaintCmdsStuck(prev, cmds, pal, j + 1);
        return Err(step.fault);
      }
      m, image := step.value.0, step.value.1;
    }
    assert cmds[..|cmds|] == cmds;
    return Ok((m, image));
  }

  /** Once the replay of the first `m` frames raises, the replay of any longer prefix raises the
      same way. */
  lemma {:induction false} ReplayStuck(frames: seq<seq<Rect>>, pal: seq<Rgba>, width: nat, height: nat, m: nat, n: nat)
    requires m <= n <= |frames| && ReplayPrefix(frames, pal, width, height, m).Err?
    ensures ReplayPrefix(frames, pal, width, height, n) == ReplayPrefix(frames, pal, width, height, m)
    decreases n
  {
    if m < n {
      ReplayStuck(frames, pal, width, height, m, n - 1);
    }
  }

  /** One frame of the replay loop of `retrieve`: paint frame `f` over the remembered cells,
      paste it at its column, and after the last frame put the marker when its column is inside
      the sheet (raising when the sheet has no row 0). */
  method ReplayStep(frames: seq<seq<Rect>>, pal: seq<Rgba>, width: nat, height: nat, f: nat,
                    prev: map<Cell, Rgba>, sheet: seq<Rgba>)
    returns (res: Result<(map<Cell, Rgba>, seq<Rgba>)>)
    requires f < |frames| && ReplayPrefix(frames, pal, width, height, f) == Ok((prev, sheet))
    ensures res == ReplayPrefix(frames, pal, width, height, f + 1)
  {
    var painted := PaintFrame(prev, frames[f], pal);
    if painted.Err? {
      return Err(painted.fault);
    }
    var pasted := Paste(sheet, width, painted.value.1, OffsetX + f * FrameWidth);
    if width - 1 > OffsetX + f * FrameWidth && f == |frames| - 1 && OffsetX + f * FrameWidth + FrameWidth + 1 < width {
      if height == 0 {
        return Err(ImageIndexOutOfRange);
      }
      WidthFitsSheet(width, height);
      pasted := pasted[OffsetX + f * FrameWidth + FrameWidth + 1 := Marker];
    }
    return Ok((painted.value.0, pasted));
  }

  /** The replay loop of `retrieve`: every frame in order, starting from no remembered cells and
      a transparent sheet `width` by `height`. */
  method ReplayFrames(frames: seq<seq<Rect>>, pal: seq<Rgba>, width: nat, height: nat) returns (r: Result<seq<Rgba>>)
    ensures r == match ReplayPrefix(frames, pal, width, height, |frames|)
                 case Err(e) => Err(e)
                 case Ok((_, sheet)) => Ok(sheet)
  {
    var prev: map<Cell, Rgba> := map[];
    var sheet := Repeat(Clear, width * height);
    for f := 0 to |frames|
      invariant ReplayPrefix(frames, pal, width, height, f) == Ok((prev, sheet))
    {
      var step := ReplayStep(frames, pal, width, height, f, prev, sheet);
      if step.Err? {
        ReplayStuck(frames, pal, width, height, f + 1, |frames|);
        return Err(step.fault);
      }
      prev, sheet := step.value.0, step.value.1;
    }
    return Ok(sheet);
  }
}
