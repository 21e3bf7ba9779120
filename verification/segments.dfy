/** The rectangle segmenter of the storage codec: what a segmentation of one frame's diff set is,
    the three loops that grow and record one rectangle, and the first-seen palette order. */
module Segments {
  import opened Pixels
  import opened Colors

  /** A command `((x, y), (w, h), p_idx)`: a `w` by `h` block at `(x, y)` painted with palette entry `p`. */
  datatype Rect = Rect(x: nat, y: nat, w: nat, h: nat, p: nat)

  predicate InRect(r: Rect, c: Cell)
  {
    r.x <= c.0 < r.x + r.w && r.y <= c.1 < r.y + r.h
  }

  predicate InGrid(c: Cell, width: nat, height: nat)
  {
    0 <= c.0 < width && 0 <= c.1 < height
  }

  /** `_getpixel_dummy`: a cell of the diff set reads as its colour, any other cell reads as void,
      so only cells of the diff set can be drawn. */
  function DiffPixel(frame: map<Cell, Color>, x: int, y: int): (c: Color)
    ensures (x, y) in frame ==> c == frame[(x, y)]
    ensures !c.isVoid ==> (x, y) in frame
  {
    if (x, y) in frame then frame[(x, y)] else Void
  }

  function OriginColor(frame: map<Cell, Color>, r: Rect): Color
  {
    DiffPixel(frame, r.x, r.y)
  }

  /** A rectangle the segmenter may emit: non-empty, inside the grid, on a drawable origin, and of
      one colour throughout. */
  ghost predicate Sound(frame: map<Cell, Color>, width: nat, height: nat, r: Rect)
  {
    1 <= r.w && 1 <= r.h && r.x + r.w <= width && r.y + r.h <= height &&
    !OriginColor(frame, r).isVoid &&
    forall c :: InRect(r, c) ==> DiffPixel(frame, c.0, c.1) == OriginColor(frame, r)
  }

  ghost predicate Covered(rects: seq<Rect>, c: Cell)
  {
    exists i :: 0 <= i < |rects| && InRect(rects[i], c)
  }

  ghost predicate Disjoint(rects: seq<Rect>)
  {
    forall i, j, c :: 0 <= i < j < |rects| && InRect(rects[i], c) ==> !InRect(rects[j], c)
  }

  /** What `segment` promises of its rectangles: each is sound, no two overlap, and together they
      cover every drawable cell of the grid. With soundness this covers exactly the drawable cells. */
  ghost predicate Segmentation(frame: map<Cell, Color>, width: nat, height: nat, rects: seq<Rect>)
  {
    (forall i :: 0 <= i < |rects| ==> Sound(frame, width, height, rects[i])) &&
    Disjoint(rects) &&
    (forall c :: InGrid(c, width, height) && !DiffPixel(frame, c.0, c.1).isVoid ==> Covered(rects, c))
  }

  /** Every rectangle's palette index names its own colour in the palette `order` (index to colour). */
  ghost predicate Indexed(frame: map<Cell, Color>, rects: seq<Rect>, order: seq<Rgba>)
  {
    forall i :: 0 <= i < |rects| ==> rects[i].p < |order| && order[rects[i].p] == ToTuple(OriginColor(frame, rects[i]))
  }

  /** The colours of the rectangles in the order they were emitted. */
  function RectColors(frame: map<Cell, Color>, rects: seq<Rect>): (cs: seq<Rgba>)
    ensures |cs| == |rects|
  {
    seq(|rects|, i requires 0 <= i < |rects| => ToTuple(OriginColor(frame, rects[i])))
  }

  ghost predicate Distinct(s: seq<Rgba>)
  {
    forall i, j :: 0 <= i < j < |s| ==> s[i] != s[j]
  }

  /** The palette order after meeting the colours `cs` one by one: a colour not yet present is
      appended, so entries keep their index and new ones arrive in first-seen order. */
  function Learn(known: seq<Rgba>, cs: seq<Rgba>): (order: seq<Rgba>)
    ensures known <= order
    ensures forall c :: c in cs ==> c in order
    ensures forall c :: c in order ==> c in known || c in cs
    ensures forall i :: |known| <= i < |order| ==> order[i] in cs
    ensures Distinct(known) ==> Distinct(order)
    decreases |cs|
  {
    if cs == [] then known
    else
      var before := Learn(known, cs[..|cs| - 1]);
      var c := cs[|cs| - 1];
      assert forall d :: d in cs[..|cs| - 1] ==> d in cs;
      assert forall d :: d in cs ==> d in cs[..|cs| - 1] || d == c;
      if c in before then before else before + [c]
  }

  lemma {:induction false} LearnSnoc(known: seq<Rgba>, cs: seq<Rgba>, c: Rgba)
    ensures Learn(known, cs + [c]) == if c in Learn(known, cs) then Learn(known, cs) else Learn(known, cs) + [c]
  {
    assert (cs + [c])[..|cs|] == cs;
  }

  /** Meeting `a` and then `b` leaves the palette order that meeting `a + b` at once does. */
  lemma {:induction false} LearnConcat(known: seq<Rgba>, a: seq<Rgba>, b: seq<Rgba>)
    ensures Learn(Learn(known, a), b) == Learn(known, a + b)
    decreases |b|
  {
    if b == [] {
      assert a + b == a;
    } else {
      var init, c := b[..|b| - 1], b[|b| - 1];
      var met := Learn(known, a + init);
      var next := if c in met then met else met + [c];
      assert Learn(Learn(known, a), b) == next by {
        assert b == init + [c];
        LearnConcat(known, a, init);
        LearnSnoc(Learn(known, a), init, c);
      }
      assert Learn(known, a + b) == next by {
        assert a + b == (a + init) + [c];
        LearnSnoc(known, a + init, c);
      }
    }
  }

  /** `t` is the colour of some drawable cell of the grid. */
  ghost predicate Drawable(frame: map<Cell, Color>, width: nat, height: nat, t: Rgba)
  {
    exists x: nat, y: nat :: x < width && y < height && !DiffPixel(frame, x, y).isVoid && ToTuple(DiffPixel(frame, x, y)) == t
  }

  /** The width loop of `segment`: the row grows while the next cell is inside the grid, unvisited
      and of the origin's colour, so the width it stops at cannot be extended. */
  method GrowWidth(frame: map<Cell, Color>, visited: set<Cell>, width: nat, x: nat, y: nat, color: Color)
    returns (w: nat)
    requires x < width
    ensures 1 <= w && x + w <= width
    ensures forall a :: x < a < x + w ==> (a, y) !in visited && DiffPixel(frame, a, y) == color
    ensures x + w == width || (x + w, y) in visited || DiffPixel(frame, x + w, y) != color
  {
    w := 1;
    while x + w < width && (x + w, y) !in visited && All(DiffPixel(frame, x + w, y), color)
      invariant 1 <= w && x + w <= width
      invariant forall a :: x < a < x + w ==> (a, y) !in visited && DiffPixel(frame, a, y) == color
    {
      w := w + 1;
    }
  }

  /** Whether row `y` of the strip `x .. x + w - 1` lets the rectangle grow: every cell unvisited and
      of the origin's colour. */
  ghost predicate RowExtends(frame: map<Cell, Color>, visited: set<Cell>, x: nat, w: nat, y: nat, color: Color)
  {
    forall a :: x <= a < x + w ==> (a, y) !in visited && DiffPixel(frame, a, y) == color
  }

  /** The height loop of `segment`: the strip grows a row at a time while the whole next row is
      inside the grid, unvisited and of the origin's colour; the height it stops at cannot be extended. */
  method GrowHeight(frame: map<Cell, Color>, visited: set<Cell>, height: nat, x: nat, y: nat, w: nat, color: Color)
    returns (h: nat)
    requires y < height
    ensures 1 <= h && y + h <= height
    ensures forall b :: y < b < y + h ==> RowExtends(frame, visited, x, w, b, color)
    ensures y + h == height || !RowExtends(frame, visited, x, w, y + h, color)
  {
    h := 1;
    var expandable := true;
    while expandable && y + h < height
      invariant 1 <= h && y + h <= height
      invariant forall b :: y < b < y + h ==> RowExtends(frame, visited, x, w, b, color)
      invariant !expandable ==> y + h < height && !RowExtends(frame, visited, x, w, y + h, color)
      decreases height - h + (if expandable then 1 else 0)
    {
      var row := y + h;
      for dx := 0 to w
        invariant expandable
        invariant forall a :: x <= a < x + dx ==> (a, row) !in visited && DiffPixel(frame, a, row) == color
      {
        if (x + dx, row) in visited || !All(DiffPixel(frame, x + dx, row), color) {
          expandable := false;
          break;
        }
      }
      if expandable {
        h := h + 1;
      }
    }
  }

  /** The marking loops of `segment`: every cell of the `w` by `h` block at `(x, y)` joins `visited`. */
  method MarkVisited(visited: set<Cell>, x: nat, y: nat, w: nat, h: nat) returns (v: set<Cell>)
    ensures forall c :: c in v <==> c in visited || InRect(Rect(x, y, w, h, 0), c)
  {
    v := visited;
    for dy := 0 to h
      invariant forall c :: c in v <==> c in visited || (InRect(Rect(x, y, w, h, 0), c) && c.1 < y + dy)
    {
      for dx := 0 to w
        invariant forall c :: c in v <==>
          c in visited || (InRect(Rect(x, y, w, h, 0), c) && (c.1 < y + dy || (c.1 == y + dy && c.0 < x + dx)))
      {
        v := v + {(x + dx, y + dy)};
      }
    }
  }

  /** The rectangle grown from an unvisited drawable origin by the width and height loops is sound,
      overlaps none of the rectangles emitted before it, and marking it keeps `visited` equal to the
      cells covered so far. */
  lemma NewRect(frame: map<Cell, Color>, before: set<Cell>, after: set<Cell>, rects: seq<Rect>, r: Rect,
                width: nat, height: nat, color: Color)
    requires forall c :: c in before <==> Covered(rects, c)
    requires forall c :: c in after <==> c in before || InRect(r, c)
    requires Disjoint(rects)
    requires (r.x, r.y) !in before && DiffPixel(frame, r.x, r.y) == color && !color.isVoid
    requires 1 <= r.w && r.x + r.w <= width && 1 <= r.h && r.y + r.h <= height
    requires forall a :: r.x < a < r.x + r.w ==> (a, r.y) !in before && DiffPixel(frame, a, r.y) == color
    requires forall b :: r.y < b < r.y + r.h ==> RowExtends(frame, before, r.x, r.w, b, color)
    ensures Sound(frame, width, height, r)
    ensures Disjoint(rects + [r])
    ensures forall c :: c in after <==> Covered(rects + [r], c)
  {
    assert forall c :: InRect(r, c) ==> c !in before && DiffPixel(frame, c.0, c.1) == color by {
      forall c | InRect(r, c) ensures c !in before && DiffPixel(frame, c.0, c.1) == color {
        if c.1 > r.y {
          assert RowExtends(frame, before, r.x, r.w, c.1, color);
        }
      }
    }
    var all := rects + [r];
    forall i, j, c | 0 <= i < j < |all| && InRect(all[i], c) ensures !InRect(all[j], c) {
      if j == |rects| {
        assert Covered(rects, c);
      }
    }
    forall c ensures c in after <==> Covered(all, c) {
      if Covered(all, c) {
        var i :| 0 <= i < |all| && InRect(all[i], c);
        if i < |rects| { assert Covered(rects, c); }
      }
      if c in before {
        var i :| 0 <= i < |rects| && InRect(rects[i], c);
        assert all[i] == rects[i];
      }
      if InRect(r, c) {
        assert all[|rects|] == r;
      }
    }
  }

  /** Cell `c` stops a rectangle of colour `color` from growing over it: an earlier rectangle
      already covers it, or it reads as another colour (void included). */
  ghost predicate Blocked(frame: map<Cell, Color>, earlier: seq<Rect>, x: nat, y: nat, color: Color)
  {
    Covered(earlier, (x, y)) || DiffPixel(frame, x, y) != color
  }

  /** Some cell of row `y` of the strip `x .. x + w - 1` is blocked. */
  ghost predicate RowBlocked(frame: map<Cell, Color>, earlier: seq<Rect>, x: nat, w: nat, y: nat, color: Color)
  {
    exists a: nat :: x <= a < x + w && Blocked(frame, earlier, a, y, color)
  }

  /** Rectangle `i` is as large as the greedy loops make it: its top row stops at the grid's edge
      or at a blocked cell, and so does its height, the row below it holding a blocked cell. */
  ghost predicate Maximal(frame: map<Cell, Color>, width: nat, height: nat, rects: seq<Rect>, i: nat)
    requires i < |rects|
  {
    Stops(frame, width, height, rects[..i], rects[i])
  }

  /** `r` cannot grow after the rectangles `earlier`: its top row ends at the grid's edge or at a
      blocked cell, and the row below it ends the grid or holds a blocked cell. */
  ghost predicate Stops(frame: map<Cell, Color>, width: nat, height: nat, earlier: seq<Rect>, r: Rect)
  {
    var color := OriginColor(frame, r);
    (r.x + r.w == width || Blocked(frame, earlier, r.x + r.w, r.y, color)) &&
    (r.y + r.h == height || RowBlocked(frame, earlier, r.x, r.w, r.y + r.h, color))
  }

  /** Rectangle `i` starts at the first drawable cell, in row-major order, that the rectangles
      before it leave uncovered: the scan meets origins row by row, left to right. */
  ghost predicate FirstOrigin(frame: map<Cell, Color>, width: nat, height: nat, rects: seq<Rect>, i: nat)
    requires i < |rects|
  {
    Precedes(frame, width, height, rects[..i], (rects[i].x, rects[i].y))
  }

  /** Cell `c` comes at or before, in row-major order, every drawable cell that `rects` leave
      uncovered. */
  ghost predicate Precedes(frame: map<Cell, Color>, width: nat, height: nat, rects: seq<Rect>, c: Cell)
  {
    forall x: nat, y: nat :: x < width && y < height && !DiffPixel(frame, x, y).isVoid && !Covered(rects, (x, y)) ==>
      c.1 < y || (c.1 == y && c.0 <= x)
  }

  /** The rectangles are the ones the scan and the greedy loops produce, in the order they
      produce them: each starts at the first uncovered drawable cell and is as large as the loops
      make it. */
  ghost predicate Greedy(frame: map<Cell, Color>, width: nat, height: nat, rects: seq<Rect>)
  {
    forall i :: 0 <= i < |rects| ==> Maximal(frame, width, height, rects, i) && FirstOrigin(frame, width, height, rects, i)
  }

  /** Every drawable cell the row-major scan has passed before reaching `(x, y)` is visited. */
  ghost predicate VisitedBefore(frame: map<Cell, Color>, width: nat, height: nat, visited: set<Cell>, x: nat, y: nat)
  {
    forall a: nat, b: nat :: a < width && b < height && !DiffPixel(frame, a, b).isVoid && (b < y || (b == y && a < x)) ==>
      (a, b) in visited
  }

  /** The rectangles `segment` has laid so far: `visited` holds exactly their cells, and they are
      sound, pairwise disjoint and greedy. */
  ghost predicate Laid(frame: map<Cell, Color>, width: nat, height: nat, visited: set<Cell>, rects: seq<Rect>)
  {
    (forall c :: c in visited <==> Covered(rects, c)) &&
    (forall i :: 0 <= i < |rects| ==> Sound(frame, width, height, rects[i])) &&
    Disjoint(rects) &&
    Greedy(frame, width, height, rects)
  }

  /** `next` is the first drawable cell, in row-major order, that `rects` leave uncovered: the
      origin the scan meets after laying `rects`. */
  ghost predicate NextOrigin(frame: map<Cell, Color>, width: nat, height: nat, rects: seq<Rect>, next: Cell)
  {
    next.0 < width && next.1 < height && !DiffPixel(frame, next.0, next.1).isVoid && !Covered(rects, next) &&
    Precedes(frame, width, height, rects, next)
  }

  /** How `segment` stops on the palette overflow: it has laid the rectangles `done`, greedy and
      in scan order, and reached the origin `next`; the palette `order0` it started from has met
      the colours of `done` and then the colour of `next`, in that order. */
  ghost predicate Overflowed(frame: map<Cell, Color>, width: nat, height: nat, order0: seq<Rgba>,
                             done: seq<Rect>, next: Cell, order: seq<Rgba>)
  {
    (forall i :: 0 <= i < |done| ==> Sound(frame, width, height, done[i])) && Disjoint(done) &&
    Greedy(frame, width, height, done) && NextOrigin(frame, width, height, done, next) &&
    order == Learn(order0, RectColors(frame, done) + [ToTuple(DiffPixel(frame, next.0, next.1))])
  }

  /** What `segment` has built so far: the rectangles laid, indexed by the palette `order`, and
      the palette having met their colours in order on top of `order0`, the palette the call
      started from, staying below the limit `limit` whenever it grew. */
  ghost predicate Built(frame: map<Cell, Color>, width: nat, height: nat, visited: set<Cell>, rects: seq<Rect>,
                        order0: seq<Rgba>, order: seq<Rgba>, limit: nat)
  {
    Laid(frame, width, height, visited, rects) && Indexed(frame, rects, order) &&
    order == Learn(order0, RectColors(frame, rects)) &&
    (order == order0 || |order| < limit)
  }

  /** The rectangle the greedy loops stopped growing is maximal after the ones before it, and
      appending it leaves those maximal. */
  lemma MaximalSnoc(frame: map<Cell, Color>, width: nat, height: nat, visited: set<Cell>, rects: seq<Rect>,
                    r: Rect, color: Color)
    requires forall c :: c in visited <==> Covered(rects, c)
    requires forall i :: 0 <= i < |rects| ==> Maximal(frame, width, height, rects, i)
    requires DiffPixel(frame, r.x, r.y) == color
    requires r.x + r.w == width || (r.x + r.w, r.y) in visited || DiffPixel(frame, r.x + r.w, r.y) != color
    requires r.y + r.h == height || !RowExtends(frame, visited, r.x, r.w, r.y + r.h, color)
    ensures forall i :: 0 <= i < |rects| + 1 ==> Maximal(frame, width, height, rects + [r], i)
  {
    var rs := rects + [r];
    forall i | 0 <= i < |rs| ensures Maximal(frame, width, height, rs, i) {
      if i < |rects| {
        assert rs[..i] == rects[..i];
        assert rs[i] == rects[i];
        assert Maximal(frame, width, height, rects, i);
      } else {
        assert rs[..i] == rects;
        if r.y + r.h != height {
          var a :| r.x <= a < r.x + r.w && ((a, r.y + r.h) in visited || DiffPixel(frame, a, r.y + r.h) != color);
          assert Blocked(frame, rects, a, r.y + r.h, color);
        }
      }
    }
  }

  /** A rectangle whose origin the scan reached with every earlier drawable cell visited starts
      at the first uncovered drawable cell, and appending it leaves the earlier ones so. */
  lemma FirstOriginSnoc(frame: map<Cell, Color>, width: nat, height: nat, visited: set<Cell>, rects: seq<Rect>, r: Rect)
    requires forall c :: c in visited <==> Covered(rects, c)
    requires forall i :: 0 <= i < |rects| ==> FirstOrigin(frame, width, height, rects, i)
    requires VisitedBefore(frame, width, height, visited, r.x, r.y)
    ensures forall i :: 0 <= i < |rects| + 1 ==> FirstOrigin(frame, width, height, rects + [r], i)
  {
    var rs := rects + [r];
    forall i | 0 <= i < |rs| ensures FirstOrigin(frame, width, height, rs, i) {
      assert rs[..i] == if i < |rects| then rects[..i] else rects;
      if i < |rects| {
        assert rs[i] == rects[i];
        assert FirstOrigin(frame, width, height, rects, i);
      } else {
        forall x: nat, y: nat | x < width && y < height && !DiffPixel(frame, x, y).isVoid && !Covered(rects, (x, y))
          ensures r.y < y || (r.y == y && r.x <= x)
        {
          assert (x, y) !in visited;
        }
      }
    }
  }

  /** What the width, height and marking loops leave from origin `(x, y)` of colour `color`: a
      block of unvisited cells of that colour inside the grid, grown until neither its width nor
      its height can be extended, with `marked` holding `visited` and the block. */
  ghost predicate Grown(frame: map<Cell, Color>, visited: set<Cell>, width: nat, height: nat,
                        x: nat, y: nat, w: nat, h: nat, color: Color, marked: set<Cell>)
  {
    (forall c :: c in marked <==> c in visited || InRect(Rect(x, y, w, h, 0), c)) &&
    (x, y) !in visited && DiffPixel(frame, x, y) == color && !color.isVoid &&
    1 <= w && x + w <= width && 1 <= h && y + h <= height &&
    (forall a :: x < a < x + w ==> (a, y) !in visited && DiffPixel(frame, a, y) == color) &&
    (forall b :: y < b < y + h ==> RowExtends(frame, visited, x, w, b, color)) &&
    (x + w == width || (x + w, y) in visited || DiffPixel(frame, x + w, y) != color) &&
    (y + h == height || !RowExtends(frame, visited, x, w, y + h, color))
  }

  /** The geometric part of one origin of `segment`: the width loop, the height loop and the
      marking loops. */
  method GrowRect(frame: map<Cell, Color>, visited: set<Cell>, width: nat, height: nat, x: nat, y: nat)
    returns (w: nat, h: nat, marked: set<Cell>)
    requires x < width && y < height && (x, y) !in visited && !DiffPixel(frame, x, y).isVoid
    ensures Grown(frame, visited, width, height, x, y, w, h, DiffPixel(frame, x, y), marked)
    ensures visited <= marked && (x, y) in marked
  {
    var color := DiffPixel(frame, x, y);
    w := GrowWidth(frame, visited, width, x, y, color);
    h := GrowHeight(frame, visited, height, x, y, w, color);
    marked := MarkVisited(visited, x, y, w, h);
  }

  /** Appending the rectangle grown from one origin keeps the rectangles laid. */
  lemma LaidStep(frame: map<Cell, Color>, width: nat, height: nat, visited: set<Cell>, marked: set<Cell>,
                 rects: seq<Rect>, r: Rect, color: Color)
    requires Laid(frame, width, height, visited, rects)
    requires Grown(frame, visited, width, height, r.x, r.y, r.w, r.h, color, marked)
    requires VisitedBefore(frame, width, height, visited, r.x, r.y)
    ensures Laid(frame, width, height, marked, rects + [r])
  {
    var rs := rects + [r];
    forall c ensures InRect(r, c) == InRect(Rect(r.x, r.y, r.w, r.h, 0), c) {}
    NewRect(frame, visited, marked, rects, r, width, height, color);
    forall i | 0 <= i < |rs| ensures Sound(frame, width, height, rs[i]) {
      if i < |rects| {
        assert rs[i] == rects[i];
      }
    }
    MaximalSnoc(frame, width, height, visited, rects, r, color);
    FirstOriginSnoc(frame, width, height, visited, rects, r);
  }

  /** Appending the rectangle grown from one origin, with the palette index the palette step gave
      its colour, keeps `Built`. */
  lemma BuiltStep(frame: map<Cell, Color>, width: nat, height: nat, visited: set<Cell>, marked: set<Cell>,
                  rects: seq<Rect>, r: Rect, color: Color, order0: seq<Rgba>, before: seq<Rgba>, order: seq<Rgba>,
                  limit: nat)
    requires Built(frame, width, height, visited, rects, order0, before, limit)
    requires Grown(frame, visited, width, height, r.x, r.y, r.w, r.h, color, marked)
    requires VisitedBefore(frame, width, height, visited, r.x, r.y)
    requires order == if ToTuple(color) in before then before else before + [ToTuple(color)]
    requires r.p < |order| && order[r.p] == ToTuple(color)
    requires order == before || |order| < limit
    ensures Built(frame, width, height, marked, rects + [r], order0, order, limit)
  {
    LaidStep(frame, width, height, visited, marked, rects, r, color);
    IndexedSnoc(frame, rects, r, before, order);
    LearnRect(frame, rects, r, order0, before, order);
  }

  /** The palette step for one more rectangle is meeting its origin colour after the colours of
      the rectangles before it. */
  lemma LearnRect(frame: map<Cell, Color>, rects: seq<Rect>, r: Rect, order0: seq<Rgba>, before: seq<Rgba>, order: seq<Rgba>)
    requires before == Learn(order0, RectColors(frame, rects))
    requires order == if ToTuple(OriginColor(frame, r)) in before then before else before + [ToTuple(OriginColor(frame, r))]
    ensures order == Learn(order0, RectColors(frame, rects + [r]))
  {
    assert RectColors(frame, rects + [r]) == RectColors(frame, rects) + [ToTuple(OriginColor(frame, r))];
    LearnSnoc(order0, RectColors(frame, rects), ToTuple(OriginColor(frame, r)));
  }

  /** Indices written earlier stay valid once the palette has grown, and the new rectangle's
      index names its own colour. */
  lemma IndexedSnoc(frame: map<Cell, Color>, rects: seq<Rect>, r: Rect, before: seq<Rgba>, order: seq<Rgba>)
    requires Indexed(frame, rects, before) && before <= order
    requires r.p < |order| && order[r.p] == ToTuple(OriginColor(frame, r))
    ensures Indexed(frame, rects + [r], order)
  {
    var rs := rects + [r];
    forall i | 0 <= i < |rs| ensures rs[i].p < |order| && order[rs[i].p] == ToTuple(OriginColor(frame, rs[i])) {
      if i < |rects| {
        assert rs[i] == rects[i];
        assert before[rects[i].p] == order[rects[i].p];
      }
    }
  }

  /** Once every drawable cell of the grid is visited, what has been built is a segmentation. */
  lemma BuiltSegmentation(frame: map<Cell, Color>, width: nat, height: nat, visited: set<Cell>, rects: seq<Rect>,
                          order0: seq<Rgba>, order: seq<Rgba>, limit: nat)
    requires Built(frame, width, height, visited, rects, order0, order, limit)
    requires forall c :: InGrid(c, width, height) && !DiffPixel(frame, c.0, c.1).isVoid ==> c in visited
    ensures Segmentation(frame, width, height, rects) && Indexed(frame, rects, order)
  {
  }

  /** Every colour the palette met while building is the colour of a drawable cell. */
  lemma BuiltDrawable(frame: map<Cell, Color>, width: nat, height: nat, visited: set<Cell>, rects: seq<Rect>,
                      order0: seq<Rgba>, order: seq<Rgba>, limit: nat)
    requires Built(frame, width, height, visited, rects, order0, order, limit)
    ensures forall i :: |order0| <= i < |order| ==> Drawable(frame, width, height, order[i])
  {
    var cs := RectColors(frame, rects);
    forall i | |order0| <= i < |order| ensures Drawable(frame, width, height, order[i]) {
      var j :| 0 <= j < |cs| && cs[j] == order[i];
      var r := rects[j];
      assert Sound(frame, width, height, r);
      assert !DiffPixel(frame, r.x, r.y).isVoid && ToTuple(DiffPixel(frame, r.x, r.y)) == order[i];
    }
  }

  /** Meeting the colour of a drawable cell keeps every palette entry past `order0` drawable. */
  lemma DrawableGrow(frame: map<Cell, Color>, width: nat, height: nat, order0: seq<Rgba>, before: seq<Rgba>,
                     order: seq<Rgba>, x: nat, y: nat)
    requires x < width && y < height && !DiffPixel(frame, x, y).isVoid
    requires order0 <= before
    requires forall i :: |order0| <= i < |before| ==> Drawable(frame, width, height, before[i])
    requires order == if ToTuple(DiffPixel(frame, x, y)) in before then before else before + [ToTuple(DiffPixel(frame, x, y))]
    ensures forall i :: |order0| <= i < |order| ==> Drawable(frame, width, height, order[i])
  {
    assert Drawable(frame, width, height, ToTuple(DiffPixel(frame, x, y)));
  }

  /** No cell of rectangle `i` of a disjoint sequence is covered by the rectangles before it. */
  lemma FreshCells(rects: seq<Rect>, i: nat)
    requires Disjoint(rects) && i < |rects|
    ensures forall c :: InRect(rects[i], c) ==> !Covered(rects[..i], c)
  {
  }

  /** Two sound rectangles, each fresh after `earlier` and each starting at the first drawable
      cell `earlier` leaves uncovered, start at the same cell. */
  lemma SameOrigin(frame: map<Cell, Color>, width: nat, height: nat, earlier: seq<Rect>, r: Rect, q: Rect)
    requires Sound(frame, width, height, r) && Sound(frame, width, height, q)
    requires !Covered(earlier, (r.x, r.y)) && !Covered(earlier, (q.x, q.y))
    requires Precedes(frame, width, height, earlier, (r.x, r.y)) && Precedes(frame, width, height, earlier, (q.x, q.y))
    ensures r.x == q.x && r.y == q.y
  {
    var rx: nat, ry: nat, qx: nat, qy: nat := r.x, r.y, q.x, q.y;
    assert !DiffPixel(frame, qx, qy).isVoid && !Covered(earlier, (qx, qy));
    assert !DiffPixel(frame, rx, ry).isVoid && !Covered(earlier, (rx, ry));
  }

  /** Two sound rectangles from the same origin, fresh after `earlier` and unable to grow, have
      the same width: the narrower one would have stopped at a cell the wider one shows is free. */
  lemma SameWidth(frame: map<Cell, Color>, width: nat, height: nat, earlier: seq<Rect>, r: Rect, q: Rect)
    requires Sound(frame, width, height, r) && Sound(frame, width, height, q) && r.x == q.x && r.y == q.y
    requires forall c :: InRect(r, c) ==> !Covered(earlier, c)
    requires Stops(frame, width, height, earlier, q)
    ensures r.w <= q.w
  {
  }

  /** With the same origin and width, the heights agree too: the shorter one would have stopped
      at a row the taller one shows is free. */
  lemma SameHeight(frame: map<Cell, Color>, width: nat, height: nat, earlier: seq<Rect>, r: Rect, q: Rect)
    requires Sound(frame, width, height, r) && Sound(frame, width, height, q)
    requires r.x == q.x && r.y == q.y && r.w == q.w
    requires forall c :: InRect(r, c) ==> !Covered(earlier, c)
    requires Stops(frame, width, height, earlier, q)
    ensures r.h <= q.h
  {
  }

  /** A segmentation `b` that agrees with `a` before position `i` has a rectangle at `i` too,
      since it must cover the origin of `a[i]`, which the earlier ones do not. */
  lemma MoreRects(frame: map<Cell, Color>, width: nat, height: nat, a: seq<Rect>, b: seq<Rect>, i: nat)
    requires Segmentation(frame, width, height, b)
    requires i < |a| && i <= |b| && a[..i] == b[..i]
    requires Sound(frame, width, height, a[i]) && !Covered(a[..i], (a[i].x, a[i].y))
    ensures i < |b|
  {
    var o: Cell := (a[i].x, a[i].y);
    assert InGrid(o, width, height) && !DiffPixel(frame, o.0, o.1).isVoid;
  }

  /** `rects` is a greedy segmentation of the frame in scan order, indexed by `order`. */
  ghost predicate GreedyIndexed(frame: map<Cell, Color>, width: nat, height: nat, order: seq<Rgba>, rects: seq<Rect>)
  {
    Segmentation(frame, width, height, rects) && Greedy(frame, width, height, rects) && Indexed(frame, rects, order)
  }

  /** What a greedy segmentation says about its rectangle at `i`, against the ones before it. */
  lemma GreedyAt(frame: map<Cell, Color>, width: nat, height: nat, order: seq<Rgba>, a: seq<Rect>, i: nat)
    requires GreedyIndexed(frame, width, height, order, a) && i < |a|
    ensures Sound(frame, width, height, a[i]) && !Covered(a[..i], (a[i].x, a[i].y))
    ensures forall c :: InRect(a[i], c) ==> !Covered(a[..i], c)
    ensures Stops(frame, width, height, a[..i], a[i]) && Precedes(frame, width, height, a[..i], (a[i].x, a[i].y))
    ensures a[i].p < |order| && order[a[i].p] == ToTuple(OriginColor(frame, a[i]))
  {
    FreshCells(a, i);
    assert InRect(a[i], (a[i].x, a[i].y));
    assert Maximal(frame, width, height, a, i) && FirstOrigin(frame, width, height, a, i);
  }

  /** Two greedy segmentations that agree before position `i`, indexed by a palette without
      repeated colours, agree at `i`. */
  lemma SameAt(frame: map<Cell, Color>, width: nat, height: nat, order: seq<Rgba>, a: seq<Rect>, b: seq<Rect>, i: nat)
    requires Distinct(order) && GreedyIndexed(frame, width, height, order, a) && GreedyIndexed(frame, width, height, order, b)
    requires i < |a| && i <= |b| && a[..i] == b[..i]
    ensures i < |b| && a[i] == b[i]
  {
    GreedyAt(frame, width, height, order, a, i);
    MoreRects(frame, width, height, a, b, i);
    GreedyAt(frame, width, height, order, b, i);
    SameNext(frame, width, height, order, a[..i], a[i], b[i]);
  }

  /** Two rectangles that could each come next after `earlier` in a greedy segmentation indexed
      by a palette without repeated colours are the same command. */
  lemma SameNext(frame: map<Cell, Color>, width: nat, height: nat, order: seq<Rgba>, earlier: seq<Rect>, r: Rect, q: Rect)
    requires Distinct(order)
    requires Sound(frame, width, height, r) && Sound(frame, width, height, q)
    requires forall c :: InRect(r, c) ==> !Covered(earlier, c)
    requires forall c :: InRect(q, c) ==> !Covered(earlier, c)
    requires Stops(frame, width, height, earlier, r) && Precedes(frame, width, height, earlier, (r.x, r.y))
    requires Stops(frame, width, height, earlier, q) && Precedes(frame, width, height, earlier, (q.x, q.y))
    requires r.p < |order| && order[r.p] == ToTuple(OriginColor(frame, r))
    requires q.p < |order| && order[q.p] == ToTuple(OriginColor(frame, q))
    ensures r == q
  {
    assert InRect(r, (r.x, r.y)) && InRect(q, (q.x, q.y));
    SameOrigin(frame, width, height, earlier, r, q);
    SameWidth(frame, width, height, earlier, r, q);
    SameWidth(frame, width, height, earlier, q, r);
    SameHeight(frame, width, height, earlier, r, q);
    SameHeight(frame, width, height, earlier, q, r);
  }

  /** Two greedy segmentations that agree before position `i` agree everywhere. */
  lemma {:induction false} SameFrom(frame: map<Cell, Color>, width: nat, height: nat, order: seq<Rgba>, a: seq<Rect>, b: seq<Rect>, i: nat)
    requires Distinct(order) && GreedyIndexed(frame, width, height, order, a) && GreedyIndexed(frame, width, height, order, b)
    requires i <= |a| && i <= |b| && a[..i] == b[..i]
    ensures a == b
    decreases |a| - i
  {
    if i < |a| {
      SameAt(frame, width, height, order, a, b, i);
      AgreeLonger(a, b, i);
      SameFrom(frame, width, height, order, a, b, i + 1);
    } else if i < |b| {
      SameAt(frame, width, height, order, b, a, i);
    } else {
      assert a == a[..i] && b == b[..i];
    }
  }

  /** Agreeing before `i` and at `i` is agreeing before `i + 1`. */
  lemma AgreeLonger(a: seq<Rect>, b: seq<Rect>, i: nat)
    requires i < |a| && i < |b| && a[..i] == b[..i] && a[i] == b[i]
    ensures a[..i + 1] == b[..i + 1]
  {
    assert a[..i + 1] == a[..i] + [a[i]] && b[..i + 1] == b[..i] + [b[i]];
  }

  /** The segmentation is unique: two greedy segmentations in scan order, indexed by a palette
      without repeated colours, are the same command list. So `segment`'s output is fixed by the
      diff set and the palette. */
  lemma GreedyUnique(frame: map<Cell, Color>, width: nat, height: nat, order: seq<Rgba>, a: seq<Rect>, b: seq<Rect>)
    requires Distinct(order) && GreedyIndexed(frame, width, height, order, a) && GreedyIndexed(frame, width, height, order, b)
    ensures a == b
  {
    SameFrom(frame, width, height, order, a, b, 0);
  }

  /** A palette overflow at origin `(x, y)`, reached by the scan with the rectangles `rects` laid,
      is an overflow after exactly those rectangles at that origin. */
  lemma OverflowAt(frame: map<Cell, Color>, width: nat, height: nat, visited: set<Cell>, rects: seq<Rect>,
                   x: nat, y: nat, order0: seq<Rgba>, order: seq<Rgba>)
    requires Laid(frame, width, height, visited, rects)
    requires x < width && y < height && (x, y) !in visited && !DiffPixel(frame, x, y).isVoid
    requires VisitedBefore(frame, width, height, visited, x, y)
    requires order == Learn(order0, RectColors(frame, rects) + [ToTuple(DiffPixel(frame, x, y))])
    ensures Overflowed(frame, width, height, order0, rects, (x, y), order)
  {
  }
}
