/** The byte layout the storage codec hands to its compressor: a frame count, then per frame a
    command count and five bytes per command, then a palette count and four bytes per colour. */
module StorageLayout {
  import opened Pixels
  import opened Segments

  /** Each of the five fields of a command fits one byte (`struct.pack("BBBBB", ...)`). */
  predicate RectFits(r: Rect)
  {
    r.x < 256 && r.y < 256 && r.w < 256 && r.h < 256 && r.p < 256
  }

  predicate CmdsFit(cmds: seq<Rect>)
  {
    |cmds| < 256 && forall k :: 0 <= k < |cmds| ==> RectFits(cmds[k])
  }

  predicate FramesFit(frames: seq<seq<Rect>>)
  {
    forall f :: 0 <= f < |frames| ==> CmdsFit(frames[f])
  }

  /** Every count and every field the layout writes fits one byte. */
  predicate Fits(frames: seq<seq<Rect>>, pal: seq<Rgba>)
  {
    |frames| < 256 && FramesFit(frames) && |pal| < 256
  }

  function RectBytes(r: Rect): (bs: seq<byte>)
    requires RectFits(r)
    ensures |bs| == 5
  {
    [r.x, r.y, r.w, r.h, r.p]
  }

  /** The commands of one frame, five bytes each, in order. */
  function CmdsBytes(cmds: seq<Rect>): (bs: seq<byte>)
    requires forall k :: 0 <= k < |cmds| ==> RectFits(cmds[k])
    ensures |bs| == 5 * |cmds|
  {
    if cmds == [] then []
    else CmdsBytes(cmds[..|cmds| - 1]) + RectBytes(cmds[|cmds| - 1])
  }

  function FrameBytes(cmds: seq<Rect>): (bs: seq<byte>)
    requires CmdsFit(cmds)
    ensures |bs| == 1 + 5 * |cmds|
  {
    [|cmds|] + CmdsBytes(cmds)
  }

  function FramesBytes(frames: seq<seq<Rect>>): seq<byte>
    requires FramesFit(frames)
  {
    if frames == [] then []
    else FramesBytes(frames[..|frames| - 1]) + FrameBytes(frames[|frames| - 1])
  }

  function ColorBytes(c: Rgba): (bs: seq<byte>)
    ensures |bs| == 4
  {
    [c.r, c.g, c.b, c.a]
  }

  /** The palette entries `0 .. |pal| - 1`, four bytes each. */
  function PalBytes(pal: seq<Rgba>): (bs: seq<byte>)
    ensures |bs| == 4 * |pal|
  {
    if pal == [] then []
    else PalBytes(pal[..|pal| - 1]) + ColorBytes(pal[|pal| - 1])
  }

  /** The layout of `finite_compress`, before compression. `retrieve`'s parse reads back exactly
      the frames and the palette that were written. */
  function Layout(frames: seq<seq<Rect>>, pal: seq<Rgba>): (l: seq<byte>)
    requires Fits(frames, pal)
    ensures Parse(l) == Ok((frames, pal))
  {
    var tail := [|pal| as byte] + PalBytes(pal);
    var raw := [|frames| as byte] + FramesBytes(frames) + tail;
    FramesBytesRead(raw, [|frames|], frames, tail);
    assert raw == ([|frames| as byte] + FramesBytes(frames)) + [|pal| as byte] + PalBytes(pal);
    PalBytesRead([|frames|] + FramesBytes(frames), pal);
    raw
  }

  /** The inverted palette dictionary `{index: colour}` read at `0 .. n - 1`. */
  function PalEntries(pal: map<int, Rgba>, n: nat): (entries: seq<Rgba>)
    requires forall i :: 0 <= i < n ==> i in pal
    ensures |entries| == n && forall i :: 0 <= i < n ==> entries[i] == pal[i]
  {
    seq(n, i requires 0 <= i < n => pal[i])
  }

  /** The tail of `finite_compress`: the frames in order, then the inverted palette dictionary
      `pal` read at `0 .. len(pal) - 1`. A count or a field outside a byte raises first; then a
      palette index missing from the dictionary raises. */
  function Serialized(frames: seq<seq<Rect>>, pal: map<int, Rgba>): (r: Result<seq<byte>>)
    ensures r.Ok? <==> Fits(frames, []) && |pal| < 256 && forall i :: 0 <= i < |pal| ==> i in pal
  {
    if !(|frames| < 256 && FramesFit(frames) && |pal| < 256) then Err(ByteRange)
    else if exists i :: 0 <= i < |pal| && i !in pal then Err(MissingPaletteIndex)
    else Ok(Layout(frames, PalEntries(pal, |pal|)))
  }

  /** The command whose five bytes start at `pos` (`struct.unpack("BBBBB", ...)`). */
  function RectAt(raw: seq<byte>, pos: nat): Rect
    requires pos + 5 <= |raw|
  {
    Rect(raw[pos], raw[pos + 1], raw[pos + 2], raw[pos + 3], raw[pos + 4])
  }

  function ColorAt(raw: seq<byte>, pos: nat): Rgba
    requires pos + 4 <= |raw|
  {
    Rgba(raw[pos], raw[pos + 1], raw[pos + 2], raw[pos + 3])
  }

  /** The first `n` frames of `retrieve`'s parse, read from `start`, with the position after them.
      A count byte past the end or a command cut short raises. */
  function FramesAt(raw: seq<byte>, start: nat, n: nat): (r: Result<(seq<seq<Rect>>, nat)>)
    ensures r.Ok? ==> |r.value.0| == n && start <= r.value.1 <= |raw| + (if n == 0 then start else 0)
  {
    if n == 0 then Ok(([], start))
    else
      match FramesAt(raw, start, n - 1)
      case Err(e) => Err(e)
      case Ok((frames, pos)) =>
        if pos >= |raw| then Err(Truncated)
        else
          var k := raw[pos] as nat;
          if pos + 1 + 5 * k <= |raw| then
            Ok((frames + [seq(k, i requires 0 <= i < k => RectAt(raw, pos + 1 + 5 * i))], pos + 1 + 5 * k))
          else Err(Truncated)
  }

  /** Every frame `retrieve`'s parse reads can be written again: its count byte bounds its
      commands and every field is one byte. */
  lemma {:induction false} FramesAtFit(raw: seq<byte>, start: nat, n: nat)
    ensures FramesAt(raw, start, n).Ok? ==> FramesFit(FramesAt(raw, start, n).value.0)
  {
    if n > 0 && FramesAt(raw, start, n).Ok? {
      FramesAtFit(raw, start, n - 1);
      var (init, mid) := FramesAt(raw, start, n - 1).value;
      var frames := FramesAt(raw, start, n).value.0;
      assert frames[..n - 1] == init;
      assert CmdsFit(frames[n - 1]);
    }
  }

  /** The palette part of `retrieve`'s parse: a count byte, then four bytes per entry; entry `i`
      is the colour of palette index `i`. Bytes after the palette are ignored. */
  function PalAt(raw: seq<byte>, pos: nat): (r: Result<seq<Rgba>>)
  {
    if pos >= |raw| then Err(Truncated)
    else
      var k := raw[pos] as nat;
      if pos + 1 + 4 * k <= |raw| then Ok(seq(k, i requires 0 <= i < k => ColorAt(raw, pos + 1 + 4 * i)))
      else Err(Truncated)
  }

  /** The parse half of `retrieve`: frames, then palette. The first byte is the frame count, and
      whatever it accepts can be written again: every count and field fits a byte. */
  function Parse(raw: seq<byte>): (r: Result<(seq<seq<Rect>>, seq<Rgba>)>)
    ensures r.Ok? ==> |raw| >= 1 && |r.value.0| == raw[0] as nat && Fits(r.value.0, r.value.1)
  {
    if |raw| == 0 then Err(Truncated)
    else
      FramesAtFit(raw, 1, raw[0] as nat);
      match FramesAt(raw, 1, raw[0] as nat)
      case Err(e) => Err(e)
      case Ok((frames, pos)) =>
        match PalAt(raw, pos)
        case Err(e) => Err(e)
        case Ok(pal) => Ok((frames, pal))
  }

  lemma {:induction false} CmdsBytesAt(cmds: seq<Rect>, i: nat)
    requires forall k :: 0 <= k < |cmds| ==> RectFits(cmds[k])
    requires i < |cmds|
    ensures RectAt(CmdsBytes(cmds), 5 * i) == cmds[i]
  {
    var init := cmds[..|cmds| - 1];
    if i < |cmds| - 1 {
      CmdsBytesAt(init, i);
      assert init[i] == cmds[i];
    }
  }

  lemma {:induction false} PalBytesAt(pal: seq<Rgba>, i: nat)
    requires i < |pal|
    ensures ColorAt(PalBytes(pal), 4 * i) == pal[i]
  {
    var init := pal[..|pal| - 1];
    if i < |pal| - 1 {
      PalBytesAt(init, i);
      assert init[i] == pal[i];
    }
  }

  lemma RectAtShift(pre: seq<byte>, mid: seq<byte>, post: seq<byte>, q: nat)
    requires q + 5 <= |mid|
    ensures RectAt(pre + mid + post, |pre| + q) == RectAt(mid, q)
  {
    var raw := pre + mid + post;
    assert raw[|pre| + q] == mid[q];
    assert raw[|pre| + q + 1] == mid[q + 1];
    assert raw[|pre| + q + 2] == mid[q + 2];
    assert raw[|pre| + q + 3] == mid[q + 3];
    assert raw[|pre| + q + 4] == mid[q + 4];
  }

  lemma ColorAtShift(pre: seq<byte>, mid: seq<byte>, q: nat)
    requires q + 4 <= |mid|
    ensures ColorAt(pre + mid, |pre| + q) == ColorAt(mid, q)
  {
    var raw := pre + mid;
    assert raw[|pre| + q] == mid[q];
    assert raw[|pre| + q + 1] == mid[q + 1];
    assert raw[|pre| + q + 2] == mid[q + 2];
    assert raw[|pre| + q + 3] == mid[q + 3];
  }

  /** Reading one frame's bytes back, wherever they sit in the stream. */
  lemma FrameBytesRead(raw: seq<byte>, pre: seq<byte>, cmds: seq<Rect>, post: seq<byte>)
    requires CmdsFit(cmds) && raw == pre + FrameBytes(cmds) + post
    ensures |pre| < |raw| && raw[|pre|] as nat == |cmds| && |pre| + 1 + 5 * |cmds| <= |raw|
    ensures seq(|cmds|, i requires 0 <= i < |cmds| => RectAt(raw, |pre| + 1 + 5 * i)) == cmds
  {
    var pos := |pre|;
    var read := seq(|cmds|, i requires 0 <= i < |cmds| => RectAt(raw, pos + 1 + 5 * i));
    forall i | 0 <= i < |cmds|
      ensures read[i] == cmds[i]
    {
      CmdsBytesAt(cmds, i);
      RectAtShift(pre, FrameBytes(cmds), post, 1 + 5 * i);
      RectAtShift([|cmds|], CmdsBytes(cmds), [], 5 * i);
      assert [|cmds| as byte] + CmdsBytes(cmds) + [] == FrameBytes(cmds);
    }
  }

  lemma FramesFitInit(frames: seq<seq<Rect>>)
    requires FramesFit(frames) && frames != []
    ensures FramesFit(frames[..|frames| - 1])
  {
    var init := frames[..|frames| - 1];
    forall f | 0 <= f < |init| ensures CmdsFit(init[f]) { assert init[f] == frames[f]; }
  }

  /** The stream around the last frame's bytes, seen two ways. */
  lemma FramesBytesSplit(raw: seq<byte>, pre: seq<byte>, frames: seq<seq<Rect>>, post: seq<byte>)
    requires FramesFit(frames) && frames != [] && FramesFit(frames[..|frames| - 1])
    requires raw == pre + FramesBytes(frames) + post
    ensures raw == pre + FramesBytes(frames[..|frames| - 1]) + (FrameBytes(frames[|frames| - 1]) + post)
    ensures raw == (pre + FramesBytes(frames[..|frames| - 1])) + FrameBytes(frames[|frames| - 1]) + post
  {
    var a, b := FramesBytes(frames[..|frames| - 1]), FrameBytes(frames[|frames| - 1]);
    assert FramesBytes(frames) == a + b;
    AppendAssoc(pre, a, b);
    AppendAssoc(pre + a, b, post);
    AppendAssoc(pre, a, b + post);
  }

  lemma AppendAssoc(a: seq<byte>, b: seq<byte>, c: seq<byte>)
    ensures a + b + c == a + (b + c)
  {
  }

  /** `retrieve`'s frame parse reads back the frames `finite_compress` wrote. */
  lemma {:induction false} FramesBytesRead(raw: seq<byte>, pre: seq<byte>, frames: seq<seq<Rect>>, post: seq<byte>)
    requires FramesFit(frames) && raw == pre + FramesBytes(frames) + post
    ensures FramesAt(raw, |pre|, |frames|) == Ok((frames, |pre| + |FramesBytes(frames)|))
  {
    if frames != [] {
      var init, last := frames[..|frames| - 1], frames[|frames| - 1];
      FramesFitInit(frames);
      FramesBytesSplit(raw, pre, frames, post);
      FramesBytesRead(raw, pre, init, FrameBytes(last) + post);
      SplitLast(frames);
      var mid := pre + FramesBytes(init);
      assert |pre| + |FramesBytes(frames)| == |mid| + 1 + 5 * |last| by {
        assert FramesBytes(frames) == FramesBytes(init) + FrameBytes(last);
      }
      FramesBytesReadLast(raw, |pre|, mid, init, last, post, frames);
    }
  }

  /** Once the frames before the last are read back, the last one is too. */
  lemma FramesBytesReadLast(raw: seq<byte>, start: nat, mid: seq<byte>, init: seq<seq<Rect>>, last: seq<Rect>,
                            post: seq<byte>, frames: seq<seq<Rect>>)
    requires CmdsFit(last) && raw == mid + FrameBytes(last) + post
    requires FramesAt(raw, start, |init|) == Ok((init, |mid|)) && frames == init + [last]
    ensures FramesAt(raw, start, |frames|) == Ok((frames, |mid| + 1 + 5 * |last|))
  {
    FrameBytesRead(raw, mid, last, post);
  }

  lemma SplitLast(frames: seq<seq<Rect>>)
    requires frames != []
    ensures frames[..|frames| - 1] + [frames[|frames| - 1]] == frames
  {
  }

  lemma PalEntryRead(front: seq<byte>, pal: seq<Rgba>, i: nat)
    requires i < |pal|
    ensures ColorAt(front + PalBytes(pal), |front| + 4 * i) == pal[i]
  {
    PalBytesAt(pal, i);
    ColorAtShift(front, PalBytes(pal), 4 * i);
  }

  lemma PalEntriesRead(front: seq<byte>, pal: seq<Rgba>)
    requires 1 <= |front| && |front| + 4 * |pal| <= |front + PalBytes(pal)|
    ensures seq(|pal|, i requires 0 <= i < |pal| => ColorAt(front + PalBytes(pal), |front| + 4 * i)) == pal
  {
    var raw := front + PalBytes(pal);
    var read := seq(|pal|, i requires 0 <= i < |pal| => ColorAt(raw, |front| + 4 * i));
    forall i | 0 <= i < |pal|
      ensures read[i] == pal[i]
    {
      PalEntryRead(front, pal, i);
    }
  }

  /** `retrieve`'s palette parse reads back the palette `finite_compress` wrote. */
  lemma PalBytesRead(pre: seq<byte>, pal: seq<Rgba>)
    requires |pal| < 256
    ensures PalAt(pre + [|pal|] + PalBytes(pal), |pre|) == Ok(pal)
  {
    var front := pre + [|pal| as byte];
    PalEntriesRead(front, pal);
    assert front + PalBytes(pal) == pre + [|pal|] + PalBytes(pal);
  }
}
