/** The error paths of `retrieve`: a stored layout cut short raises, and a replay that succeeds
    only ever met commands naming a palette entry and lying inside the frame. */
module StorageFaults {
  import opened Pixels
  import opened Segments
  import opened StorageLayout
  import opened Replay

  lemma RectAtCut(raw: seq<byte>, n: nat, q: nat)
    requires q + 5 <= n <= |raw|
    ensures RectAt(raw[..n], q) == RectAt(raw, q)
  {
  }

  lemma ColorAtCut(raw: seq<byte>, n: nat, q: nat)
    requires q + 4 <= n <= |raw|
    ensures ColorAt(raw[..n], q) == ColorAt(raw, q)
  {
  }

  /** The commands of one frame read from the first `n` bytes are those read from the whole
      buffer, when they lie inside those `n` bytes. */
  lemma CommandsCut(raw: seq<byte>, n: nat, pos: nat, count: nat)
    requires pos + 1 + 5 * count <= n <= |raw|
    ensures seq(count, i requires 0 <= i < count => RectAt(raw[..n], pos + 1 + 5 * i)) ==
            seq(count, i requires 0 <= i < count => RectAt(raw, pos + 1 + 5 * i))
  {
    var mine := seq(count, i requires 0 <= i < count => RectAt(raw[..n], pos + 1 + 5 * i));
    var full := seq(count, i requires 0 <= i < count => RectAt(raw, pos + 1 + 5 * i));
    forall i | 0 <= i < count
      ensures mine[i] == full[i]
    {
      RectAtCut(raw, n, pos + 1 + 5 * i);
    }
  }

  /** One more frame read from the first `n` bytes, when the frames before were read alike. */
  lemma FramesAtPrefixStep(raw: seq<byte>, n: nat, start: nat, k: nat, frames: seq<seq<Rect>>, pos: nat)
    requires n <= |raw| && 1 <= k
    requires FramesAt(raw[..n], start, k - 1) == Ok((frames, pos)) == FramesAt(raw, start, k - 1)
    ensures FramesAt(raw[..n], start, k) == FramesAt(raw, start, k) || FramesAt(raw[..n], start, k) == Err(Truncated)
  {
    if pos < n && pos + 1 + 5 * (raw[pos] as nat) <= n {
      CommandsCut(raw, n, pos, raw[pos] as nat);
    }
  }

  /** Reading frames from the first `n` bytes of a buffer either reads what the whole buffer
      gives or runs off the end of those `n` bytes. */
  lemma {:induction false} FramesAtPrefix(raw: seq<byte>, n: nat, start: nat, k: nat)
    requires n <= |raw|
    ensures FramesAt(raw[..n], start, k) == FramesAt(raw, start, k) || FramesAt(raw[..n], start, k) == Err(Truncated)
  {
    if k > 0 {
      FramesAtPrefix(raw, n, start, k - 1);
      var before := FramesAt(raw[..n], start, k - 1);
      if before.Ok? {
        FramesAtPrefixStep(raw, n, start, k, before.value.0, before.value.1);
      }
    }
  }

  /** Reading the palette from the first `n` bytes of a buffer either reads what the whole buffer
      gives or runs off the end of those `n` bytes. */
  lemma PalAtPrefix(raw: seq<byte>, n: nat, pos: nat)
    requires n <= |raw|
    ensures PalAt(raw[..n], pos) == PalAt(raw, pos) || PalAt(raw[..n], pos) == Err(Truncated)
  {
    var cut := raw[..n];
    if pos < n {
      var count := raw[pos] as nat;
      if pos + 1 + 4 * count <= n {
        var mine := seq(count, i requires 0 <= i < count => ColorAt(cut, pos + 1 + 4 * i));
        var full := seq(count, i requires 0 <= i < count => ColorAt(raw, pos + 1 + 4 * i));
        forall i | 0 <= i < count
          ensures mine[i] == full[i]
        {
          ColorAtCut(raw, n, pos + 1 + 4 * i);
        }
        assert mine == full;
      }
    }
  }

  /** Every proper prefix of a stored layout fails to parse with the truncation error: the last
      palette entry ends exactly at the end of the layout, and every read before it is checked. */
  lemma LayoutPrefixTruncated(frames: seq<seq<Rect>>, pal: seq<Rgba>, n: nat)
    requires Fits(frames, pal) && n < |Layout(frames, pal)|
    ensures Parse(Layout(frames, pal)[..n]) == Err(Truncated)
  {
    var raw := Layout(frames, pal);
    var cut := raw[..n];
    if n > 0 {
      var tail := [|pal| as byte] + PalBytes(pal);
      assert raw == [|frames| as byte] + FramesBytes(frames) + tail;
      FramesBytesRead(raw, [|frames| as byte], frames, tail);
      var pos := 1 + |FramesBytes(frames)|;
      assert cut[0] == raw[0] == |frames|;
      FramesAtPrefix(raw, n, 1, |frames|);
      if FramesAt(cut, 1, |frames|).Ok? {
        PalAtPrefix(raw, n, pos);
        assert raw[pos] == tail[0];
        assert |raw| == pos + 1 + 4 * |pal|;
      }
    }
  }

  /** Painting a frame's commands succeeds exactly when every command names a palette entry and
      lies inside the frame. */
  lemma {:induction false} PaintCmdsOk(prev: map<Cell, Rgba>, cmds: seq<Rect>, pal: seq<Rgba>)
    ensures PaintCmds(prev, cmds, pal).Ok? <==>
      forall j :: 0 <= j < |cmds| ==> cmds[j].p < |pal| && !Overflows(cmds[j])
  {
    if cmds != [] {
      var init := cmds[..|cmds| - 1];
      PaintCmdsOk(prev, init, pal);
      assert forall j :: 0 <= j < |init| ==> init[j] == cmds[j];
    }
  }

  /** A command every frame of the replay accepts: it names a palette entry and lies inside the
      frame. */
  predicate Accepted(r: Rect, pal: seq<Rgba>)
  {
    r.p < |pal| && !Overflows(r)
  }

  /** A replay of the first `k` frames that succeeds met only accepted commands. */
  lemma {:induction false} ReplayAccepted(frames: seq<seq<Rect>>, pal: seq<Rgba>, width: nat, height: nat, k: nat)
    requires k <= |frames| && ReplayPrefix(frames, pal, width, height, k).Ok?
    ensures forall f, j :: 0 <= f < k && 0 <= j < |frames[f]| ==> Accepted(frames[f][j], pal)
  {
    if k > 0 {
      ReplayAccepted(frames, pal, width, height, k - 1);
      var prev := ReplayPrefix(frames, pal, width, height, k - 1).value.0;
      PaintCmdsOk(prev, frames[k - 1], pal);
    }
  }

  /** What a successful `retrieve` says about its input: the bytes parse, and every command of
      every frame names a palette entry and lies inside the frame. */
  lemma DecodeOk(raw: seq<byte>, width: nat, height: nat)
    requires Decode(raw, width, height).Ok?
    ensures Parse(raw).Ok?
    ensures var (frames, pal) := Parse(raw).value;
      forall f, j :: 0 <= f < |frames| && 0 <= j < |frames[f]| ==> Accepted(frames[f][j], pal)
  {
    var (frames, pal) := Parse(raw).value;
    ReplayAccepted(frames, pal, width, height, |frames|);
  }
}
