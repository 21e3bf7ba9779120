/** The byte loops of the storage codec: the tail of `finite_compress`, which writes the frames and
    the palette, and the head of `retrieve`, which reads them back. */
module Serializer {
  import opened Pixels
  import opened Segments
  import opened StorageLayout

  lemma FramesFitSnoc(frames: seq<seq<Rect>>, cmds: seq<Rect>)
    requires FramesFit(frames) && CmdsFit(cmds)
    ensures FramesFit(frames + [cmds])
  {
    forall f | 0 <= f < |frames| + 1 ensures CmdsFit((frames + [cmds])[f]) {
      if f < |frames| {
        assert (frames + [cmds])[f] == frames[f];
      }
    }
  }

  /** One frame of `finite_compress`'s output: its command count, then five bytes per command. */
  method WriteCommands(cmds: seq<Rect>) returns (r: Result<seq<byte>>)
    ensures r == if CmdsFit(cmds) then Ok(FrameBytes(cmds)) else Err(ByteRange)
  {
    if |cmds| >= 256 {
      return Err(ByteRange);
    }
    var out: seq<byte> := [|cmds|];
    for j := 0 to |cmds|
      invariant forall k :: 0 <= k < j ==> RectFits(cmds[k])
      invariant out == [|cmds| as byte] + CmdsBytes(cmds[..j])
    {
      var cmd := cmds[j];
      if !RectFits(cmd) {
        return Err(ByteRange);
      }
      assert cmds[..j + 1][..j] == cmds[..j];
      assert CmdsBytes(cmds[..j + 1]) == CmdsBytes(cmds[..j]) + RectBytes(cmd);
      AppendAssoc([|cmds| as byte], CmdsBytes(cmds[..j]), RectBytes(cmd));
      out := out + RectBytes(cmd);
    }
    assert cmds[..|cmds|] == cmds;
    return Ok(out);
  }

  /** The frames part of `finite_compress`'s output: the frame count, then every frame. */
  method WriteFrames(frames: seq<seq<Rect>>) returns (r: Result<seq<byte>>)
    ensures r == if |frames| < 256 && FramesFit(frames) then Ok([|frames|] + FramesBytes(frames)) else Err(ByteRange)
  {
    if |frames| >= 256 {
      return Err(ByteRange);
    }
    var out: seq<byte> := [|frames|];
    for k := 0 to |frames|
      invariant FramesFit(frames[..k])
      invariant out == [|frames| as byte] + FramesBytes(frames[..k])
    {
      var written := WriteCommands(frames[k]);
      if written.Err? {
        return Err(written.fault);
      }
      assert frames[..k + 1][..k] == frames[..k];
      assert frames[..k + 1] == frames[..k] + [frames[k]];
      FramesFitSnoc(frames[..k], frames[k]);
      assert FramesBytes(frames[..k + 1]) == FramesBytes(frames[..k]) + FrameBytes(frames[k]);
      AppendAssoc([|frames| as byte], FramesBytes(frames[..k]), FrameBytes(frames[k]));
      out := out + written.value;
    }
    assert frames[..|frames|] == frames;
    return Ok(out);
  }

  /** The palette part of `finite_compress`'s output: `len(pal)`, then `pal[i]` for each index. */
  method WritePalette(pal: map<int, Rgba>) returns (r: Result<seq<byte>>)
    ensures r.Err? <==> |pal| >= 256 || exists i :: 0 <= i < |pal| && i !in pal
    ensures r.Err? ==> r.fault == if |pal| >= 256 then ByteRange else MissingPaletteIndex
    ensures r.Ok? ==> r.value == [|pal|] + PalBytes(PalEntries(pal, |pal|))
  {
    if |pal| >= 256 {
      return Err(ByteRange);
    }
    var out: seq<byte> := [|pal|];
    for i := 0 to |pal|
      invariant forall j :: 0 <= j < i ==> j in pal
      invariant out == [|pal| as byte] + PalBytes(PalEntries(pal, i))
    {
      if i !in pal {
        return Err(MissingPaletteIndex);
      }
      assert PalEntries(pal, i + 1)[..i] == PalEntries(pal, i);
      AppendAssoc([|pal| as byte], PalBytes(PalEntries(pal, i)), ColorBytes(pal[i]));
      out := out + ColorBytes(pal[i]);
    }
    return Ok(out);
  }

  /** The tail of `finite_compress`: frames, then the palette. */
  method WriteLayout(frames: seq<seq<Rect>>, pal: map<int, Rgba>) returns (r: Result<seq<byte>>)
    ensures r == Serialized(frames, pal)
  {
    var head := WriteFrames(frames);
    if head.Err? {
      return Err(head.fault);
    }
    var tail := WritePalette(pal);
    if tail.Err? {
      return Err(tail.fault);
    }
    AppendAssoc([|frames| as byte] + FramesBytes(frames), [|pal| as byte], PalBytes(PalEntries(pal, |pal|)));
    return Ok(head.value + tail.value);
  }

  /** Once the parse of the first `m` frames raises, so does the parse of any longer prefix. */
  lemma {:induction false} FramesAtStuck(raw: seq<byte>, start: nat, m: nat, n: nat)
    requires m <= n && FramesAt(raw, start, m).Err?
    ensures FramesAt(raw, start, n) == FramesAt(raw, start, m)
    decreases n
  {
    if m < n {
      FramesAtStuck(raw, start, m, n - 1);
    }
  }

  /** The inner loop of `retrieve`'s parse: `k` commands of five bytes each from `start`; a
      command cut short by the end of the buffer raises. */
  method ReadCommands(raw: seq<byte>, start: nat, k: nat) returns (r: Result<seq<Rect>>)
    requires start <= |raw|
    ensures r == if start + 5 * k <= |raw| then Ok(seq(k, i requires 0 <= i < k => RectAt(raw, start + 5 * i)))
                 else Err(Truncated)
  {
    var cmds: seq<Rect> := [];
    var pos := start;
    for j := 0 to k
      invariant pos == start + 5 * j && pos <= |raw|
      invariant cmds == seq(j, i requires 0 <= i < j => RectAt(raw, start + 5 * i))
    {
      if pos + 5 > |raw| {
        return Err(Truncated);
      }
      cmds := cmds + [RectAt(raw, pos)];
      pos := pos + 5;
    }
    return Ok(cmds);
  }

  /** The palette loop of `retrieve`'s parse: a count byte at `pos`, then four bytes per entry. */
  method ReadPalette(raw: seq<byte>, pos: nat) returns (r: Result<seq<Rgba>>)
    ensures r == PalAt(raw, pos)
  {
    if pos >= |raw| {
      return Err(Truncated);
    }
    var k := raw[pos] as nat;
    var pal: seq<Rgba> := [];
    var at := pos + 1;
    for i := 0 to k
      invariant at == pos + 1 + 4 * i && at <= |raw|
      invariant pal == seq(i, j requires 0 <= j < i => ColorAt(raw, pos + 1 + 4 * j))
    {
      if at + 4 > |raw| {
        return Err(Truncated);
      }
      pal := pal + [ColorAt(raw, at)];
      at := at + 4;
    }
    return Ok(pal);
  }

  /** The parse half of `retrieve`: the frame count, each frame's commands, then the palette. */
  method ParseStored(raw: seq<byte>) returns (r: Result<(seq<seq<Rect>>, seq<Rgba>)>)
    ensures r == Parse(raw)
  {
    if |raw| == 0 {
      return Err(Truncated);
    }
    var count := raw[0] as nat;
    var pos := 1;
    var frames: seq<seq<Rect>> := [];
    for n := 0 to count
      invariant FramesAt(raw, 1, n) == Ok((frames, pos))
    {
      if pos >= |raw| {
        FramesAtStuck(raw, 1, n + 1, count);
        return Err(Truncated);
      }
      var cmds := ReadCommands(raw, pos + 1, raw[pos] as nat);
      if cmds.Err? {
        FramesAtStuck(raw, 1, n + 1, count);
        return Err(Truncated);
      }
      frames := frames + [cmds.value];
      pos := pos + 1 + 5 * |cmds.value|;
    }
    var pal := ReadPalette(raw, pos);
    if pal.Err? {
      return Err(pal.fault);
    }
    return Ok((frames, pal.value));
  }
}
