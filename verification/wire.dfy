/** The wire codec of the skin endpoints: a width byte, a height byte and `(r, g, b, a, count)`
    run-length records, compressed, followed by a two-byte trailer holding the uncompressed length.
    The encoder is the loop of `get_skin`, the decoder the loop of `set_skin`. */
module WireCodec {
  import opened Pixels

  /** A run is flushed once its count has reached this value. */
  const MaxCount := 254

  /** One `(r, g, b, a, count)` record. */
  datatype Run = Run(color: Rgba, count: byte)

  /** The encoder's loop state: the records emitted so far, `prev_color` and `count_stack`. */
  datatype Scan = Scan(runs: seq<Run>, prev: Rgba, count: byte)

  /** Before the first pixel: a transparent sentinel colour that already counts once. */
  const Initial := Scan([], Clear, 1)

  /** One iteration of the encoder's loop over the pixel `p`. */
  function Step(s: Scan, p: Rgba): (t: Scan)
    requires s.count <= MaxCount
    ensures t.prev == p
    ensures t.runs == s.runs || t.runs == s.runs + [Run(s.prev, s.count)]
    ensures t.runs == s.runs <==> s.prev == p && s.count < MaxCount
  {
    if s.prev == p && s.count < MaxCount then Scan(s.runs, p, s.count + 1)
    else Scan(s.runs + [Run(s.prev, s.count)], p, 1)
  }

  /** Every record holds between 1 and 254 pixels. */
  ghost predicate CountsInRange(runs: seq<Run>)
  {
    forall i :: 0 <= i < |runs| ==> 1 <= runs[i].count <= MaxCount
  }

  /** A record was flushed only because the next pixel had another colour or the count had reached
      254: each record differs in colour from the one after it, or is full; `prev` is the colour of
      the pending run that follows the last record. */
  ghost predicate FlushedOnlyWhenDue(runs: seq<Run>, prev: Rgba)
  {
    (forall i :: 0 <= i < |runs| - 1 ==> runs[i].color != runs[i + 1].color || runs[i].count == MaxCount) &&
    (|runs| > 0 ==> runs[|runs| - 1].color != prev || runs[|runs| - 1].count == MaxCount)
  }

  /** Sum of the counts of a record sequence. */
  function Total(runs: seq<Run>): nat
  {
    if runs == [] then 0 else Total(runs[..|runs| - 1]) + runs[|runs| - 1].count
  }

  /** The encoder's state after its loop has seen the first `n` pixels. */
  function Scanned(pixels: seq<Rgba>, n: nat): (s: Scan)
    requires n <= |pixels|
    ensures CountsInRange(s.runs) && 1 <= s.count <= MaxCount
    ensures FlushedOnlyWhenDue(s.runs, s.prev)
    ensures Total(s.runs) + s.count == n + 1
    ensures n > 0 ==> s.prev == pixels[n - 1]
  {
    if n == 0 then Initial
    else
      var s := Scanned(pixels, n - 1);
      var t := Step(s, pixels[n - 1]);
      assert t.runs != s.runs ==> Total(t.runs) == Total(s.runs) + s.count by {
        if t.runs != s.runs { assert t.runs[..|t.runs| - 1] == s.runs; }
      }
      t
  }

  /** The pixels a record sequence stands for: each colour repeated `count` times, in order. */
  function Expand(runs: seq<Run>): seq<Rgba>
  {
    if runs == [] then [] else Expand(runs[..|runs| - 1]) + Repeat(runs[|runs| - 1].color, runs[|runs| - 1].count)
  }

  lemma {:induction false} ExpandAppend(runs: seq<Run>, r: Run)
    ensures Expand(runs + [r]) == Expand(runs) + Repeat(r.color, r.count)
  {
    assert (runs + [r])[..|runs|] == runs;
  }

  lemma {:induction false} ExpandLength(runs: seq<Run>)
    ensures |Expand(runs)| == Total(runs)
    decreases |runs|
  {
    if runs != [] { ExpandLength(runs[..|runs| - 1]); }
  }

  /** One step of the loop keeps the spelling: the pixel joins the pending run or starts a new one. */
  lemma {:induction false} StepSpells(s: Scan, p: Rgba, seen: seq<Rgba>)
    requires s.count <= MaxCount
    requires Expand(s.runs) + Repeat(s.prev, s.count) == seen
    ensures var t := Step(s, p); Expand(t.runs) + Repeat(t.prev, t.count) == seen + [p]
  {
    if s.prev == p && s.count < MaxCount {
      assert Repeat(p, s.count + 1) == Repeat(p, s.count) + [p];
    } else {
      ExpandAppend(s.runs, Run(s.prev, s.count));
      assert Repeat(p, 1) == [p];
    }
  }

  /** The central invariant of the encoder: the flushed records followed by the pending run spell out
      the transparent sentinel followed by every pixel seen so far. */
  lemma {:induction false} ScanSpells(pixels: seq<Rgba>, n: nat)
    requires n <= |pixels|
    ensures var s := Scanned(pixels, n); Expand(s.runs) + Repeat(s.prev, s.count) == [Clear] + pixels[..n]
  {
    if n == 0 {
      assert Repeat(Clear, 1) == [Clear];
    } else {
      assert [Clear] + pixels[..n - 1] + [pixels[n - 1]] == [Clear] + pixels[..n];
      ScanSpells(pixels, n - 1);
      StepSpells(Scanned(pixels, n - 1), pixels[n - 1], [Clear] + pixels[..n - 1]);
    }
  }

  /** The five bytes of one record. */
  function RunBytes(r: Run): seq<byte>
  {
    [r.color.r, r.color.g, r.color.b, r.color.a, r.count]
  }

  /** The record part of the wire body. */
  function RecordBytes(runs: seq<Run>): (bs: seq<byte>)
    ensures |bs| == 5 * |runs|
  {
    if runs == [] then [] else RecordBytes(runs[..|runs| - 1]) + RunBytes(runs[|runs| - 1])
  }

  lemma {:induction false} RecordBytesAppend(runs: seq<Run>, r: Run)
    ensures RecordBytes(runs + [r]) == RecordBytes(runs) + RunBytes(r)
  {
    assert (runs + [r])[..|runs|] == runs;
  }

  /** The uncompressed body `get_skin` builds: width, height, then the flushed records. The pending
      run left when the loop ends is not part of it. */
  function Body(width: byte, height: byte, pixels: seq<Rgba>): (b: seq<byte>)
    ensures |b| >= 2 && b[0] == width && b[1] == height
    ensures Records(b[2..]) == Scanned(pixels, |pixels|).runs
  {
    var runs := Scanned(pixels, |pixels|).runs;
    RecordsOfRecordBytes(runs);
    assert ([width, height] + RecordBytes(runs))[2..] == RecordBytes(runs);
    [width, height] + RecordBytes(runs)
  }

  /** The run-length loop of `get_skin`. The width and height are appended as single bytes, which
      fails for a value above 255. */
  method EncodeBody(width: nat, height: nat, pixels: seq<Rgba>) returns (r: Result<seq<byte>>)
    ensures width < 256 && height < 256 ==> r == Ok(Body(width, height, pixels))
    ensures width >= 256 || height >= 256 ==> r == Err(ByteRange)
  {
    if width >= 256 || height >= 256 {
      return Err(ByteRange);
    }
    var out: seq<byte> := [width, height];
    var count: byte := 1;
    var prev := Clear;
    ghost var s := Initial;
    for i := 0 to |pixels|
      invariant s == Scanned(pixels, i)
      invariant s.prev == prev && s.count == count
      invariant out == [width, height] + RecordBytes(s.runs)
    {
      var current := pixels[i];
      if prev == current && count < MaxCount {
        count := count + 1;
      } else {
        var record := RunBytes(Run(prev, count));
        RecordBytesAppend(s.runs, Run(prev, count));
        assert [width, height] + RecordBytes(s.runs) + record == [width, height] + (RecordBytes(s.runs) + record);
        out := out + record;
        count := 1;
      }
      prev := current;
      s := Step(s, current);
    }
    return Ok(out);
  }

  /** `struct.pack("H", n)` in the byte order of the usual hosts: low byte first. */
  function PackU16(n: nat): (b: seq<byte>)
    requires n < 0x1_0000
    ensures |b| == 2 && b[0] as nat + 256 * b[1] as nat == n
  {
    [n % 256, n / 256]
  }

  /** `get_skin` from the records on: the body is compressed by `compress` and the body's own length
      is appended as two bytes; packing that length fails above 65535. */
  method EncodeSkin(width: nat, height: nat, pixels: seq<Rgba>, compress: seq<byte> -> seq<byte>)
    returns (r: Result<seq<byte>>)
    ensures width >= 256 || height >= 256 ==> r == Err(ByteRange)
    ensures width < 256 && height < 256 ==>
      var body := Body(width, height, pixels);
      r == if |body| < 0x1_0000 then Ok(compress(body) + PackU16(|body|)) else Err(TrailerRange)
  {
    var body := EncodeBody(width, height, pixels);
    if body.Err? {
      return body;
    }
    var length := |body.value|;
    if length >= 0x1_0000 {
      return Err(TrailerRange);
    }
    return Ok(compress(body.value) + PackU16(length));
  }

  /** The `floor(len / 5)` whole records of a byte string; a trailing partial record is ignored. */
  function Records(bs: seq<byte>): (runs: seq<Run>)
    ensures |runs| == |bs| / 5
    ensures forall i :: 0 <= i < |runs| ==> RunBytes(runs[i]) == bs[5 * i..5 * i + 5]
  {
    seq(|bs| / 5, i requires 0 <= i < |bs| / 5 =>
      Run(Rgba(bs[5 * i], bs[5 * i + 1], bs[5 * i + 2], bs[5 * i + 3]), bs[5 * i + 4]))
  }

  lemma RecordAt(bs: seq<byte>, i: nat)
    requires i < |bs| / 5
    ensures 5 * i + 5 <= |bs|
    ensures Records(bs)[i] == Run(Rgba(bs[5 * i], bs[5 * i + 1], bs[5 * i + 2], bs[5 * i + 3]), bs[5 * i + 4])
  {
  }

  /** Whether writing the pixel sequence `e` at indices -1, 0, 1, ... stays inside a list of length `n`,
      index -1 meaning the last element as in Python. */
  predicate WithinList(e: seq<Rgba>, n: nat)
  {
    if n == 0 then e == [] else |e| <= n + 1
  }

  /** The list of `n` pixels after the writes of `e` at indices -1, 0, 1, ... over a transparent list:
      the first element lands on the last pixel, element `k` on pixel `k - 1`. */
  function Place(e: seq<Rgba>, n: nat): (image: seq<Rgba>)
    ensures |image| == n
  {
    seq(n, i requires 0 <= i < n => if i + 1 < |e| then e[i + 1] else if i == n - 1 && e != [] then e[0] else Clear)
  }

  /** Writing one more pixel at counter `|e| - 1`: it stays inside the list exactly when Python's
      index, negative indices counting from the end, is valid, and it then updates that one pixel. */
  lemma {:induction false} PlaceOneMore(e: seq<Rgba>, c: Rgba, n: nat)
    requires WithinList(e, n)
    ensures var counter := |e| - 1;
      var index := if counter < 0 then n + counter else counter;
      (WithinList(e + [c], n) <==> 0 <= index < n) &&
      (WithinList(e + [c], n) ==> Place(e + [c], n) == Place(e, n)[index := c])
  {
    var index := if e == [] then n - 1 else |e| - 1;
    if WithinList(e + [c], n) {
      forall i | 0 <= i < n ensures Place(e + [c], n)[i] == Place(e, n)[index := c][i] {
      }
    }
  }

  /** What the decoder of `set_skin` makes of the decompressed body: two header bytes taken as
      width and height, a list of width * height transparent pixels, and the records' pixels written
      from index -1 on. A missing header byte or a write outside the list is a failure. */
  function DecodeBody(body: seq<byte>): (r: Result<(byte, byte, seq<Rgba>)>)
    ensures r == Err(EmptyHeader) <==> |body| < 2
    ensures r.Ok? ==> (r.value.0 == body[0] && r.value.1 == body[1] &&
                       |r.value.2| == body[0] as nat * body[1] as nat)
  {
    if |body| < 2 then Err(EmptyHeader)
    else
      var e := Expand(Records(body[2..]));
      var n := body[0] as nat * body[1] as nat;
      if WithinList(e, n) then Ok((body[0], body[1], Place(e, n))) else Err(ListIndexOutOfRange)
  }

  lemma {:induction false} ExpandPrefix(runs: seq<Run>, i: nat)
    requires i < |runs|
    ensures Expand(runs[..i + 1]) == Expand(runs[..i]) + Repeat(runs[i].color, runs[i].count)
  {
    assert runs[..i + 1][..i] == runs[..i];
  }

  lemma {:induction false} ExpandMonotone(runs: seq<Run>, i: nat)
    requires i <= |runs|
    ensures |Expand(runs[..i])| <= |Expand(runs)|
    decreases |runs| - i
  {
    if i < |runs| {
      ExpandPrefix(runs, i);
      ExpandMonotone(runs, i + 1);
    } else {
      assert runs[..i] == runs;
    }
  }

  /** Once a write has left the list, the whole record sequence does not fit either. */
  lemma {:induction false} OverflowStays(runs: seq<Run>, i: nat, j: nat, n: nat)
    requires i < |runs| && j <= runs[i].count
    requires !WithinList(Expand(runs[..i]) + Repeat(runs[i].color, j), n)
    ensures !WithinList(Expand(runs), n)
  {
    ExpandPrefix(runs, i);
    ExpandMonotone(runs, i + 1);
    var e := Expand(runs);
    var prefix := Expand(runs[..i]) + Repeat(runs[i].color, j);
    assert prefix == Expand(runs[..i + 1])[..|prefix|];
    assert |e| >= |prefix|;
  }

  /** Once a write has left the list, decoding the whole body fails. */
  lemma OverflowIsFinal(body: seq<byte>, i: nat, j: nat, n: nat)
    requires |body| >= 2 && n == body[0] as nat * body[1] as nat
    requires i < |Records(body[2..])| && j <= Records(body[2..])[i].count
    requires !WithinList(Expand(Records(body[2..])[..i]) + Repeat(Records(body[2..])[i].color, j), n)
    ensures DecodeBody(body) == Err(ListIndexOutOfRange)
  {
    OverflowStays(Records(body[2..]), i, j, n);
  }

  /** The inner loop of the decoder of `set_skin`: the colour of one record written `count` times,
      the counter advancing before each write. It stops at the first write outside the list. */
  method WriteRun(image: seq<Rgba>, counter: int, color: Rgba, count: byte, ghost done: seq<Rgba>)
    returns (ok: bool, image': seq<Rgba>, counter': int)
    requires counter == |done| - 2 && WithinList(done, |image|) && image == Place(done, |image|)
    ensures ok <==> WithinList(done + Repeat(color, count), |image|)
    ensures ok ==> counter' == counter + count && image' == Place(done + Repeat(color, count), |image|)
  {
    var n := |image|;
    image', counter' := image, counter;
    ghost var written := done;
    for j := 0 to count
      invariant written == done + Repeat(color, j)
      invariant counter' == |written| - 2
      invariant WithinList(written, n) && image' == Place(written, n)
    {
      counter' := counter' + 1;
      var index := if counter' < 0 then n + counter' else counter';
      PlaceOneMore(written, color, n);
      assert done + Repeat(color, j + 1) == written + [color];
      if index < 0 || index >= n {
        assert done + Repeat(color, count) == written + [color] + Repeat(color, count - j - 1);
        return false, image', counter';
      }
      image' := image'[index := color];
      written := written + [color];
    }
    return true, image', counter';
  }

  /** One pass of the decoder's outer loop: record `i` read from its five bytes and written out. */
  method WriteRecord(bytes: seq<byte>, i: nat, image: seq<Rgba>, counter: int)
    returns (ok: bool, image': seq<Rgba>, counter': int)
    requires i < |bytes| / 5
    requires counter == |Expand(Records(bytes)[..i])| - 2
    requires WithinList(Expand(Records(bytes)[..i]), |image|) && image == Place(Expand(Records(bytes)[..i]), |image|)
    ensures ok ==> counter' == |Expand(Records(bytes)[..i + 1])| - 2
    ensures ok ==> WithinList(Expand(Records(bytes)[..i + 1]), |image|)
    ensures ok ==> image' == Place(Expand(Records(bytes)[..i + 1]), |image|)
    ensures !ok ==> !WithinList(Expand(Records(bytes)[..i]) + Repeat(Records(bytes)[i].color, Records(bytes)[i].count), |image|)
  {
    var k := 5 * i;
    RecordAt(bytes, i);
    ExpandPrefix(Records(bytes), i);
    var color := Rgba(bytes[k], bytes[k + 1], bytes[k + 2], bytes[k + 3]);
    ok, image', counter' := WriteRun(image, counter, color, bytes[k + 4], Expand(Records(bytes)[..i]));
  }

  /** The decoding loop of `set_skin`: two `pop(0)`s for the dimensions, then each whole record's
      colour written `count` times while a counter that starts at -2 advances before every write. */
  method DecodeSkinBody(body: seq<byte>) returns (r: Result<(byte, byte, seq<Rgba>)>)
    ensures r == DecodeBody(body)
  {
    var bytes := body;
    if |bytes| == 0 {
      return Err(EmptyHeader);
    }
    var width := bytes[0];
    bytes := bytes[1..];
    if |bytes| == 0 {
      return Err(EmptyHeader);
    }
    var height := bytes[0];
    bytes := bytes[1..];
    assert bytes == body[2..];
    var n := width as nat * height as nat;
    var ok, image := PlaceRecords(bytes, n);
    if !ok {
      return Err(ListIndexOutOfRange);
    }
    return Ok((width, height, image));
  }

  /** The outer loop of the decoder of `set_skin` over a list of `n` pixels: every whole record's
      colour written `count` times while a counter that starts at -2 advances before every write.
      It stops at the first write outside the list. */
  method PlaceRecords(bytes: seq<byte>, n: nat) returns (ok: bool, image: seq<Rgba>)
    ensures ok <==> WithinList(Expand(Records(bytes)), n)
    ensures ok ==> image == Place(Expand(Records(bytes)), n)
  {
    var counter: int := -2;
    image := Repeat(Clear, n);
    ghost var runs := Records(bytes);
    assert image == Place([], n);
    for i := 0 to |bytes| / 5
      invariant counter == |Expand(runs[..i])| - 2
      invariant WithinList(Expand(runs[..i]), n) && image == Place(Expand(runs[..i]), n)
    {
      ok, image, counter := WriteRecord(bytes, i, image, counter);
      if !ok {
        OverflowStays(runs, i, runs[i].count, n);
        return false, image;
      }
    }
    assert runs[..|bytes| / 5] == runs;
    return true, image;
  }

  /** The record layout reads back as the records that were written. */
  lemma {:induction false} RecordsOfRecordBytes(runs: seq<Run>)
    ensures Records(RecordBytes(runs)) == runs
    decreases |runs|
  {
    if runs != [] {
      var init, last := runs[..|runs| - 1], runs[|runs| - 1];
      RecordsOfRecordBytes(init);
      var bs := RecordBytes(runs);
      assert bs == RecordBytes(init) + RunBytes(last);
      forall i | 0 <= i < |runs| ensures Records(bs)[i] == runs[i] {
        if i < |init| {
          assert bs[5 * i..5 * i + 5] == RecordBytes(init)[5 * i..5 * i + 5];
          assert RunBytes(Records(RecordBytes(init))[i]) == RecordBytes(init)[5 * i..5 * i + 5];
        } else {
          assert bs[5 * i..5 * i + 5] == RunBytes(last);
        }
      }
    }
  }

  /** What the server's own decoder makes of the encoder's records for an image of `n` pixels whose
      final pending run is `pending` pixels long: pixel `i` is kept for every `i` below
      `n - pending`, and every later pixel comes out transparent. */
  function KeptPrefix(pixels: seq<Rgba>, pending: nat): (image: seq<Rgba>)
    ensures |image| == |pixels|
  {
    seq(|pixels|, i requires 0 <= i < |pixels| => if i < |pixels| - pending then pixels[i] else Clear)
  }

  /** Writing the sentinel followed by all but the last `pending` pixels from index -1 on keeps
      those pixels in place and leaves the rest transparent. */
  lemma {:induction false} PlaceSpelled(e: seq<Rgba>, last: Rgba, pending: nat, pixels: seq<Rgba>)
    requires pending >= 1
    requires e + Repeat(last, pending) == [Clear] + pixels
    ensures WithinList(e, |pixels|) && Place(e, |pixels|) == KeptPrefix(pixels, pending)
  {
    var n := |pixels|;
    assert |e| == n + 1 - pending;
    forall i | 0 <= i < |e| ensures e[i] == ([Clear] + pixels)[i] {
      assert e[i] == (e + Repeat(last, pending))[i];
    }
    forall i | 0 <= i < n ensures Place(e, n)[i] == KeptPrefix(pixels, pending)[i] {
      if i + 1 < |e| {
        assert e[i + 1] == ([Clear] + pixels)[i + 1] == pixels[i];
      }
    }
  }

  /** Taken literally, encoding and then decoding with the server's own decoder loses the final run:
      the transparent sentinel lands on the last pixel, every flushed pixel lands on its own index,
      and the pixels of the run still pending when the encoder's loop ended stay transparent. */
  lemma {:induction false} DecodeOfEncoded(width: byte, height: byte, pixels: seq<Rgba>)
    requires |pixels| == width as nat * height as nat
    ensures DecodeBody(Body(width, height, pixels)) ==
      Ok((width, height, KeptPrefix(pixels, Scanned(pixels, |pixels|).count)))
  {
    var n := |pixels|;
    var s := Scanned(pixels, n);
    var body := Body(width, height, pixels);
    ScanSpells(pixels, n);
    assert pixels[..n] == pixels;
    PlaceSpelled(Expand(s.runs), s.prev, s.count, pixels);
  }

  /** Python's `compressed[:-2]`: everything but the last two bytes, nothing when there are fewer. */
  function StripTrailer(blob: seq<byte>): (rest: seq<byte>)
    ensures |blob| >= 2 ==> blob == rest + blob[|blob| - 2..]
    ensures |blob| < 2 ==> rest == []
  {
    if |blob| >= 2 then blob[..|blob| - 2] else []
  }

  /** `set_skin` up to the pixel list: the trailer is dropped unread, the rest decompressed with
      `decompress`, and the body decoded; any failure becomes an error. */
  method DecodeSkin(blob: seq<byte>, decompress: seq<byte> -> Option<seq<byte>>)
    returns (r: Result<(byte, byte, seq<Rgba>)>)
    ensures decompress(StripTrailer(blob)).None? ==> r == Err(DecompressFailed)
    ensures decompress(StripTrailer(blob)).Some? ==> r == DecodeBody(decompress(StripTrailer(blob)).value)
  {
    var body := decompress(StripTrailer(blob));
    if body.None? {
      return Err(DecompressFailed);
    }
    r := DecodeSkinBody(body.value);
  }

  /** The wire round trip through the compressor: whatever the compressor does, as long as the
      decompressor inverts it, the blob `get_skin` sends decodes in `set_skin` to the kept prefix. */
  lemma {:induction false} WireRoundTrip(width: byte, height: byte, pixels: seq<Rgba>,
                                         compress: seq<byte> -> seq<byte>, decompress: seq<byte> -> Option<seq<byte>>)
    requires |pixels| == width as nat * height as nat
    requires forall x :: decompress(compress(x)) == Some(x)
    requires |Body(width, height, pixels)| < 0x1_0000
    ensures var body := Body(width, height, pixels);
      var blob := compress(body) + PackU16(|body|);
      decompress(StripTrailer(blob)) == Some(body) &&
      DecodeBody(body) == Ok((width, height, KeptPrefix(pixels, Scanned(pixels, |pixels|).count)))
  {
    var body := Body(width, height, pixels);
    var blob := compress(body) + PackU16(|body|);
    assert StripTrailer(blob) == compress(body);
    DecodeOfEncoded(width, height, pixels);
  }

  /** A run of one colour other than transparent: the sentinel record, then full records of 254,
      with the remainder pending. */
  lemma {:induction false} UniformScan(c: Rgba, m: nat, n: nat)
    requires c != Clear && 1 <= n <= m
    ensures Scanned(Repeat(c, m), n) == Scan([Run(Clear, 1)] + Repeat(Run(c, MaxCount), (n - 1) / 254), c, (n - 1) % 254 + 1)
  {
    var pixels := Repeat(c, m);
    if n > 1 {
      UniformScan(c, m, n - 1);
      var full := (n - 2) / 254;
      if (n - 2) % 254 + 1 == MaxCount {
        assert (n - 1) / 254 == full + 1;
        assert Repeat(Run(c, MaxCount), full + 1) == Repeat(Run(c, MaxCount), full) + [Run(c, MaxCount)];
      } else {
        assert (n - 1) / 254 == full;
      }
    }
  }

  /** 300 identical pixels of a non-transparent colour: one sentinel record and one record of 254
      are emitted, and the remaining 46 pixels are still pending when the loop ends, so they are not
      in the body. */
  lemma ThreeHundredIdentical(c: Rgba)
    requires c != Clear
    ensures var s := Scanned(Repeat(c, 300), 300);
      s.runs == [Run(Clear, 1), Run(c, 254)] && s.count == 46
  {
    UniformScan(c, 300, 300);
    assert Repeat(Run(c, MaxCount), 1) == [Run(c, 254)];
  }

  /** Transparent pixels extend the sentinel's run: once the sentinel and the pixels seen make
      `254 * full + rest` transparent pixels, `full` records of 254 have been flushed and `rest`
      are pending. */
  lemma {:induction false} ClearScan(m: nat, n: nat, full: nat, rest: nat)
    requires 1 <= rest <= MaxCount && n == 254 * full + rest - 1 && n <= m
    ensures Scanned(Repeat(Clear, m), n) == Scan(Repeat(Run(Clear, MaxCount), full), Clear, rest as byte)
    decreases n, 1
  {
    if rest > 1 {
      ClearPending(m, n, full, rest);
    } else if full > 0 {
      ClearFlush(m, n, full);
    } else {
      assert Repeat(Run(Clear, MaxCount), 0) == [];
    }
  }

  /** One more transparent pixel joins a transparent pending run that is not yet full. */
  lemma {:induction false} ClearPending(m: nat, n: nat, full: nat, rest: nat)
    requires 1 < rest <= MaxCount && n == 254 * full + rest - 1 && n <= m
    ensures Scanned(Repeat(Clear, m), n) == Scan(Repeat(Run(Clear, MaxCount), full), Clear, rest as byte)
    decreases n, 0
  {
    ClearScan(m, n - 1, full, rest - 1);
    assert Repeat(Clear, m)[n - 1] == Clear;
  }

  /** One more transparent pixel after a full transparent run flushes it as a record of 254. */
  lemma {:induction false} ClearFlush(m: nat, n: nat, full: nat)
    requires 1 <= full && n == 254 * full && n <= m
    ensures Scanned(Repeat(Clear, m), n) == Scan(Repeat(Run(Clear, MaxCount), full), Clear, 1)
    decreases n, 0
  {
    ClearScan(m, n - 1, full - 1, MaxCount);
    assert Repeat(Clear, m)[n - 1] == Clear;
    assert Repeat(Run(Clear, MaxCount), full) == Repeat(Run(Clear, MaxCount), full - 1) + [Run(Clear, MaxCount)];
  }

  /** 300 transparent pixels: the sentinel's run fills one record of 254 transparent pixels, and
      the remaining 47 are still pending when the loop ends, so they are not in the body. */
  lemma ThreeHundredClear()
    ensures var s := Scanned(Repeat(Clear, 300), 300);
      s.runs == [Run(Clear, 254)] && s.count == 47
  {
    ClearScan(300, 300, 1, 47);
    assert Repeat(Run(Clear, MaxCount), 1) == [Run(Clear, 254)];
  }

  /** A fully transparent 2 x 2 image: no record is emitted at all, the body is just the two
      dimension bytes, and the server's decoder still yields four transparent pixels. */
  lemma TransparentTwoByTwo()
    ensures Body(2, 2, Repeat(Clear, 4)) == [2, 2]
    ensures DecodeBody([2, 2]) == Ok((2, 2, Repeat(Clear, 4)))
  {
    ClearScan(4, 4, 0, 5);
    assert Repeat(Run(Clear, MaxCount), 0) == [];
    assert Records([]) == [];
    assert Place([], 4) == Repeat(Clear, 4);
  }
}
