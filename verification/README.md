# ibserver skin codecs in Dafny

ibserver stores and serves pixel-art skins for a game client. A skin is a sprite sheet of RGBA
pixels. The server converts it between three forms:

- **Storage codec** (`util_converter.py`). The sheet is cut into frames 16 pixels wide and 27
  pixels high. For each frame, the cells whose colour differs from what the frame before showed
  form a diff set. `segment` covers each diff set with single-colour rectangles. Each rectangle
  names its colour by an index into a palette that grows in first-seen order. The frames and the
  palette are written as unsigned bytes and compressed. `retrieve` parses that layout. It paints
  each frame's rectangles over the cells remembered from the frames before, pastes each frame into
  a transparent sheet, and puts a grey marker pixel after the last frame.
- **Wire codec** (`ibserver.py`, inside `get_skin` and `set_skin`). The pixels of the whole sheet
  are run-length encoded as `(r, g, b, a, count)` records behind a width byte and a height byte.
  The result is compressed and followed by a 2-byte trailer. The decoder expands the records into
  a transparent pixel list.

The module globals of `util_converter` (`data`, `dims`, `palette`, `palette_max`) become the
fields of the class `UtilConverter.Converter`. The palette is never reset, exactly as in the
code, so palette indices carry over from one encode to the next. A ghost field `order` lists the
palette's colours by index. The class invariant `Valid` says that `palette` numbers `order`.

The main results:

- `StorageProofs.StorageRoundTrip` proves the storage round trip. Take the layout written from
  segmentations of every complete frame's diff set. Replaying it gives back the sheet's pixels
  inside the complete frames, the marker pixel when it fits, and transparent everywhere else.
- `UtilConverter.Converter.FiniteCompress` proves that the encoder produces exactly such
  segmentations: greedy, in scan order, and by `StorageProofs.SegmentedUnique` the only ones
  with these properties.
- `UtilConverter.Converter.Retrieve` proves that the decoder computes exactly that replay.
- `UtilConverter.Converter.StoreThenLoad` chains the two through a compressor that the
  decompressor undoes. Unless storing fails, the sheet read back is that restored sheet.
- `WireCodec.DecodeOfEncoded` proves the wire result of the code taken literally. The server's
  own decoder, applied to the encoder's records, returns every pixel before the final run. The
  final run is never flushed, so those cells stay transparent.

Files:

- `pixels.dfy`: bytes, RGBA values, faults.
- `colors.dfy`: `Color`.
- `frames.dfy`: frame tiling and diff sets.
- `segments.dfy`: rectangles and the grow loops.
- `converter.dfy`: the class.
- `layout.dfy`: byte layout and parse functions.
- `serializer.dfy`: the byte loops.
- `replay.dfy`: replay functions.
- `painting.dfy`: replay loops.
- `storage_proofs.dfy`: the round trip.
- `faults.dfy`: what truncated or rejected input does.
- `wire.dfy`: the wire codec.

## Model

| member | source | states |
|---|---|---|
| Colors.MakeColor | util_converter.py:11-15 | The colour keeps the given components, pads missing ones with 255, keeps only the first four, and carries the void flag. |
| Colors.ToTuple | util_converter.py:17-18 | The tuple's four channels, together with the void flag, give back the colour. |
| Colors.All | util_converter.py:19-24 | `all` holds exactly when the two colours are equal, void flag included; a void and a drawn colour never match. |
| FrameDiff.SheetPixel | util_converter.py:35-36 | `_getpixel` reads cell `y * width + x` of the data when that index is inside it, transparent otherwise. |
| FrameDiff.Diff | util_converter.py:98-108 | A frame cell is in frame `f`'s diff set exactly when its colour differs from the colour the previous frame showed there (transparent before the first frame), and it maps to its new colour. |
| FrameDiff.NextColumn | util_converter.py:98-108 | The carried map and diff buffer after all 27 rows of column `lx` are the state at the start of column `lx + 1`. |
| FrameDiff.CollectedDiff | util_converter.py:104-111 | After the last column of a frame, the diff buffer handed to `segment` is exactly that frame's diff set. |
| Segments.DiffPixel | util_converter.py:87-88 | `_getpixel_dummy` returns the diff colour of a cell in the diff set and void otherwise, so only diff cells are drawable. |
| Segments.Learn | util_converter.py:77-84 | Colours are appended in first-seen order; known colours keep their index; every seen colour ends up present; entries stay distinct. |
| Segments.LearnSnoc | util_converter.py:77-80 | Meeting one more colour appends it exactly when it is new. |
| Segments.LearnConcat | util_converter.py:77-84 | Meeting one list of colours and then another leaves the same palette order as meeting the two lists joined, so a palette carried from frame to frame has learned all their colours in order. |
| Segments.GrowWidth | util_converter.py:53-59 | The width loop gives `1 <= w`, `x + w <= width`, unvisited same-coloured cells in row `y`, and a width that cannot grow further. |
| Segments.GrowHeight | util_converter.py:61-71 | The height loop gives `1 <= h`, `y + h <= height`, every added row fully unvisited and same-coloured, and a height that cannot grow further. |
| Segments.MarkVisited | util_converter.py:73-75 | The visited set after marking is the old set plus exactly the rectangle's cells. |
| Segments.NewRect | util_converter.py:53-75 | A rectangle grown from an unvisited drawable origin is sound (in the grid, single-coloured), is disjoint from the earlier rectangles, and extends the covered set by exactly its cells. |
| Segments.MaximalSnoc | util_converter.py:53-71 | A rectangle where the greedy loops stopped is maximal. Its top row ends at the grid's right edge or at a cell that is already covered or of another colour. The row below it ends the grid or holds such a cell. Appending it leaves the earlier rectangles maximal. |
| Segments.FirstOriginSnoc | util_converter.py:45-52 | The scan meets origins in row-major order: a rectangle grown from an origin reached with every earlier drawable cell visited starts at the first drawable cell, in row-major order, that the earlier rectangles leave uncovered. Appending it leaves the earlier ones so. |
| Segments.GrowRect | util_converter.py:53-75 | From an unvisited drawable origin, the width, height and marking loops give a block of unvisited same-coloured cells inside the grid. The block cannot grow wider or taller, and the visited set grows by exactly its cells. |
| Segments.LaidStep | util_converter.py:45-75 | Appending the grown rectangle keeps coverage equal to the visited set. The rectangles stay sound, disjoint and maximal, and each starts at the first drawable cell the ones before it leave uncovered, in row-major order. |
| Segments.IndexedSnoc | util_converter.py:77-84 | Recording one more rectangle under the palette index of its origin colour keeps every recorded index pointing at its rectangle's colour, also after the palette has grown. |
| Segments.BuiltStep | util_converter.py:45-84 | Emitting one rectangle keeps the segmenter's loop invariant. Coverage equals the visited set. The rectangles are sound, disjoint, maximal, in scan order and indexed. The palette order is learned from their colours. |
| Segments.LearnRect | util_converter.py:77-84 | The palette step for one more rectangle leaves the palette order learned from all the rectangles' origin colours, that one last. |
| Segments.OverflowAt | util_converter.py:45-84 | When the palette step of an origin reached in scan order overflows, the rectangles laid so far are sound, disjoint, greedy and in scan order, the origin is the first drawable cell they leave uncovered, and the palette is their colours then the origin's. |
| Segments.BuiltDrawable | util_converter.py:45-84 | Every palette entry the segmenter has added is the colour of a drawable cell of the grid. |
| Segments.DrawableGrow | util_converter.py:49-80 | Meeting an origin's colour keeps every added palette entry the colour of a drawable cell. |
| Segments.BuiltSegmentation | util_converter.py:45-85 | Once every drawable cell is visited, the rectangles are a segmentation: sound, pairwise disjoint, covering every non-void cell and no void cell. |
| Segments.SameNext | util_converter.py:45-75 | Two rectangles that could each come next after the same earlier rectangles are the same command: same origin, width, height and palette index. Each must be sound, fresh, unable to grow, start at the first uncovered drawable cell, and be indexed by a palette without repeated colours. |
| Segments.GreedyUnique | util_converter.py:41-85 | Two segmentations of a frame are the same command list when both are greedy (every rectangle maximal), both are in scan order and both are indexed by one palette without repeated colours. So the properties `segment` promises fix its output. |
| UtilConverter.Invert | util_converter.py:114 | The turned-round palette maps each index back to the colour holding it, and holds no other index. |
| UtilConverter.InvertKeys | util_converter.py:114 | For the palette the class keeps, no two colours share an index, and the turned-round dictionary's keys are exactly `0 .. len(palette) - 1`. |
| UtilConverter.InvertNumbering | util_converter.py:114-129 | For the palette the class keeps, the turned-round dictionary holds every index `0 .. palette_max - 1`, so `pal[i]` never fails; its entries in index order are the palette order. |
| UtilConverter.Converter.constructor | util_converter.py:29-39 | The module as first imported: `dims == (1, 1)`, no data, empty palette, `palette_max == 0`. |
| UtilConverter.Converter.PaletteIndex | util_converter.py:77-82 | A known colour keeps its index; a new one gets index `palette_max` and increments it; the call raises exactly when a new colour brings the counter to 254, and that colour stays in the palette. |
| UtilConverter.WriteStored | util_converter.py:114-131 | The layout of the frames and the palette is handed to the compressor. It fails with a byte-range error exactly when a count or field does not fit a byte. |
| UtilConverter.Converter.EmitRect | util_converter.py:49-84 | One origin, reached in scan order, grows and records a rectangle that contains it. The rectangle is sound, disjoint, maximal, starts at the first uncovered drawable cell and is correctly indexed. Otherwise the call raises the palette overflow with the palette at 254 entries, or one more than before if it already held that many; the one entry appended is the origin's colour, so the order is the rectangles' colours met in order, then that colour. Either way, every palette entry added is the colour of a drawable cell. |
| UtilConverter.Converter.PlaceRect | util_converter.py:77-84 | The palette step and the append for a grown block keep the segmenter's loop invariant with exactly the block's cells newly visited. Otherwise they raise the overflow with the exact palette size above, having appended exactly the origin's colour after the rectangles' colours met in order. Every entry added is a drawable colour. |
| UtilConverter.Converter.ScanRow | util_converter.py:46-84 | Starting with every drawable cell above row `y` visited, after row `y` every drawable cell up to the end of that row is visited, with the loop invariant kept, so rectangles are emitted in row-major order of their origins. On overflow the palette is at 254 entries, or one more than before if it already held that many, and the palette order is then the old one having met the colours of the rectangles laid before, followed by the overflowing origin's colour, and that origin is the row-major-first drawable cell they leave uncovered; those rectangles are sound, disjoint, greedy and in scan order. Every entry added is the colour of a drawable cell. |
| UtilConverter.Converter.Segment | util_converter.py:41-85 | `segment` returns a segmentation of the grid's drawable cells whose indices name each rectangle's colour. It is greedy: each rectangle is maximal once the earlier ones are placed. It is in scan order: each rectangle starts at the row-major-first drawable cell the earlier ones leave uncovered. The palette order grows by the rectangles' colours in first-seen order; when it grows it stays below 254 entries. On overflow it raises with the palette at 254 entries, or one more than before if it already held that many, and the palette order is then the old one having met the colours of the rectangles laid before, followed by the overflowing origin's colour, and that origin is the row-major-first drawable cell they leave uncovered. Every entry added, on success or overflow, is the colour of a drawable cell, so an empty grid never raises. |
| UtilConverter.Converter.ScanColumn | util_converter.py:104-108 | After one column, the carried map shows the current frame's colour for scanned cells and the previous frame's elsewhere. The buffer holds exactly the scanned diff cells. Only cells entering the buffer change in the carried map. |
| UtilConverter.Converter.FinishFrame | util_converter.py:110-112 | Closing one frame segments its diff set: on success the stored frames with it appended stay segmented and the palette has met their colours in order; on overflow the palette is pinned as for `Segment`, with the frames before it segmented, and the size is 254 or one more than before the loop. |
| UtilConverter.Converter.CollectFrames | util_converter.py:94-113 | The loop segments `dims[0] div 16` frames. Each frame's commands are a greedy, scan-order segmentation of its diff set indexed by the palette, which fixes them. The trailing partial frame is dropped. The palette order is the old one having met every frame's rectangle colours in order, and when it grew it stays below 254 entries. Otherwise it raises the palette overflow with the palette at 254 entries, or one more than before if it already held that many: the frames before the overflowing one are segmented as on success, and inside that frame the palette order is then the old one having met the colours of the rectangles laid before, followed by the overflowing origin's colour, and that origin is the row-major-first drawable cell they leave uncovered. Either way every entry added is a drawable diff colour of some complete frame. |
| UtilConverter.Converter.FiniteCompress | util_converter.py:94-131 | On success the result is the compressor applied to the layout of `dims[0] div 16` frames, each a greedy, scan-order segmentation of its diff set, and the palette. It raises a byte-range error exactly when some count or field does not fit a byte. In both cases the palette has met every frame's rectangle colours in order. Otherwise it raises the palette overflow with the palette at 254 entries, or one more than before if it already held that many, and the palette order is pinned as for `CollectFrames`: the earlier frames' colours, the overflowing frame's laid rectangles' colours, then its overflowing origin's colour. Every entry added is a drawable diff colour of some complete frame. |
| UtilConverter.Converter.Retrieve | util_converter.py:133-176 | `retrieve` fails when decompression fails and otherwise gives exactly the parse-then-replay of the decompressed bytes, a sheet of `dims[0] * dims[1]` pixels. |
| UtilConverter.Converter.PerformCompress | util_converter.py:178-184 | The data become non-void colours of the given tuples and the dims are set; then the `finite_compress` guarantees hold for that data, palette included, on overflow the exact palette order as well. |
| UtilConverter.Converter.PerformDecompress | util_converter.py:186-189 | The dims are set and the result is `retrieve` at those dims; nothing else changes. |
| UtilConverter.Converter.StoreThenLoad | util_converter.py:178-189 | Storing a sheet and reading it back at the same dims, through a compressor the decompressor undoes, either fails while storing, with the palette overflow or a byte-range error, or gives the sheet's pixels inside the complete frames, the marker and transparent elsewhere. A sheet with no rows whose marker is due is not covered. |
| StorageLayout.PalEntries | util_converter.py:126-129 | The palette dictionary read at indices `0 .. n - 1`, in that order. |
| StorageLayout.Serialized | util_converter.py:114-129 | The writer succeeds exactly when the frame count, every command count, every command field and the palette size fit a byte and the palette holds every index below its size. |
| StorageLayout.FramesAt | util_converter.py:137-146 | Reading `n` frames yields `n` command lists and a position inside the buffer, or raises on a count byte past the end or a short command. |
| StorageLayout.FramesAtFit | util_converter.py:137-146 | Every frame the parse reads has fewer than 256 commands, each with byte-sized fields, so it can be written again. |
| StorageLayout.Parse | util_converter.py:134-153 | A successful parse read at least the count byte, returns that many frames, and its frames and palette fit the layout's bytes again. |
| StorageLayout.FramesBytesRead | util_converter.py:137-146 | Reading as many frames as were written, from where they start, gives back exactly those frames and the position just after their bytes. |
| StorageLayout.Layout | util_converter.py:114-129 | The layout is the frame count, each frame's command count and five bytes per command, then the palette size and four bytes per colour; parsing it gives back exactly those frames and that palette. |
| Serializer.WriteCommands | util_converter.py:122-124 | One frame's bytes are the command count and five bytes per command, or a byte-range error exactly when something does not fit. |
| Serializer.WriteFrames | util_converter.py:118-124 | The frame part is the frame count then every frame, or a byte-range error exactly when something does not fit. |
| Serializer.WritePalette | util_converter.py:126-129 | The palette part is its size then four bytes per entry in index order. It fails exactly when the size exceeds a byte (byte range) or an index below the size is missing (missing index). |
| Serializer.WriteLayout | util_converter.py:117-129 | The writer's bytes and errors are exactly those of the layout specification. |
| Serializer.FramesAtStuck | util_converter.py:139-146 | Once reading a prefix of the frames raises, reading more frames raises the same way. |
| Serializer.ReadCommands | util_converter.py:142-145 | `k` commands are read five bytes apiece from the start position, or it raises when the buffer ends before the `k`th command is complete. |
| Serializer.ReadPalette | util_converter.py:148-153 | The palette loop's result is the palette specification's. |
| Serializer.ParseStored | util_converter.py:134-153 | The parse loops give exactly the layout parse: the frames, then the palette, or the truncation error. |
| Replay.PaintRect | util_converter.py:166-170 | Painting a rectangle sets every cell of it to the colour and leaves every other cell as it was. |
| Replay.PaintCmds | util_converter.py:164-170 | Painting a frame's commands keeps every remembered cell inside the frame. |
| Replay.Canvas | util_converter.py:160-162 | The fresh frame image shows each remembered cell and transparent elsewhere, row-major. |
| Replay.Paste | util_converter.py:171 | Pasting keeps the sheet's size. |
| Replay.StepSheet | util_converter.py:171-173 | A frame step keeps the sheet's size when it succeeds. |
| Replay.ReplayPrefix | util_converter.py:156-173 | The replay keeps every remembered cell inside the frame and the sheet at `width * height` cells. |
| Replay.Decode | util_converter.py:133-176 | A parse failure is the decode's failure; a successful decode parsed its input and gives a sheet of `width * height` pixels. |
| Painting.CanvasUpdate | util_converter.py:162-169 | `putpixel` of one frame cell and remembering the cell agree. |
| Painting.FreshCanvas | util_converter.py:160-162 | The new frame image with every remembered cell put back is the frame image of the remembered cells. |
| Painting.PaintCommand | util_converter.py:164-170 | The `dx`/`dy` loops paint the rectangle into the image and the remembered cells together. They raise exactly when the rectangle reaches past the frame. |
| Painting.PaintCmdsStuck | util_converter.py:164-170 | Once a command raises, painting the whole frame raises the same way. |
| Painting.PaintFrame | util_converter.py:159-170 | One frame's loops give exactly the painted remembered cells and their image, or the first error: a missing palette index, or a command past the frame. |
| Painting.ReplayStep | util_converter.py:159-173 | One iteration of the replay loop computes the next replay state of the specification. |
| Painting.ReplayStuck | util_converter.py:159-173 | Once a frame's replay raises, the whole replay raises the same way. |
| Painting.ReplayFrames | util_converter.py:156-173 | The replay loop's sheet is the specification's sheet after all frames. |
| StorageProofs.PaintSound | util_converter.py:164-170 | Painting sound, correctly indexed rectangles never raises. Each cell then shows the colour of the last rectangle covering it, or what it showed before. |
| StorageProofs.FrameStep | util_converter.py:98-111 | If the remembered cells show the previous frame, painting a segmentation of frame `f`'s diff set leaves them showing frame `f`. |
| StorageProofs.CellStep | util_converter.py:171-173 | Pasting frame `k - 1` turns each sheet cell of the restored state after `k - 1` frames into its cell after `k`, except the marker cell. |
| StorageProofs.PasteStep | util_converter.py:171-173 | One paste, plus the marker after the last frame, takes the restored sheet after `k - 1` frames to the restored sheet after `k`. |
| StorageProofs.RememberedCells | util_converter.py:156-170 | After `k` segmented frames the remembered cells show exactly frame `k - 1`'s pixels. |
| StorageProofs.ReplaySheet | util_converter.py:156-173 | Replaying the first `k` segmented frames succeeds and gives the restored sheet after `k` frames. |
| StorageProofs.StorageRoundTrip | util_converter.py:94-176 | Decoding the layout of a frame-by-frame segmentation of the sheet gives the sheet's pixels inside the complete frames and 27 rows, the marker when it fits, and transparent elsewhere. |
| StorageProofs.IndexedGrow | util_converter.py:77-84 | Indices written earlier stay valid as the palette learns more colours. |
| StorageProofs.SegmentedSnoc | util_converter.py:110-112 | Closing one more frame keeps every stored frame segmented against the grown palette. |
| StorageProofs.SegmentedUnique | util_converter.py:94-112 | Two frame lists for the same sheet, of the same length and both segmented greedily in scan order against one palette without repeated colours, are equal. So the stored frames are exactly the ones `finite_compress` builds. |
| StorageProofs.FramesColorsSnoc | util_converter.py:110-112 | The colours met after one more frame are those met before, followed by that frame's rectangle colours. |
| StorageProofs.DiffColours | util_converter.py:94-112 | Palette entries added by the frames up to and including frame `f` are each drawable in the diff set of some frame below any count past `f`. |
| StorageFaults.FramesAtPrefix | util_converter.py:137-146 | Reading frames from a prefix of a buffer either gives what the whole buffer gives or raises the truncation error. |
| StorageFaults.PalAtPrefix | util_converter.py:148-153 | Reading the palette from a prefix of a buffer either gives what the whole buffer gives or raises the truncation error. |
| StorageFaults.LayoutPrefixTruncated | util_converter.py:133-153 | Every proper prefix of a stored layout fails to parse with the truncation error. |
| StorageFaults.PaintCmdsOk | util_converter.py:164-170 | Painting a frame succeeds exactly when every command names a palette entry and lies inside the frame. |
| StorageFaults.ReplayAccepted | util_converter.py:159-170 | A replay that succeeds met only commands naming a palette entry and lying inside the frame. |
| StorageFaults.DecodeOk | util_converter.py:133-176 | A successful `retrieve` parsed its input, and every command in it named a palette entry and lay inside its frame. |
| WireCodec.Step | ibserver.py:217-223 | One loop step flushes the pending run exactly when the colour changes or the count has reached 254, and the new pixel becomes `prev_color`. |
| WireCodec.Scanned | ibserver.py:214-223 | After `n` pixels: every flushed count is in 1..254; flushes happened only when due; flushed counts plus the pending count equal `n + 1`. |
| WireCodec.ScanSpells | ibserver.py:214-223 | The flushed records followed by the pending run spell out the transparent sentinel followed by the pixels seen. |
| WireCodec.EncodeBody | ibserver.py:212-223 | The loop's bytes are width, height and the flushed records; a width or height above 255 raises. |
| WireCodec.Body | ibserver.py:212-223 | The body starts with the width and height bytes, and the decoder's record reader gives back exactly the flushed runs from the rest. |
| WireCodec.EncodeSkin | ibserver.py:212-226 | The output is the compressed body followed by the body's length in two bytes, low byte first; a body longer than 65535 bytes raises. |
| WireCodec.PackU16 | ibserver.py:224-226 | Two bytes, low byte first: the first plus 256 times the second is the length. |
| WireCodec.Records | ibserver.py:268-270 | The decoder reads `floor(len / 5)` whole records, record `i` from bytes `5i .. 5i + 4`. |
| WireCodec.Place | ibserver.py:266-273 | The pixel list after the writes starting at index -1 keeps its length. |
| WireCodec.PlaceOneMore | ibserver.py:271-273 | One more write at the counter stays in range exactly when Python's index does. It then updates the right cell, wrapping -1 to the last cell. |
| WireCodec.WriteRun | ibserver.py:271-273 | The inner loop writes the record's colour `count` times, or reports the first write outside the list. |
| WireCodec.WriteRecord | ibserver.py:268-273 | One pass of the outer loop reads record `i` from its five bytes and writes it: the counter and the list then stand where the first `i + 1` records put them, or the record's writes leave the list. |
| WireCodec.PlaceRecords | ibserver.py:264-273 | The outer loop succeeds exactly when every whole record's writes stay in the list, and then gives the list with all records placed from index -1. |
| WireCodec.OverflowIsFinal | ibserver.py:268-282 | A write outside the list makes the whole decode fail. |
| WireCodec.OverflowStays | ibserver.py:268-273 | Once one write leaves the list, the whole record sequence does not fit either. |
| WireCodec.DecodeSkinBody | ibserver.py:263-273 | The decoding loop gives exactly the decode specification: header bytes, then the expanded records, or the first error. |
| WireCodec.DecodeBody | ibserver.py:263-273 | Decoding fails with the missing-header error exactly when the body is shorter than two bytes; a successful decode returns the two header bytes as the dims and a list of width times height pixels. |
| WireCodec.RecordsOfRecordBytes | ibserver.py:221 | Reading back the record bytes gives the records written. |
| WireCodec.PlaceSpelled | ibserver.py:264-273 | Writing the sentinel and all but the final run from index -1 fills exactly the pixels before the final run. |
| WireCodec.DecodeOfEncoded | ibserver.py:212-273 | Decoding the encoder's body gives the dims and every pixel before the final run, transparent from there on. |
| WireCodec.StripTrailer | ibserver.py:262 | `compressed[:-2]` drops exactly the trailer, or leaves nothing when the blob is shorter. |
| WireCodec.DecodeSkin | ibserver.py:261-273 | Decoding fails when decompression fails and is otherwise the body decode of the decompressed bytes. |
| WireCodec.WireRoundTrip | ibserver.py:212-273 | Through any lossless compressor, decoding an encoded skin gives the dims and the pixels before the final run, transparent after. |
| WireCodec.UniformScan | ibserver.py:214-223 | For one non-transparent colour the flushes are the sentinel, then full runs of 254, and the rest stays pending. |
| WireCodec.ThreeHundredIdentical | ibserver.py:214-224 | 300 equal non-transparent pixels flush the sentinel and one run of 254, and leave 46 pending. |
| WireCodec.ClearScan | ibserver.py:214-223 | Transparent pixels extend the sentinel's run: with the sentinel counted, full records of 254 transparent pixels are flushed and the remainder is pending. |
| WireCodec.ThreeHundredClear | ibserver.py:214-224 | 300 transparent pixels flush one record of 254 transparent pixels and leave 47 pending. |
| WireCodec.TransparentTwoByTwo | ibserver.py:212-273 | A fully transparent 2 x 2 image encodes to the two dims bytes alone, and decodes to four transparent pixels. |

## Behaviour of the code worth noting

- **The palette persists.** `palette` and `palette_max` are module globals that nothing resets. A later encode continues numbering where the earlier one stopped. A colour that overflowed stays in the palette.
- **The first layout byte** is `len(overall) - 1`. `overall` also holds the `"palette"` key, so the byte is the frame count itself. `StorageLayout.Layout` writes `|frames|`.
- **300 identical pixels of a non-transparent colour** give two records: the transparent sentinel (count 1) and one run of 254. The remaining 46 are pending and never emitted (`WireCodec.ThreeHundredIdentical`).
- **300 transparent pixels** give a single record of 254 transparent pixels, the sentinel included. The remaining 47 are pending and never emitted (`WireCodec.ThreeHundredClear`).
- **A fully transparent 2 x 2 image** gives no record, because the sentinel run is never flushed. The decoder still yields four transparent pixels (`WireCodec.TransparentTwoByTwo`).
- **The marker on a zero-height sheet.** When the marker pixel is due on a sheet with zero rows, `putpixel` raises. `Replay.StepSheet` models that error.

## Left out

- HTTP routing, authentication, rate limiting, the MongoDB persistence helpers, account migration, password hashing, the XOR cipher, randomness, and the numpy and pympler imports. These are plumbing, I/O or foreign code around the codecs.
- lzma, gzip, base64 and BSON are function parameters of the methods (`compress`, `decompress`). A failed decompression is the single fault `DecompressFailed`.
- PIL's `Image` is a row-major `seq<Rgba>` value, replaced on every write. In-place update of an image object is not captured. `paste` is clipped to the sheet.
- The dictionary `overall` is a sequence of frames, plus the turned-round palette. Its integer keys are consecutive from 0, so the sorted iteration is the sequence order. The counter `frame_idx` is therefore not a variable: the frame being closed is frame `|frames|`.
- Python's exception types are collapsed into `Pixels.Fault`:
  - `ValueError` from `bytearray.append` and `struct.error` from `struct.pack` are both `ByteRange`.
  - `IndexError` on `raw[pos]` and `struct.error` on a short slice are both `Truncated`.
  - Which of several simultaneous range violations is reported first is not distinguished.
- UtilConverter.Converter.PerformCompress: pixel tuples are byte sequences. A channel outside 0..255, which Python would store and only reject when writing the palette, cannot be expressed.
- UtilConverter.Converter.Retrieve: returns the sheet's pixels only. The `"dims"` entry of the returned dictionary is the `dims` field.
- UtilConverter.Converter.StoreThenLoad: promises nothing for a sheet with no rows whose marker pixel is due, where `retrieve` raises.
- UtilConverter.Converter.FiniteCompress: the frames it segments are a ghost out-parameter, since Python keeps them only inside `overall`.
- `struct.pack("H")` in the wire trailer is little-endian, the native order of the usual hosts. A big-endian host is not modelled.
