/** Values shared by both codecs: bytes, RGBA tuples, frame cells and the failures the codecs raise. */
module Pixels {

  /** An unsigned 8-bit value: what a `bytearray`, `struct.pack("B")` and an RGBA channel hold. */
  type byte = x: int | 0 <= x < 256

  /** An `(r, g, b, a)` tuple, as PIL hands pixels out and as both byte layouts store them. */
  datatype Rgba = Rgba(r: byte, g: byte, b: byte, a: byte)

  /** What `Image.new("RGBA", ...)` fills a new image with; also the wire encoder's first colour. */
  const Clear := Rgba(0, 0, 0, 0)

  /** An `(x, y)` key of the per-frame dictionaries. */
  type Cell = (int, int)

  /** The exceptions the codecs raise. Every one aborts the whole call; the request handlers
      answer any of them with a single error response. */
  datatype Fault =
    | PaletteMaxExceeded     // `segment`: the palette counter reached 254
    | ByteRange              // `bytearray.append` or `struct.pack("B", ...)` given a value outside 0..255
    | Truncated              // `raw[pos]` past the end, or `struct.unpack` of a short slice
    | MissingPaletteIndex    // `pal[p_idx]` for an index the palette does not hold
    | ImageIndexOutOfRange   // `putpixel` outside the image
    | TrailerRange           // `struct.pack("H", ...)` given a value above 65535
    | DecompressFailed       // the general-purpose decompressor rejected its input
    | EmptyHeader            // `bytes.pop(0)` on an empty buffer
    | ListIndexOutOfRange    // `image_data[counter]` outside the list

  datatype Result<T> = Ok(value: T) | Err(fault: Fault)

  datatype Option<T> = None | Some(value: T)

  /** `n` copies of `x`. */
  function Repeat<T>(x: T, n: nat): (s: seq<T>)
    ensures |s| == n && forall i :: 0 <= i < n ==> s[i] == x
  {
    seq(n, _ => x)
  }
}
