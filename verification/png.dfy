/** The two pieces of a PNG file the packer looks at: the 8-byte signature
    (section 3.1 of the PNG 1.2 specification) and the fixed-offset fields of
    the IHDR chunk (section 4.1.1 of the same), which in every PNG file sits
    right after the signature, so its width, height, bit depth and colour
    type live at byte offsets 16, 20, 24 and 25 of the file.
 */
module Png {
  import opened Outcomes
  import opened Bytes

  /** `PNG_HEADER`: 137 'P' 'N' 'G' CR LF SUB LF. */
  const Signature: seq<byte> := [137, 80, 78, 71, 13, 10, 26, 10]

  /** Offsets of the IHDR fields inside the file. */
  const WidthAt: nat := 16
  const HeightAt: nat := 20
  const BitDepthAt: nat := 24
  const ColorTypeAt: nat := 25

  /** `buf.slice(0, 8).equals(PNG_HEADER)`: the slice is clamped to the
      buffer, so a buffer shorter than 8 bytes never matches. */
  predicate HasSignature(b: seq<byte>)
  {
    var end := if |b| < 8 then |b| else 8;
    b[..end] == Signature
  }

  /** The signature check is exactly a byte-for-byte match of the first 8 bytes. */
  lemma HasSignatureBytes(b: seq<byte>)
    ensures HasSignature(b) <==> |b| >= 8 && forall k :: 0 <= k < 8 ==> b[k] == Signature[k]
  {
    if |b| >= 8 && forall k :: 0 <= k < 8 ==> b[k] == Signature[k] {
      assert b[..8] == Signature;
    }
  }

  /** The four values `ihdr` returns. */
  datatype Ihdr = Ihdr(width: nat, height: nat, bitDepth: byte, colorType: byte)

  predicate Representable(h: Ihdr)
  {
    h.width < U32Bound && h.height < U32Bound
  }

  /** `ihdr(buf)`: four checked reads in order; the first that runs past the
      end of the buffer fails, so any buffer shorter than 26 bytes fails. */
  function ReadIhdr(b: seq<byte>): (r: Result<Ihdr>)
    ensures r.Success? <==> |b| > ColorTypeAt
    ensures r.Failure? ==> r.error == OutOfRange
    ensures r.Success? ==> Representable(r.value)
  {
    var width :- ReadUInt32BE(b, WidthAt);
    var height :- ReadUInt32BE(b, HeightAt);
    var bitDepth :- ReadUInt8(b, BitDepthAt);
    var colorType :- ReadUInt8(b, ColorTypeAt);
    Success(Ihdr(width, height, bitDepth, colorType))
  }

  /** Where the fields `ReadIhdr` returns come from: the big-endian u32s at
      16 and 20 and the bytes at 24 and 25. */
  lemma IhdrFields(b: seq<byte>)
    requires ReadIhdr(b).Success?
    ensures var h := ReadIhdr(b).value;
      && EncodeU32BE(h.width) == b[WidthAt..WidthAt + 4]
      && EncodeU32BE(h.height) == b[HeightAt..HeightAt + 4]
      && h.bitDepth == b[BitDepthAt] && h.colorType == b[ColorTypeAt]
  {
  }

  /** The first 26 bytes of a PNG file whose IHDR carries `h`: signature,
      the IHDR chunk length (13) and type ("IHDR"), then the fields. */
  function Head(h: Ihdr): (r: seq<byte>)
    requires Representable(h)
    ensures |r| == ColorTypeAt + 1
    ensures HasSignature(r)
  {
    Signature + [0, 0, 0, 13] + [73, 72, 68, 82]
      + EncodeU32BE(h.width) + EncodeU32BE(h.height) + [h.bitDepth, h.colorType]
  }

  /** Reading the IHDR of any file that starts with `Head(h)` gives `h` back. */
  lemma ReadHead(h: Ihdr, rest: seq<byte>)
    requires Representable(h)
    ensures HasSignature(Head(h) + rest)
    ensures ReadIhdr(Head(h) + rest) == Success(h)
  {
    var b := Head(h) + rest;
    assert b[..8] == Signature;
    assert b[WidthAt..WidthAt + 4] == EncodeU32BE(h.width);
    assert b[HeightAt..HeightAt + 4] == EncodeU32BE(h.height);
  }
}
