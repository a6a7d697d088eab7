/** Bytes and the fixed-width integer codecs the packer relies on.

    The `Decode`/`Encode` functions are the plain arithmetic of little- and
    big-endian integers.  The `Read`/`Write` functions model Node's checked
    Buffer accessors (`readUInt8`, `readUInt16LE`, `readUInt32LE`,
    `readUInt32BE`, `writeUInt16LE`, `writeUInt32LE`): they fail with
    `OutOfRange` instead of reading past the end or truncating a value.
 */
module Bytes {
  import opened Outcomes

  type byte = x: int | 0 <= x < 0x100

  const U16Bound: nat := 0x1_0000
  const U32Bound: nat := 0x1_0000_0000

  function DecodeU16LE(s: seq<byte>, at: nat): (v: nat)
    requires at + 2 <= |s|
    ensures v < U16Bound
  {
    s[at] as int + 0x100 * s[at + 1] as int
  }

  function DecodeU32LE(s: seq<byte>, at: nat): (v: nat)
    requires at + 4 <= |s|
    ensures v < U32Bound
  {
    s[at] as int + 0x100 * s[at + 1] as int + 0x1_0000 * s[at + 2] as int + 0x100_0000 * s[at + 3] as int
  }

  function DecodeU32BE(s: seq<byte>, at: nat): (v: nat)
    requires at + 4 <= |s|
    ensures v < U32Bound
  {
    0x100_0000 * s[at] as int + 0x1_0000 * s[at + 1] as int + 0x100 * s[at + 2] as int + s[at + 3] as int
  }

  /** Two bytes, least significant first; decoding gives `v` back. */
  function EncodeU16LE(v: nat): (r: seq<byte>)
    requires v < U16Bound
    ensures |r| == 2
    ensures DecodeU16LE(r, 0) == v
  {
    [v % 0x100, v / 0x100]
  }

  /** Four bytes, least significant first; decoding gives `v` back. */
  function EncodeU32LE(v: nat): (r: seq<byte>)
    requires v < U32Bound
    ensures |r| == 4
    ensures DecodeU32LE(r, 0) == v
  {
    EncodeU16LE(v % U16Bound) + EncodeU16LE(v / U16Bound)
  }

  /** Four bytes, most significant first; decoding gives `v` back. */
  function EncodeU32BE(v: nat): (r: seq<byte>)
    requires v < U32Bound
    ensures |r| == 4
    ensures DecodeU32BE(r, 0) == v
  {
    var le := EncodeU32LE(v);
    [le[3], le[2], le[1], le[0]]
  }

  lemma SplitU16(lo: nat, hi: nat)
    requires lo < U16Bound
    ensures (lo + U16Bound * hi) % U16Bound == lo
    ensures (lo + U16Bound * hi) / U16Bound == hi
  {
  }

  lemma SplitByte(lo: nat, hi: nat)
    requires lo < 0x100
    ensures (lo + 0x100 * hi) % 0x100 == lo
    ensures (lo + 0x100 * hi) / 0x100 == hi
  {
  }

  /** Decoding is onto the windows: every two-byte window is the encoding of what it decodes to. */
  lemma DecodeEncodeU16LE(s: seq<byte>, at: nat)
    requires at + 2 <= |s|
    ensures EncodeU16LE(DecodeU16LE(s, at)) == s[at..at + 2]
  {
    SplitByte(s[at], s[at + 1]);
  }

  /** Every four-byte window is the encoding of what it decodes to, in both byte orders. */
  lemma DecodeEncodeU32(s: seq<byte>, at: nat)
    requires at + 4 <= |s|
    ensures EncodeU32LE(DecodeU32LE(s, at)) == s[at..at + 4]
    ensures EncodeU32BE(DecodeU32BE(s, at)) == s[at..at + 4]
  {
    var lo := DecodeU16LE(s, at);
    var hi := DecodeU16LE(s, at + 2);
    assert DecodeU32LE(s, at) == lo + U16Bound * hi;
    SplitU16(lo, hi);
    DecodeEncodeU16LE(s, at);
    DecodeEncodeU16LE(s, at + 2);
    var r := [s[at + 3], s[at + 2], s[at + 1], s[at]];
    assert DecodeU32BE(s, at) == DecodeU32LE(r, 0);
    assert EncodeU32LE(DecodeU32LE(r, 0)) == r by {
      var lo' := DecodeU16LE(r, 0);
      var hi' := DecodeU16LE(r, 2);
      SplitU16(lo', hi');
      DecodeEncodeU16LE(r, 0);
      DecodeEncodeU16LE(r, 2);
    }
  }

  /** A little-endian u32 read at `at` sees only the four bytes there. */
  lemma DecodeU32LEWindow(s: seq<byte>, at: nat, t: seq<byte>, from: nat)
    requires at + 4 <= |s| && from + 4 <= |t|
    requires s[at..at + 4] == t[from..from + 4]
    ensures DecodeU32LE(s, at) == DecodeU32LE(t, from)
  {
    assert s[at] == s[at..at + 4][0] && t[from] == t[from..from + 4][0];
    assert s[at + 1] == s[at..at + 4][1] && t[from + 1] == t[from..from + 4][1];
    assert s[at + 2] == s[at..at + 4][2] && t[from + 2] == t[from..from + 4][2];
    assert s[at + 3] == s[at..at + 4][3] && t[from + 3] == t[from..from + 4][3];
  }

  /** `buf.readUInt8(at)`. */
  function ReadUInt8(s: seq<byte>, at: nat): (r: Result<byte>)
    ensures r.Success? <==> at < |s|
    ensures r.Failure? ==> r.error == OutOfRange
    ensures r.Success? ==> r.value == s[at]
  {
    if at + 1 > |s| then Failure(OutOfRange) else Success(s[at])
  }

  /** `buf.readUInt16LE(at)`. */
  function ReadUInt16LE(s: seq<byte>, at: nat): (r: Result<nat>)
    ensures r.Success? <==> at + 2 <= |s|
    ensures r.Failure? ==> r.error == OutOfRange
    ensures r.Success? ==> r.value < U16Bound
    ensures r.Success? ==> EncodeU16LE(r.value) == s[at..at + 2]
  {
    if at + 2 > |s| then Failure(OutOfRange)
    else DecodeEncodeU16LE(s, at); Success(DecodeU16LE(s, at))
  }

  /** `buf.readUInt32LE(at)`. */
  function ReadUInt32LE(s: seq<byte>, at: nat): (r: Result<nat>)
    ensures r.Success? <==> at + 4 <= |s|
    ensures r.Failure? ==> r.error == OutOfRange
    ensures r.Success? ==> r.value < U32Bound
    ensures r.Success? ==> EncodeU32LE(r.value) == s[at..at + 4]
  {
    if at + 4 > |s| then Failure(OutOfRange)
    else DecodeEncodeU32(s, at); Success(DecodeU32LE(s, at))
  }

  /** `buf.readUInt32BE(at)`. */
  function ReadUInt32BE(s: seq<byte>, at: nat): (r: Result<nat>)
    ensures r.Success? <==> at + 4 <= |s|
    ensures r.Failure? ==> r.error == OutOfRange
    ensures r.Success? ==> r.value < U32Bound
    ensures r.Success? ==> EncodeU32BE(r.value) == s[at..at + 4]
  {
    if at + 4 > |s| then Failure(OutOfRange)
    else DecodeEncodeU32(s, at); Success(DecodeU32BE(s, at))
  }

  /** The two bytes `buf.writeUInt16LE(v, _)` stores; a value that does not fit is a range error. */
  function WriteUInt16LE(v: nat): (r: Result<seq<byte>>)
    ensures r.Success? <==> v < U16Bound
    ensures r.Failure? ==> r.error == OutOfRange
    ensures r.Success? ==> |r.value| == 2 && DecodeU16LE(r.value, 0) == v
  {
    if v >= U16Bound then Failure(OutOfRange) else Success(EncodeU16LE(v))
  }

  /** The four bytes `buf.writeUInt32LE(v, _)` stores; a value that does not fit is a range error. */
  function WriteUInt32LE(v: nat): (r: Result<seq<byte>>)
    ensures r.Success? <==> v < U32Bound
    ensures r.Failure? ==> r.error == OutOfRange
    ensures r.Success? ==> |r.value| == 4 && DecodeU32LE(r.value, 0) == v
  {
    if v >= U32Bound then Failure(OutOfRange) else Success(EncodeU32LE(v))
  }
}
