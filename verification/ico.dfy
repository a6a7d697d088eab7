/** The ICO packer: validates each PNG, encodes the 6-byte ICONDIR header
    and one 16-byte ICONDIRENTRY per image, and lays out header, entries
    and the untouched PNG payloads one after another.
 */
module Ico {
  import opened Outcomes
  import opened Bytes
  import opened Chunks
  import Png

  const HeaderSize: nat := 6
  const EntrySize: nat := 16

  /** Written into the header's image-type field.  In ICO, 1 marks an icon
      file and 2 a cursor file; the packer writes 2. */
  const ImageType: nat := 2

  const MaxDimension: nat := 256

  /** PNG colour type 6: truecolour with alpha. */
  const TruecolorAlpha: byte := 6

  /** An element of the input list: a Buffer, or any other runtime value. */
  datatype Value = Buf(bytes: seq<byte>) | NotBuf

  /** `cur.length` of an element.  Only ever taken of elements that already
      passed the Buffer check, so a non-Buffer's length is immaterial. */
  function Length(v: Value): nat
  {
    if v.Buf? then |v.bytes| else 0
  }

  /** The bytes an element contributes to the concatenated output. */
  function Payload(v: Value): (r: seq<byte>)
    ensures |r| == Length(v)
  {
    if v.Buf? then v.bytes else []
  }

  /** `list.reduce(sumLengths, 0)`: a left fold adding up the lengths. */
  function SumLengths(vs: seq<Value>): nat
  {
    if |vs| == 0 then 0 else SumLengths(vs[..|vs| - 1]) + Length(vs[|vs| - 1])
  }

  /** The list's buffers, as `Buffer.concat` receives them. */
  function Images(vs: seq<Value>): (r: seq<seq<byte>>)
    ensures |r| == |vs|
  {
    if |vs| == 0 then [] else Images(vs[..|vs| - 1]) + [Payload(vs[|vs| - 1])]
  }

  /** Buffer `i` of the list is image `i`'s bytes. */
  lemma {:induction false} ImagesAt(vs: seq<Value>, i: nat)
    requires i < |vs|
    ensures Images(vs)[i] == Payload(vs[i])
    decreases |vs|
  {
    if i < |vs| - 1 {
      ImagesAt(vs[..|vs| - 1], i);
    }
  }

  /** A prefix of the buffers is the buffers of the prefix. */
  lemma {:induction false} ImagesPrefix(vs: seq<Value>, i: nat)
    requires i <= |vs|
    ensures Images(vs)[..i] == Images(vs[..i])
    decreases |vs|
  {
    if i < |vs| {
      assert vs[..|vs| - 1][..i] == vs[..i];
      ImagesPrefix(vs[..|vs| - 1], i);
    } else {
      assert vs[..i] == vs;
    }
  }

  /** The reducer's sum is the total length of the buffers. */
  lemma {:induction false} SumLengthsImages(vs: seq<Value>)
    ensures SumLengths(vs) == TotalLength(Images(vs))
    decreases |vs|
  {
    if |vs| > 0 {
      SumLengthsImages(vs[..|vs| - 1]);
      ImagesPrefix(vs, |vs| - 1);
    }
  }

  /** `iconDirHeader(list)` for a list of `count` images: reserved 0, image
      type, image count, each a little-endian u16.  A count that does not
      fit 16 bits is the range error `writeUInt16LE` raises; the two
      constant fields always fit. */
  function IconDirHeader(count: nat): (r: Result<seq<byte>>)
    ensures r.Success? <==> count < U16Bound
    ensures r.Failure? ==> r.error == OutOfRange
    ensures r.Success? ==> r.value == [0, 0, 2, 0, count % 0x100, count / 0x100]
    ensures r.Success? ==> DecodeU16LE(r.value, 0) == 0
    ensures r.Success? ==> DecodeU16LE(r.value, 2) == ImageType
    ensures r.Success? ==> DecodeU16LE(r.value, 4) == count
  {
    var n :- WriteUInt16LE(count);
    Success(EncodeU16LE(0) + EncodeU16LE(ImageType) + n)
  }

  /** The per-image checks of `iconDirEntry`, in the order it makes them;
      the first that fails decides the error. */
  function Validate(cur: Value): (r: Result<Png.Ihdr>)
    ensures r.Success? ==> cur.Buf? && Png.ReadIhdr(cur.bytes) == Success(r.value)
    ensures r.Success? ==> Png.HasSignature(cur.bytes)
    ensures r.Success? ==> r.value.width == r.value.height <= MaxDimension
    ensures r.Success? ==> r.value.colorType == TruecolorAlpha
  {
    if !cur.Buf? then Failure(NotBuffer)
    else if !Png.HasSignature(cur.bytes) then Failure(NotPng)
    else
      var h :- Png.ReadIhdr(cur.bytes);
      if h.width != h.height then Failure(NotSquare)
      else if h.width > MaxDimension then Failure(TooLarge)
      else if h.colorType != TruecolorAlpha then Failure(WrongColorType)
      else Success(h)
  }

  /** Which check rejects an element: each error names exactly the first
      check, in the order `iconDirEntry` makes them, that the element fails. */
  lemma ValidationOrder(cur: Value)
    ensures Validate(cur) == Failure(NotBuffer) <==> cur.NotBuf?
    ensures Validate(cur) == Failure(NotPng) <==> cur.Buf? && !Png.HasSignature(cur.bytes)
    ensures Validate(cur) == Failure(OutOfRange) <==>
      cur.Buf? && Png.HasSignature(cur.bytes) && Png.ReadIhdr(cur.bytes).Failure?
    ensures Validate(cur) == Failure(NotSquare) <==>
      && cur.Buf? && Png.HasSignature(cur.bytes) && Png.ReadIhdr(cur.bytes).Success?
      && Png.ReadIhdr(cur.bytes).value.width != Png.ReadIhdr(cur.bytes).value.height
    ensures Validate(cur) == Failure(TooLarge) <==>
      && cur.Buf? && Png.HasSignature(cur.bytes) && Png.ReadIhdr(cur.bytes).Success?
      && Png.ReadIhdr(cur.bytes).value.width == Png.ReadIhdr(cur.bytes).value.height
      && Png.ReadIhdr(cur.bytes).value.width > MaxDimension
    ensures Validate(cur) == Failure(WrongColorType) <==>
      && cur.Buf? && Png.HasSignature(cur.bytes) && Png.ReadIhdr(cur.bytes).Success?
      && Png.ReadIhdr(cur.bytes).value.width == Png.ReadIhdr(cur.bytes).value.height
      && Png.ReadIhdr(cur.bytes).value.width <= MaxDimension
      && Png.ReadIhdr(cur.bytes).value.colorType != TruecolorAlpha
  {
  }

  /** The single byte an entry stores for a dimension: 256 does not fit, so
      ICO writes it as 0.  A dimension of 0 is written as 0 as well, and so
      cannot be told apart from 256. */
  function DimensionByte(d: nat): (r: byte)
    requires d <= MaxDimension
    ensures r == 0 <==> d == 0 || d == MaxDimension
    ensures 0 < d < MaxDimension ==> r == d
    ensures 0 < d ==> ReadDimension(r) == d
  {
    if d == MaxDimension then 0 else d
  }

  /** How an ICO reader interprets a dimension byte: 0 means 256. */
  function ReadDimension(b: byte): nat
  {
    if b == 0 then MaxDimension else b
  }

  /** Where image `index` starts in the output: after the header, all the
      entries, and every earlier image. */
  function Offset(list: seq<Value>, index: nat): nat
    requires index <= |list|
  {
    HeaderSize + EntrySize * |list| + SumLengths(list[..index])
  }

  /** `iconDirEntry(list[index], index, list)`: validates the image, then
      writes width, height, palette 0, reserved 0, planes 0, bits per pixel
      0 (the two u16 zeros always fit), byte size (u32) and offset (u32),
      little-endian.  A size or offset that does not fit 32 bits is the
      range error `writeUInt32LE` raises. */
  function IconDirEntry(list: seq<Value>, index: nat): (r: Result<seq<byte>>)
    requires index < |list|
    ensures r.Success? <==>
      && Validate(list[index]).Success?
      && Length(list[index]) < U32Bound
      && Offset(list, index) < U32Bound
    ensures Validate(list[index]).Failure? ==> r == Failure(Validate(list[index]).error)
    ensures Validate(list[index]).Success? && r.Failure? ==> r.error == OutOfRange
    ensures r.Success? ==> |r.value| == EntrySize
  {
    var cur := list[index];
    var h :- Validate(cur);
    var dim := DimensionByte(h.width);
    var offset := Offset(list, index);
    var size :- WriteUInt32LE(|cur.bytes|);
    var at :- WriteUInt32LE(offset);
    Success([dim, dim, 0, 0] + EncodeU16LE(0) + EncodeU16LE(0) + size + at)
  }

  /** The fields of a built entry: the dimension byte twice, six zero bytes
      (palette, reserved, planes, bits per pixel), then the image's byte
      size and its offset in the output, each a little-endian u32. */
  lemma EntryFieldsOf(list: seq<Value>, index: nat)
    requires index < |list|
    requires IconDirEntry(list, index).Success?
    ensures var e := IconDirEntry(list, index).value;
      && Validate(list[index]).Success?
      && e[0] == e[1] == DimensionByte(Validate(list[index]).value.width)
      && e[2..8] == [0, 0, 0, 0, 0, 0]
      && DecodeU32LE(e, 8) == |list[index].bytes|
      && DecodeU32LE(e, 12) == Offset(list, index)
  {
  }

  /** The `iconDirEntry` callback as `map` sees it.  `map` only visits
      positions inside the list; a position past the end is given a range
      error so that the callback is total. */
  function EntryAt(list: seq<Value>, index: nat): Result<seq<byte>>
  {
    if index < |list| then IconDirEntry(list, index) else Failure(OutOfRange)
  }

  function EntryCallback(list: seq<Value>): nat -> Result<seq<byte>>
  {
    index => EntryAt(list, index)
  }

  /** `list.map(iconDirEntry)`: one entry per image, stopping at the first
      image whose entry cannot be built. */
  function Entries(list: seq<Value>): (r: Result<seq<seq<byte>>>)
    ensures r.Success? ==> |r.value| == |list|
  {
    MapResults(EntryCallback(list), 0, |list|)
  }

  /** Entry `k` of a successful map is the entry built for image `k`. */
  lemma EntriesAt(list: seq<Value>, k: nat)
    requires k < |list|
    requires Entries(list).Success?
    ensures IconDirEntry(list, k) == Success(Entries(list).value[k])
  {
    MapResultsAt(EntryCallback(list), 0, |list|, k);
  }

  /** `iconDir(list)`: the header (built first, so a count overflow wins
      over every per-image error), then all entries. */
  function IconDir(list: seq<Value>): (r: Result<seq<seq<byte>>>)
    ensures r.Success? ==> |r.value| == 1 + |list|
    ensures r.Success? ==> IconDirHeader(|list|) == Success(r.value[0])
  {
    var header :- IconDirHeader(|list|);
    var entries :- Entries(list);
    Success([header] + entries)
  }

  /** Buffer `1 + k` of a built directory is the entry of image `k`. */
  lemma DirectoryEntry(list: seq<Value>, k: nat)
    requires k < |list|
    requires IconDir(list).Success?
    ensures IconDirEntry(list, k) == Success(IconDir(list).value[1 + k])
  {
    EntriesAt(list, k);
  }

  /** `icon(list)`: the directory followed by the images, unchanged. */
  function Icon(list: seq<Value>): (r: Result<seq<byte>>)
    ensures r.Success? ==> |r.value| == HeaderSize + EntrySize * |list| + SumLengths(list)
  {
    var dir :- IconDir(list);
    DirectoryLength(list, dir);
    SumLengthsImages(list);
    ConcatAppend(dir, Images(list));
    Success(Concat(dir + Images(list)))
  }

  /** A directory is 6 bytes of header and 16 bytes per image. */
  lemma DirectoryLength(list: seq<Value>, dir: seq<seq<byte>>)
    requires IconDir(list) == Success(dir)
    ensures TotalLength(dir) == HeaderSize + EntrySize * |list|
  {
    var entries := dir[1..];
    assert forall k :: 0 <= k < |entries| ==> |entries[k]| == EntrySize by {
      forall k | 0 <= k < |entries|
        ensures |entries[k]| == EntrySize
      {
        DirectoryEntry(list, k);
      }
    }
    UniformTotal(entries, EntrySize);
    assert dir == [dir[0]] + entries;
    ConcatAppend([dir[0]], entries);
    var one := [dir[0]];
    assert one[..0] == [];
  }
}
