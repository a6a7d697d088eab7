/** The reader the test suite uses to take an ICO apart (`parseICO` in
    index.test.js), and the round trip: reading the packer's output gives
    back every input image unchanged, in order, with its dimension byte.
 */
module IcoParse {
  import opened Outcomes
  import opened Bytes
  import opened Ico
  import IcoLayout

  /** What the reader extracts per entry: the width byte and the image data. */
  datatype Parsed = Parsed(width: byte, data: seq<byte>)

  /** `buf.slice(lo, hi)`: both ends are clamped to the buffer, and an end
      before the start gives an empty slice. */
  function Slice(s: seq<byte>, lo: nat, hi: nat): (r: seq<byte>)
    ensures lo <= hi <= |s| ==> r == s[lo..hi]
    ensures |s| <= lo ==> r == []
  {
    var start := if lo < |s| then lo else |s|;
    var end := if hi < |s| then hi else |s|;
    if end <= start then [] else s[start..end]
  }

  /** The remaining cases of `Slice`: an end past the buffer is clamped to
      it, and an end at or before the start gives an empty slice. */
  lemma SliceClamps(s: seq<byte>, lo: nat, hi: nat)
    ensures lo <= |s| <= hi ==> Slice(s, lo, hi) == s[lo..]
    ensures hi <= lo ==> Slice(s, lo, hi) == []
  {
  }

  /** Entries `index..count-1`: width at byte 0 of the entry, data offset at
      byte 12, data size at byte 8, read in that order with checked reads. */
  function ParseEntries(buf: seq<byte>, index: nat, count: nat): (r: Result<seq<Parsed>>)
    ensures r.Success? ==> |r.value| == if index < count then count - index else 0
    ensures r.Success? && index < count ==> HeaderSize + EntrySize * count <= |buf|
    decreases count - index
  {
    if index >= count then Success([])
    else
      var at := HeaderSize + index * EntrySize;
      var width :- ReadUInt8(buf, at);
      var dataOffset :- ReadUInt32LE(buf, at + 12);
      // cannot fail once the read at `at + 12` succeeded
      var size := DecodeU32LE(buf, at + 8);
      var rest :- ParseEntries(buf, index + 1, count);
      Success([Parsed(width, Slice(buf, dataOffset, dataOffset + size))] + rest)
  }

  /** `parseICO(buf)`: as many entries as the header's count field says. */
  function ParseIco(buf: seq<byte>): (r: Result<seq<Parsed>>)
    ensures r.Success? ==> 6 <= |buf| && |r.value| == DecodeU16LE(buf, 4)
  {
    var count :- ReadUInt16LE(buf, 4);
    ParseEntries(buf, 0, count)
  }

  /** The fields of entry `k` of a successful output, as a reader sees them. */
  lemma EntryFields(list: seq<Value>, out: seq<byte>, k: nat)
    requires k < |list|
    requires IconDirEntry(list, k).Success?
    requires HeaderSize + EntrySize * k + EntrySize <= |out|
    requires out[HeaderSize + EntrySize * k..HeaderSize + EntrySize * k + EntrySize] == IconDirEntry(list, k).value
    ensures Validate(list[k]).Success?
    ensures out[HeaderSize + EntrySize * k] == DimensionByte(Validate(list[k]).value.width)
    ensures DecodeU32LE(out, HeaderSize + EntrySize * k + 8) == Length(list[k])
    ensures DecodeU32LE(out, HeaderSize + EntrySize * k + 12) == Offset(list, k)
  {
    EntryFieldsOf(list, k);
    EntryWindow(out, HeaderSize + EntrySize * k, IconDirEntry(list, k).value);
  }

  /** A reader that finds entry bytes `e` at `at` sees the fields of `e`. */
  lemma EntryWindow(out: seq<byte>, at: nat, e: seq<byte>)
    requires |e| == EntrySize && at + EntrySize <= |out|
    requires out[at..at + EntrySize] == e
    ensures out[at] == e[0]
    ensures DecodeU32LE(out, at + 8) == DecodeU32LE(e, 8)
    ensures DecodeU32LE(out, at + 12) == DecodeU32LE(e, 12)
  {
    assert out[at] == e[0];
    assert out[at + 8..at + 12] == e[8..12];
    assert out[at + 12..at + 16] == e[12..16];
    DecodeU32LEWindow(out, at + 8, e, 8);
    DecodeU32LEWindow(out, at + 12, e, 12);
  }

  /** Entry `k` of `out` is readable and points at exactly the bytes `img`. */
  ghost predicate PointsAt(out: seq<byte>, k: nat, img: seq<byte>)
  {
    var at := HeaderSize + EntrySize * k;
    && at + EntrySize <= |out|
    && var offset := DecodeU32LE(out, at + 12);
    && var size := DecodeU32LE(out, at + 8);
    && offset + size <= |out|
    && out[offset..offset + size] == img
  }

  /** When entries `from..|imgs|-1` point at `imgs`, the reader returns
      those images with the width bytes stored in the entries. */
  lemma {:induction false} ParseEntriesFrom(out: seq<byte>, from: nat, imgs: seq<seq<byte>>)
    requires from <= |imgs|
    requires forall k :: from <= k < |imgs| ==> PointsAt(out, k, imgs[k])
    ensures ParseEntries(out, from, |imgs|).Success?
    ensures forall k :: from <= k < |imgs| ==>
      ParseEntries(out, from, |imgs|).value[k - from] == Parsed(out[HeaderSize + EntrySize * k], imgs[k])
    decreases |imgs| - from
  {
    if from < |imgs| {
      ParseEntriesFrom(out, from + 1, imgs);
      var rest := ParseEntries(out, from + 1, |imgs|).value;
      ParseStep(out, from, |imgs|, imgs[from]);
      var all := [Parsed(out[HeaderSize + EntrySize * from], imgs[from])] + rest;
      forall k | from < k < |imgs|
        ensures all[k - from] == Parsed(out[HeaderSize + EntrySize * k], imgs[k])
      {
        assert all[k - from] == rest[k - (from + 1)];
      }
    }
  }

  /** Reading an entry that points at `img` yields `img` with the entry's width byte. */
  lemma ParseStep(out: seq<byte>, from: nat, count: nat, img: seq<byte>)
    requires from < count
    requires PointsAt(out, from, img)
    requires ParseEntries(out, from + 1, count).Success?
    ensures ParseEntries(out, from, count)
      == Success([Parsed(out[HeaderSize + EntrySize * from], img)] + ParseEntries(out, from + 1, count).value)
  {
    var at := HeaderSize + from * EntrySize;
    assert at == HeaderSize + EntrySize * from;
    assert at + EntrySize <= |out|;
    var offset := DecodeU32LE(out, at + 12);
    var size := DecodeU32LE(out, at + 8);
    assert offset + size <= |out| && out[offset..offset + size] == img;
    assert ReadUInt8(out, at) == Success(out[at]);
    assert ReadUInt32LE(out, at + 12) == Success(offset);
    assert Slice(out, offset, offset + size) == img;
    var rest := ParseEntries(out, from + 1, count).value;
    assert ParseEntries(out, from, count) == Success([Parsed(out[at], img)] + rest);
  }

  /** Every entry of a successful output points at its image's bytes. */
  lemma EntriesPointAtImages(list: seq<Value>, out: seq<byte>, k: nat)
    requires Icon(list) == Success(out)
    requires k < |list|
    ensures PointsAt(out, k, Payload(list[k]))
  {
    IcoLayout.LayoutEntry(list, out, k);
    IcoLayout.LayoutPayload(list, out, k);
    EntryFields(list, out, k);
    PointsAtWindow(out, k, Offset(list, k), Length(list[k]), Payload(list[k]));
  }

  lemma PointsAtWindow(out: seq<byte>, k: nat, offset: nat, size: nat, img: seq<byte>)
    requires HeaderSize + EntrySize * k + EntrySize <= |out|
    requires DecodeU32LE(out, HeaderSize + EntrySize * k + 12) == offset
    requires DecodeU32LE(out, HeaderSize + EntrySize * k + 8) == size
    requires offset + size <= |out| && out[offset..offset + size] == img
    ensures PointsAt(out, k, img)
  {
  }

  /** A reader of a successful output visits exactly `|list|` entries. */
  lemma CountRoundTrip(list: seq<Value>, out: seq<byte>)
    requires Icon(list) == Success(out)
    ensures ParseIco(out) == ParseEntries(out, 0, |list|)
  {
    IcoLayout.LayoutHeader(list, out);
    assert out[4] == |list| % 0x100 && out[5] == |list| / 0x100;
    assert ReadUInt16LE(out, 4) == Success(|list|);
  }

  /** Reading a successful output gives one record per input image, holding
      that image's bytes, unchanged, and the width byte of its entry. */
  lemma DataRoundTrip(list: seq<Value>, out: seq<byte>)
    requires Icon(list) == Success(out)
    ensures ParseIco(out).Success?
    ensures |ParseIco(out).value| == |list|
    ensures forall i :: 0 <= i < |list| ==>
      ParseIco(out).value[i] == Parsed(out[HeaderSize + EntrySize * i], Payload(list[i]))
  {
    CountRoundTrip(list, out);
    var imgs := seq(|list|, i requires 0 <= i < |list| => Payload(list[i]));
    forall k | 0 <= k < |list|
      ensures PointsAt(out, k, imgs[k])
    {
      EntriesPointAtImages(list, out, k);
    }
    ParseEntriesFrom(out, 0, imgs);
    forall i | 0 <= i < |list|
      ensures ParseIco(out).value[i] == Parsed(out[HeaderSize + EntrySize * i], Payload(list[i]))
    {
      assert imgs[i] == Payload(list[i]);
      assert ParseIco(out).value[i] == ParseEntries(out, 0, |imgs|).value[i - 0];
    }
  }

  /** The round trip: reading a successful output gives back the input list
      itself, and each record's width byte is the encoded PNG dimension,
      which reads back as the dimension unless the PNG claims a width of 0. */
  lemma RoundTrip(list: seq<Value>, out: seq<byte>)
    requires Icon(list) == Success(out)
    ensures ParseIco(out).Success?
    ensures |ParseIco(out).value| == |list|
    ensures forall i :: 0 <= i < |list| ==> list[i] == Buf(ParseIco(out).value[i].data)
    ensures forall i :: 0 <= i < |list| ==>
      && Validate(list[i]).Success?
      && ParseIco(out).value[i].width == DimensionByte(Validate(list[i]).value.width)
    ensures forall i :: 0 <= i < |list| && Validate(list[i]).value.width > 0 ==>
      ReadDimension(ParseIco(out).value[i].width) == Validate(list[i]).value.width
  {
    DataRoundTrip(list, out);
    IcoLayout.LayoutEntries(list, out);
    IcoLayout.AllBuffers(list);
    var parsed := ParseIco(out).value;
    forall i | 0 <= i < |list|
      ensures list[i] == Buf(parsed[i].data)
      ensures Validate(list[i]).Success?
      ensures parsed[i].width == DimensionByte(Validate(list[i]).value.width)
    {
      EntryFields(list, out, i);
    }
  }
}
