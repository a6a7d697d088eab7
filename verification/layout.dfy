/** What the packer's output looks like: where every entry and every
    payload lies, that payload regions follow one another without gaps or
    overlap, and which error a failing list produces.
 */
module IcoLayout {
  import opened Outcomes
  import opened Bytes
  import opened Chunks
  import opened Ico

  /** The lengths of the first `i` images never exceed those of the first `j >= i`. */
  lemma {:induction false} SumLengthsMonotone(vs: seq<Value>, i: nat, j: nat)
    requires i <= j <= |vs|
    ensures SumLengths(vs[..i]) <= SumLengths(vs[..j])
    decreases j - i
  {
    if i < j {
      assert vs[..j][..j - 1] == vs[..j - 1];
      SumLengthsMonotone(vs, i, j - 1);
    }
  }

  /** Image `i` ends exactly where image `i + 1` starts. */
  lemma Contiguous(list: seq<Value>, i: nat)
    requires i < |list|
    ensures Offset(list, i) + Length(list[i]) == Offset(list, i + 1)
  {
    assert list[..i + 1][..i] == list[..i];
  }

  /** Payload regions of distinct images never overlap, and they lie in list order. */
  lemma Disjoint(list: seq<Value>, i: nat, j: nat)
    requires i < j < |list|
    ensures Offset(list, i) + Length(list[i]) <= Offset(list, j)
  {
    Contiguous(list, i);
    SumLengthsMonotone(list, i + 1, j);
  }

  /** The map callback agrees with `iconDirEntry` inside the list. */
  lemma CallbackIsEntry(list: seq<Value>)
    ensures forall i :: 0 <= i < |list| ==> EntryCallback(list)(i) == IconDirEntry(list, i)
  {
  }

  /** The packer succeeds exactly when the count fits 16 bits and every entry can be built. */
  lemma IconSuccess(list: seq<Value>)
    ensures Icon(list).Success? <==>
      |list| < U16Bound && forall i :: 0 <= i < |list| ==> IconDirEntry(list, i).Success?
  {
    MapResultsSuccess(EntryCallback(list), 0, |list|);
    CallbackIsEntry(list);
  }

  /** Which error the packer reports: a count overflow before anything else,
      otherwise the error of the first image, in list order, whose entry
      cannot be built. */
  lemma IconFailure(list: seq<Value>, e: PackError)
    ensures Icon(list) == Failure(e) <==>
      if |list| >= U16Bound then e == OutOfRange
      else exists i :: 0 <= i < |list| && IconDirEntry(list, i) == Failure(e)
                       && forall j :: 0 <= j < i ==> IconDirEntry(list, j).Success?
  {
    MapResultsFailure(EntryCallback(list), 0, |list|, e);
    CallbackIsEntry(list);
  }

  /** Only a Buffer gets an entry. */
  lemma EntryIsBuffer(list: seq<Value>, i: nat)
    requires i < |list| && IconDirEntry(list, i).Success?
    ensures list[i].Buf?
  {
    assert Validate(list[i]).Success?;
  }

  /** Every element of a list that packs is a Buffer. */
  lemma AllBuffers(list: seq<Value>)
    requires Icon(list).Success?
    ensures forall i :: 0 <= i < |list| ==> list[i].Buf?
  {
    IconSuccess(list);
    forall i | 0 <= i < |list|
      ensures list[i].Buf?
    {
      EntryIsBuffer(list, i);
    }
  }

  /** A successful output unfolds into the directory's buffers and the images. */
  lemma Parts(list: seq<Value>, out: seq<byte>)
    requires Icon(list) == Success(out)
    ensures IconDir(list).Success?
    ensures out == Concat(IconDir(list).value + Images(list))
  {
  }

  /** The entries of a list whose every entry can be built. */
  function EntryBuffers(list: seq<Value>): (r: seq<seq<byte>>)
    requires forall i :: 0 <= i < |list| ==> IconDirEntry(list, i).Success?
    ensures |r| == |list|
    ensures forall i :: 0 <= i < |list| ==> IconDirEntry(list, i) == Success(r[i])
  {
    seq(|list|, i requires 0 <= i < |list| => IconDirEntry(list, i).value)
  }

  /** A successful output is, byte for byte, the header for `|list|`
      images, then the entry of every image in list order, then every
      image's bytes in list order. */
  lemma OutputParts(list: seq<Value>, out: seq<byte>)
    requires Icon(list) == Success(out)
    ensures IconDirHeader(|list|).Success?
    ensures forall i :: 0 <= i < |list| ==> IconDirEntry(list, i).Success?
    ensures out == Concat([IconDirHeader(|list|).value] + EntryBuffers(list) + Images(list))
  {
    Parts(list, out);
    DirectoryParts(list);
  }

  /** A built directory is the header followed by every entry. */
  lemma DirectoryParts(list: seq<Value>)
    requires IconDir(list).Success?
    ensures IconDirHeader(|list|).Success?
    ensures forall i :: 0 <= i < |list| ==> IconDirEntry(list, i).Success?
    ensures IconDir(list).value == [IconDirHeader(|list|).value] + EntryBuffers(list)
  {
    var dir := IconDir(list).value;
    forall i | 0 <= i < |list|
      ensures IconDirEntry(list, i) == Success(dir[1 + i])
    {
      DirectoryEntry(list, i);
    }
    var entries := EntryBuffers(list);
    assert dir[1..] == entries by {
      forall i | 0 <= i < |list|
        ensures dir[1..][i] == entries[i]
      {
        assert IconDirEntry(list, i) == Success(dir[1 + i]);
      }
    }
    assert dir == [dir[0]] + dir[1..];
  }

  /** Behind one 6-byte buffer and 16-byte buffers, buffer `1 + i` starts at `6 + 16 * i`. */
  lemma BeforeEntry(chunks: seq<seq<byte>>, i: nat)
    requires 1 + i <= |chunks|
    requires |chunks[0]| == HeaderSize
    requires forall k :: 1 <= k < 1 + i ==> |chunks[k]| == EntrySize
    ensures TotalLength(chunks[..1 + i]) == HeaderSize + EntrySize * i
  {
    var entries := chunks[1..1 + i];
    var one := [chunks[0]];
    assert chunks[..1 + i] == one + entries;
    forall k | 0 <= k < |entries|
      ensures |entries[k]| == EntrySize
    {
      assert entries[k] == chunks[1 + k];
    }
    UniformTotal(entries, EntrySize);
    ConcatAppend(one, entries);
    assert one[..0] == [];
  }

  /** Behind a directory, image `i` starts at the directory's length plus
      the lengths of images `0..i-1`. */
  lemma BeforeImage(list: seq<Value>, dir: seq<seq<byte>>, i: nat)
    requires i < |list|
    requires TotalLength(dir) == HeaderSize + EntrySize * |list|
    ensures TotalLength((dir + Images(list))[..|dir| + i]) == Offset(list, i)
  {
    var imgs := Images(list);
    assert (dir + imgs)[..|dir| + i] == dir + imgs[..i];
    ImagesPrefix(list, i);
    ConcatAppend(dir, imgs[..i]);
    SumLengthsImages(list[..i]);
  }

  /** The buffers of a directory: a 6-byte header, then one 16-byte entry per image. */
  predicate DirectoryShape(dir: seq<seq<byte>>)
  {
    && 1 <= |dir|
    && |dir[0]| == HeaderSize
    && forall k :: 1 <= k < |dir| ==> |dir[k]| == EntrySize
  }

  lemma DirectoryHasShape(list: seq<Value>, dir: seq<seq<byte>>)
    requires IconDir(list) == Success(dir)
    ensures DirectoryShape(dir) && |dir| == 1 + |list|
    ensures TotalLength(dir) == HeaderSize + EntrySize * |list|
  {
    forall k | 1 <= k < |dir|
      ensures |dir[k]| == EntrySize
    {
      DirectoryEntry(list, k - 1);
    }
    DirectoryLength(list, dir);
  }

  /** Behind a directory, entry `i` lies at `6 + 16 * i`. */
  lemma EntriesInOutput(dir: seq<seq<byte>>, imgs: seq<seq<byte>>)
    requires DirectoryShape(dir)
    ensures forall i :: 0 <= i < |dir| - 1 ==>
      && HeaderSize + EntrySize * i + EntrySize <= |Concat(dir + imgs)|
      && Concat(dir + imgs)[HeaderSize + EntrySize * i..HeaderSize + EntrySize * i + EntrySize] == dir[1 + i]
  {
    forall i | 0 <= i < |dir| - 1
      ensures HeaderSize + EntrySize * i + EntrySize <= |Concat(dir + imgs)|
      ensures Concat(dir + imgs)[HeaderSize + EntrySize * i..HeaderSize + EntrySize * i + EntrySize] == dir[1 + i]
    {
      var chunks := dir + imgs;
      assert forall k :: 1 <= k < 1 + i ==> chunks[k] == dir[k];
      BeforeEntry(chunks, i);
      ChunkAt(chunks, 1 + i);
    }
  }

  /** Behind a directory of `6 + 16 * |list|` bytes, image `i` lies at `Offset(list, i)`. */
  lemma PayloadsInOutput(list: seq<Value>, dir: seq<seq<byte>>)
    requires TotalLength(dir) == HeaderSize + EntrySize * |list|
    ensures forall i :: 0 <= i < |list| ==>
      && Offset(list, i) + Length(list[i]) <= |Concat(dir + Images(list))|
      && Concat(dir + Images(list))[Offset(list, i)..Offset(list, i) + Length(list[i])] == Payload(list[i])
  {
    forall i | 0 <= i < |list|
      ensures Offset(list, i) + Length(list[i]) <= |Concat(dir + Images(list))|
      ensures Concat(dir + Images(list))[Offset(list, i)..Offset(list, i) + Length(list[i])] == Payload(list[i])
    {
      PayloadInOutput(list, dir, i);
    }
  }

  lemma PayloadInOutput(list: seq<Value>, dir: seq<seq<byte>>, i: nat)
    requires TotalLength(dir) == HeaderSize + EntrySize * |list|
    requires i < |list|
    ensures Offset(list, i) + Length(list[i]) <= |Concat(dir + Images(list))|
    ensures Concat(dir + Images(list))[Offset(list, i)..Offset(list, i) + Length(list[i])] == Payload(list[i])
  {
    var chunks := dir + Images(list);
    ImagesAt(list, i);
    assert chunks[|dir| + i] == Payload(list[i]);
    BeforeImage(list, dir, i);
    ChunkAt(chunks, |dir| + i);
  }

  /** A successful output starts with the header for `|list|` images. */
  lemma LayoutHeader(list: seq<Value>, out: seq<byte>)
    requires Icon(list) == Success(out)
    ensures |list| < U16Bound
    ensures out[..HeaderSize] == [0, 0, 2, 0, |list| % 0x100, |list| / 0x100]
  {
    Parts(list, out);
    var chunks := IconDir(list).value + Images(list);
    ChunkAt(chunks, 0);
    assert chunks[..0] == [];
  }

  /** A successful output has entry `i` at `6 + 16 * i`. */
  lemma LayoutEntries(list: seq<Value>, out: seq<byte>)
    requires Icon(list) == Success(out)
    ensures forall i :: 0 <= i < |list| ==>
      && IconDirEntry(list, i).Success?
      && HeaderSize + EntrySize * i + EntrySize <= |out|
      && out[HeaderSize + EntrySize * i..HeaderSize + EntrySize * i + EntrySize] == IconDirEntry(list, i).value
  {
    Parts(list, out);
    var dir := IconDir(list).value;
    DirectoryHasShape(list, dir);
    EntriesInOutput(dir, Images(list));
    forall i | 0 <= i < |list|
      ensures IconDirEntry(list, i) == Success(dir[1 + i])
    {
      DirectoryEntry(list, i);
    }
  }

  /** In a successful output, image `i` lies unchanged at `Offset(list, i)`. */
  lemma LayoutPayloads(list: seq<Value>, out: seq<byte>)
    requires Icon(list) == Success(out)
    ensures forall i :: 0 <= i < |list| ==>
      && Offset(list, i) + Length(list[i]) <= |out|
      && out[Offset(list, i)..Offset(list, i) + Length(list[i])] == Payload(list[i])
  {
    Parts(list, out);
    DirectoryHasShape(list, IconDir(list).value);
    PayloadsInOutput(list, IconDir(list).value);
  }

  /** Entry `i` of a successful output, on its own. */
  lemma LayoutEntry(list: seq<Value>, out: seq<byte>, i: nat)
    requires Icon(list) == Success(out)
    requires i < |list|
    ensures IconDirEntry(list, i).Success?
    ensures HeaderSize + EntrySize * i + EntrySize <= |out|
    ensures out[HeaderSize + EntrySize * i..HeaderSize + EntrySize * i + EntrySize] == IconDirEntry(list, i).value
  {
    LayoutEntries(list, out);
  }

  /** Image `i` of a successful output, on its own. */
  lemma LayoutPayload(list: seq<Value>, out: seq<byte>, i: nat)
    requires Icon(list) == Success(out)
    requires i < |list|
    ensures Offset(list, i) + Length(list[i]) <= |out|
    ensures out[Offset(list, i)..Offset(list, i) + Length(list[i])] == Payload(list[i])
  {
    LayoutPayloads(list, out);
  }
}
