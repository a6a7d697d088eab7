# ico-packer in Dafny

A model of `index.js` of ico-packer. The packer takes a list of PNG buffers
and returns one ICO file holding them:

- a 6-byte ICONDIR header: reserved 0, image type, image count;
- one 16-byte ICONDIRENTRY per image, holding the dimension byte, zeros, the
  image's byte size and the offset of its data in the file;
- the PNG buffers themselves, unchanged and in list order.

Before an entry is written, each image is checked. It must be a Buffer,
start with the PNG signature, have an IHDR that is square, be at most 256
pixels wide, and use colour type 6 (truecolour with alpha).

The model is functional. Bytes are `int`s in `0..255` and buffers are
sequences of them. Every exception the packer can raise is a `PackError`
inside a `Result`:

- the five explicit validation errors;
- `OutOfRange` for the range errors of Node's checked buffer reads and
  writes.

The test suite's `parseICO` reader is modelled as well. It lets the model
state the round trip: reading a packed file gives back every input image.

Modules, one per file:

- `Outcomes` (outcomes.dfy): the errors, `Result`, and `list.map` with a
  callback that may throw.
- `Bytes` (bytes.dfy): little- and big-endian integers, plus Node's checked
  `readUInt*` / `writeUInt*`.
- `Chunks` (chunks.dfy): `Buffer.concat` and where each buffer lands in it.
- `Png` (png.dfy): the signature check and the IHDR reader `ihdr`.
- `Ico` (ico.dfy): `sumLengths`, `iconDirHeader`, `iconDirEntry`, `iconDir`
  and `icon`.
- `IcoLayout` (layout.dfy): where header, entries and payloads lie in the
  output, and which error a failing list produces.
- `IcoParse` (parse.dfy): `parseICO` and the round trip.
- `IcoScenarios` (scenarios.dfy): the test suite's cases, stated for every
  PNG that carries the fixture's IHDR. The two cases that pack successfully
  also bound the bytes after the first 26 to fewer than 2^28 - 26.

## Model

| member | source | states |
|---|---|---|
| Bytes.ReadUInt8 | index.js:13-14 | a byte read succeeds exactly when the position is inside the buffer and returns the byte there; otherwise it is a range error |
| Bytes.ReadUInt32BE | index.js:11-12 | a big-endian u32 read succeeds exactly when 4 bytes are available; the value is below 2^32 and its big-endian encoding is the 4 bytes read |
| Bytes.ReadUInt16LE | index.test.js:15 | a little-endian u16 read succeeds exactly when 2 bytes are available; the value is below 2^16 and re-encodes to the bytes read |
| Bytes.ReadUInt32LE | index.test.js:18-19 | a little-endian u32 read succeeds exactly when 4 bytes are available; the value is below 2^32 and re-encodes to the bytes read |
| Bytes.WriteUInt16LE | index.js:24-26 | a u16 write succeeds exactly for values below 2^16 and stores 2 bytes that decode back to the value; otherwise a range error |
| Bytes.WriteUInt32LE | index.js:70-71 | a u32 write succeeds exactly for values below 2^32 and stores 4 bytes that decode back to the value; otherwise a range error |
| Outcomes.MapResults | index.js:78 | a successful map has one result per position; MapResultsAt, MapResultsSuccess and MapResultsFailure say which |
| Outcomes.MapResultsAt | index.js:78 | element k of a successful map is the callback's value at k |
| Outcomes.MapResultsSuccess | index.js:78 | a map succeeds exactly when the callback succeeds at every position |
| Outcomes.MapResultsFailure | index.js:78 | a map fails with e exactly when the first failing position fails with e |
| Chunks.Concat | index.js:86-89 | `Buffer.concat` is as long as all its buffers together; ConcatAppend and ChunkAt say where each buffer lands |
| Chunks.ConcatAppend | index.js:86-89 | concatenating two lists of buffers concatenates their concatenations, and their lengths add up |
| Chunks.ChunkAt | index.js:86-89 | buffer i appears unchanged in the concatenation, starting at the total length of buffers 0..i-1 |
| Png.HasSignatureBytes | index.js:36-37 | the signature check `HasSignature` (a clamped 8-byte slice compared with `PNG_HEADER`) passes exactly when the buffer has at least 8 bytes and they are 137 80 78 71 13 10 26 10 |
| Png.ReadIhdr | index.js:10-15 | reading IHDR succeeds exactly when the buffer has more than 25 bytes; a shorter buffer is a range error; width and height fit 32 bits |
| Png.IhdrFields | index.js:10-15 | the width and height read are the big-endian u32s at 16 and 20; bit depth and colour type are the bytes at 24 and 25 |
| Png.ReadHead | index.js:10-15 | any buffer that starts with signature, IHDR length, type and fields h passes the signature check and has IHDR h |
| Ico.SumLengthsImages | index.js:17-18 | `SumLengths`, the `sumLengths` fold over the list, equals the total length of the buffers that the output concatenates |
| Ico.Images | index.js:88 | the list spreads into one buffer per element; ImagesAt says which |
| Ico.ImagesAt | index.js:88 | the i-th buffer concatenated after the directory is image i's bytes |
| Ico.IconDirHeader | index.js:22-28 | the header is [0,0, 2,0, N mod 256, N div 256]; its three u16 fields decode to 0, 2 and N; N of 2^16 or more is a range error |
| Ico.Validate | index.js:31-52 | an accepted element is a Buffer that starts with the PNG signature and whose IHDR is square, at most 256 wide, with colour type 6 |
| Ico.ValidationOrder | index.js:32-52 | each error is reported exactly when its check is the first one, in the order `iconDirEntry` makes them, that the element fails: not a Buffer, bad signature, IHDR past the end, not square, wider than 256, colour type not 6 |
| Ico.DimensionByte | index.js:46-47 | the dimension byte is 0 exactly for dimensions 0 and 256, equals d for 0 < d < 256, and reads back (0 as 256) as d for every d > 0 |
| Ico.IconDirEntry | index.js:31-73 | an entry is built exactly when the element validates and its size and offset fit 32 bits; a validation error is passed on unchanged, and an oversized size or offset is a range error; an entry is 16 bytes |
| Ico.EntryFieldsOf | index.js:54-72 | a built entry holds the dimension byte twice, six zero bytes (palette, reserved, planes, bits per pixel), the image's byte length as u32 LE at 8, and 6 + 16N + the lengths of images 0..i-1 as u32 LE at 12 |
| Ico.Entries | index.js:78 | `list.map(iconDirEntry)` gives one entry per image when it succeeds; EntriesAt says which |
| Ico.EntriesAt | index.js:78 | entry k of a successful map is the entry built for image k |
| Ico.IconDir | index.js:76-79 | a directory has 1 + N buffers and its first is the header for N images |
| Ico.DirectoryEntry | index.js:76-79 | buffer 1 + k of a directory is the entry of image k |
| Ico.DirectoryLength | index.js:76-79 | a directory is 6 + 16N bytes long in total |
| Ico.Icon | index.js:86-89 | an output is 6 + 16N + the sum of the image lengths bytes long |
| IcoLayout.SumLengthsMonotone | index.js:58 | the summed length of a shorter prefix never exceeds that of a longer one |
| IcoLayout.Contiguous | index.js:55-59 | image i ends exactly where image i + 1 starts |
| IcoLayout.Disjoint | index.js:55-59 | for i < j, image i ends at or before image j starts, so payload regions never overlap |
| IcoLayout.IconSuccess | index.js:76-89 | packing succeeds exactly when N is below 2^16 and every entry can be built |
| IcoLayout.IconFailure | index.js:76-89 | packing fails with e exactly when N is 2^16 or more and e is the range error, or else the first image whose entry fails fails with e |
| IcoLayout.EntryIsBuffer | index.js:32-33 | only a Buffer gets an entry |
| IcoLayout.AllBuffers | index.js:32-33 | every element of a list that packs is a Buffer |
| IcoLayout.DirectoryParts | index.js:76-79 | a built directory is exactly the header for N followed by the entry of every image, in list order |
| IcoLayout.OutputParts | index.js:76-89 | a packed output is exactly the concatenation of the header for N, the entry of every image in list order, and every image's bytes in list order |
| IcoLayout.BeforeImage | index.js:55-59 | `Offset`, the offset computed for image i, is exactly where the concatenation places image i behind a directory of 6 + 16N bytes |
| IcoLayout.LayoutHeader | index.js:22-27 | a packed output starts with [0,0, 2,0, N mod 256, N div 256], with N below 2^16 |
| IcoLayout.LayoutEntries | index.js:76-79 | in a packed output, entry i lies at 6 + 16i, for every i |
| IcoLayout.LayoutPayloads | index.js:86-89 | in a packed output, image i lies unchanged at its offset, for every i |
| IcoLayout.LayoutEntry | index.js:76-79 | one entry i of a packed output lies at 6 + 16i |
| IcoLayout.LayoutPayload | index.js:86-89 | one image i of a packed output lies unchanged at its offset |
| IcoParse.Slice | index.test.js:19 | a slice inside the buffer is the subsequence, and a slice starting at or past the end is empty |
| IcoParse.SliceClamps | index.test.js:19 | a slice whose end is past the buffer runs to the buffer's end, and a slice whose end is at or before its start is empty |
| IcoParse.ParseEntries | index.test.js:15-21 | reading entries index..count-1 yields one record per entry and needs all of them inside the buffer |
| IcoParse.ParseIco | index.test.js:14-22 | a read file yields as many records as the u16 count at byte 4 says |
| IcoParse.EntryFields | index.js:63-71 | in a packed output, entry k's width byte is the dimension byte, its u32 at 8 is image k's length and its u32 at 12 is image k's offset |
| IcoParse.ParseEntriesFrom | index.test.js:15-21 | when every entry points at its image's bytes, reading entries from `from` on yields those images with each entry's width byte |
| IcoParse.EntriesPointAtImages | index.test.js:16-19 | every entry of a packed output points at its image's bytes |
| IcoParse.CountRoundTrip | index.test.js:15 | a reader of a packed output visits exactly N entries |
| IcoParse.DataRoundTrip | index.test.js:41-48 | reading a packed output gives one record per image, holding that image's bytes unchanged |
| IcoParse.RoundTrip | index.test.js:14-22 | reading a packed output gives back the input list itself; each width byte is the image's dimension byte, and reads back as the PNG width unless that width is 0 |
| IcoScenarios.SquareIsValid | index.js:31-52 | a square truecolour-with-alpha PNG with side 1..256 passes every check |
| IcoScenarios.EmptyList | index.js:86-89 | packing the empty list gives exactly [0,0, 2,0, 0,0] |
| IcoScenarios.TooLargeRejected | index.test.js:50-54 | a 288x288 PNG is rejected as too large |
| IcoScenarios.PaletteRejected | index.test.js:56-60 | a 32x32 colour-type-3 PNG is rejected for its colour type |
| IcoScenarios.SmallDimensions | index.test.js:24-31 | a 16x16 and a 32x32 PNG read back with widths 16 and 32, data unchanged, the second after the first |
| IcoScenarios.Dimension256 | index.test.js:33-39 | a 256x256 PNG reads back with width byte 0 and its data unchanged |

## Left out

- `require('fs')` (index.js:1) is unused by the packer and is I/O.
- The test suite's fixture loading (index.test.js:9-11) and the tape harness
  are left out. The fixtures are not part of this model. The scenarios
  quantify over every PNG whose first 26 bytes are a signature plus an IHDR
  with the fixture's side, bit depth 8 and the stated colour type.
  SmallDimensions and Dimension256 also require the bytes after those 26 to
  be fewer than 2^28 - 26. That keeps every size and offset far below 2^32.
- Error messages are not modelled. Each `throw new Error(...)` is a
  `PackError` variant, and Node's `RangeError` is `OutOfRange`.
- `Buffer.concat` raises an error when the result would exceed Node's
  maximum buffer length. That limit is platform-dependent and is not
  modelled.
- JavaScript numbers are doubles, so `sumLengths` is exact only up to 2^53.
  The model adds unbounded integers instead. Any offset at or above 2^32 is
  already a range error in both.
- `sumLengths` of an element that is not a Buffer uses that element's own
  `length`, and the model counts it as 0. This is never observable: an
  image's offset sums only earlier elements, and `map` has already thrown
  at the first earlier non-Buffer.
- Node's `Buffer.isBuffer` is the `Buf`/`NotBuf` split of `Value`. What
  other runtime value a non-Buffer is does not matter to the packer.
- PNG pixel data, CRCs and chunk walking are left out. The packer reads only
  fixed offsets and copies payloads through unchanged. The bit depth it
  reads is never checked, and neither is the model's.
- The code's quirks are kept as written, not corrected:
  - the header's image type is 2, which means cursor in ICO, although the
    code's comment says 1 for icon;
  - colour planes and bits per pixel are 0;
  - a PNG of width 0 is accepted and written with dimension byte 0, which
    readers take as 256.
