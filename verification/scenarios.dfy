/** The scenarios of the packer's test suite (index.test.js), stated for
    every PNG whose first 26 bytes carry the fixture's IHDR, whatever bytes
    follow them.
 */
module IcoScenarios {
  import opened Outcomes
  import opened Bytes
  import opened Chunks
  import opened Ico
  import Png
  import IcoLayout
  import IcoParse

  /** A square truecolour-with-alpha PNG of side `d`, followed by `rest`. */
  function Square(d: nat, rest: seq<byte>): (r: Value)
    requires d < U32Bound
    ensures r.Buf? && Png.ReadIhdr(r.bytes) == Success(Png.Ihdr(d, d, 8, TruecolorAlpha))
  {
    Png.ReadHead(Png.Ihdr(d, d, 8, TruecolorAlpha), rest);
    Buf(Png.Head(Png.Ihdr(d, d, 8, TruecolorAlpha)) + rest)
  }

  /** Such a PNG passes every check of the packer when `0 < d <= 256`. */
  lemma SquareIsValid(d: nat, rest: seq<byte>)
    requires 0 < d <= MaxDimension
    ensures Validate(Square(d, rest)) == Success(Png.Ihdr(d, d, 8, TruecolorAlpha))
  {
    Png.ReadHead(Png.Ihdr(d, d, 8, TruecolorAlpha), rest);
  }

  /** Packing nothing gives the bare header with count 0. */
  lemma EmptyList()
    ensures Icon([]) == Success([0, 0, 2, 0, 0, 0])
  {
    assert IconDirHeader(0) == Success([0, 0, 2, 0, 0, 0]);
    assert Entries([]) == Success([]);
    var header: seq<byte> := [0, 0, 2, 0, 0, 0];
    var dir: seq<seq<byte>> := [header];
    assert IconDirHeader(0) == Success(header);
    assert Entries([]) == Success([]);
    assert dir + [] == dir && dir[..0] == [];
    assert IconDir([]) == Success(dir);
    assert Images([]) == [];
    assert Concat(dir) == header;
  }

  /** A 288x288 PNG is rejected as too large, not as anything else. */
  lemma TooLargeRejected(rest: seq<byte>)
    ensures Icon([Square(288, rest)]) == Failure(TooLarge)
  {
    var list := [Square(288, rest)];
    assert Png.HasSignature(list[0].bytes) by {
      Png.ReadHead(Png.Ihdr(288, 288, 8, TruecolorAlpha), rest);
    }
    assert IconDirEntry(list, 0) == Failure(TooLarge);
    IcoLayout.IconFailure(list, TooLarge);
  }

  /** A 32x32 palette PNG (colour type 3) is rejected for its colour type. */
  lemma PaletteRejected(rest: seq<byte>)
    ensures Icon([Buf(Png.Head(Png.Ihdr(32, 32, 8, 3)) + rest)]) == Failure(WrongColorType)
  {
    var list := [Buf(Png.Head(Png.Ihdr(32, 32, 8, 3)) + rest)];
    Png.ReadHead(Png.Ihdr(32, 32, 8, 3), rest);
    assert IconDirEntry(list, 0) == Failure(WrongColorType);
    IcoLayout.IconFailure(list, WrongColorType);
  }

  /** One valid PNG of moderate size always packs. */
  lemma OnePacks(a: Value)
    requires Validate(a).Success? && Length(a) < 0x1000_0000
    ensures Icon([a]).Success?
  {
    var list := [a];
    assert list[..0] == [];
    assert IconDirEntry(list, 0).Success?;
    IcoLayout.IconSuccess(list);
  }

  /** Two valid PNGs of moderate size always pack. */
  lemma TwoPack(a: Value, b: Value)
    requires Validate(a).Success? && Length(a) < 0x1000_0000
    requires Validate(b).Success? && Length(b) < 0x1000_0000
    ensures Icon([a, b]).Success?
  {
    var list := [a, b];
    assert list[..0] == [] && list[..1] == [a];
    assert SumLengths(list[..1]) == Length(a);
    assert IconDirEntry(list, 0).Success? && IconDirEntry(list, 1).Success?;
    IcoLayout.IconSuccess(list);
  }

  /** Packing a 16x16 and a 32x32 PNG: the reader sees widths 16 and 32 and
      the two images unchanged, and the second starts after the first. */
  lemma SmallDimensions(rest16: seq<byte>, rest32: seq<byte>)
    requires |rest16| < 0x1000_0000 - 26 && |rest32| < 0x1000_0000 - 26
    ensures var list := [Square(16, rest16), Square(32, rest32)];
      && Icon(list).Success?
      && IcoParse.ParseIco(Icon(list).value)
         == Success([IcoParse.Parsed(16, list[0].bytes), IcoParse.Parsed(32, list[1].bytes)])
      && Offset(list, 0) < Offset(list, 1)
  {
    var list := [Square(16, rest16), Square(32, rest32)];
    SquareIsValid(16, rest16);
    SquareIsValid(32, rest32);
    TwoPack(list[0], list[1]);
    var out := Icon(list).value;
    IcoParse.RoundTrip(list, out);
    var parsed := IcoParse.ParseIco(out).value;
    assert parsed[0] == IcoParse.Parsed(16, list[0].bytes);
    assert parsed[1] == IcoParse.Parsed(32, list[1].bytes);
    assert parsed == [parsed[0], parsed[1]];
    IcoLayout.Contiguous(list, 0);
  }

  /** A 256x256 PNG is announced with width byte 0. */
  lemma Dimension256(rest: seq<byte>)
    requires |rest| < 0x1000_0000 - 26
    ensures Icon([Square(256, rest)]).Success?
    ensures IcoParse.ParseIco(Icon([Square(256, rest)]).value)
      == Success([IcoParse.Parsed(0, Square(256, rest).bytes)])
  {
    var list := [Square(256, rest)];
    SquareIsValid(256, rest);
    OnePacks(list[0]);
    var out := Icon(list).value;
    IcoParse.RoundTrip(list, out);
    var parsed := IcoParse.ParseIco(out).value;
    assert parsed[0] == IcoParse.Parsed(0, list[0].bytes);
    assert parsed == [parsed[0]];
  }
}
