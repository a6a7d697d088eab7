/** Lists of byte buffers and their concatenation (`Buffer.concat`):
    in the concatenation, buffer `i` starts right after buffers `0..i-1`.
 */
module Chunks {
  import opened Bytes

  /** The summed length of the buffers, added up left to right. */
  function TotalLength(cs: seq<seq<byte>>): nat
  {
    if |cs| == 0 then 0 else TotalLength(cs[..|cs| - 1]) + |cs[|cs| - 1]|
  }

  /** `Buffer.concat(cs)`: the buffers one after another. */
  function Concat(cs: seq<seq<byte>>): (r: seq<byte>)
    ensures |r| == TotalLength(cs)
  {
    if |cs| == 0 then [] else Concat(cs[..|cs| - 1]) + cs[|cs| - 1]
  }

  /** Concatenating two lists of buffers concatenates their concatenations. */
  lemma {:induction false} ConcatAppend(a: seq<seq<byte>>, b: seq<seq<byte>>)
    ensures Concat(a + b) == Concat(a) + Concat(b)
    ensures TotalLength(a + b) == TotalLength(a) + TotalLength(b)
    decreases |b|
  {
    if |b| == 0 {
      assert a + b == a;
    } else {
      var init := b[..|b| - 1];
      assert (a + b)[..|a + b| - 1] == a + init;
      ConcatAppend(a, init);
    }
  }

  /** Buffers all of length `n` add up to `n` times their number. */
  lemma {:induction false} UniformTotal(cs: seq<seq<byte>>, n: nat)
    requires forall k :: 0 <= k < |cs| ==> |cs[k]| == n
    ensures TotalLength(cs) == n * |cs|
    decreases |cs|
  {
    if |cs| > 0 {
      UniformTotal(cs[..|cs| - 1], n);
      assert n * |cs| == n * (|cs| - 1) + n;
    }
  }

  /** Buffer `i` lies, unchanged, at the summed length of the buffers before it. */
  lemma ChunkAt(cs: seq<seq<byte>>, i: nat)
    requires i < |cs|
    ensures TotalLength(cs[..i]) + |cs[i]| <= |Concat(cs)|
    ensures Concat(cs)[TotalLength(cs[..i])..TotalLength(cs[..i]) + |cs[i]|] == cs[i]
  {
    var before := cs[..i];
    var after := cs[i + 1..];
    assert cs == (before + [cs[i]]) + after;
    ConcatAppend(before + [cs[i]], after);
    ConcatAppend(before, [cs[i]]);
    var one: seq<seq<byte>> := [cs[i]];
    assert one[..0] == [];
    assert Concat(one) == cs[i];
    var prefix := Concat(before);
    assert Concat(cs) == prefix + cs[i] + Concat(after);
    assert |prefix| == TotalLength(before);
  }
}
