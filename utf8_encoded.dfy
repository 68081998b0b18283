/**
 * Strings assembled from encoded codepoints, one after another, the way the
 * test programs write their literals.  For such a string the index
 * functions agree with the codepoint list: length() is the number of
 * codepoints, at(k) decodes the k-th one, and the bytes between two
 * codepoint offsets are the chunks of the codepoints in between.
 */
module Utf8Encoded {
  import opened Wrappers
  import opened Utf8Decode
  import opened Utf8Index

  /**
   * chunk is exactly one encoded codepoint v: a lead byte, continuation
   * bytes only after it, and a decode at 0 that consumes all of it.
   */
  ghost predicate Encodes(chunk: seq<byte>, v: int) {
    && 1 <= |chunk|
    && !IsFragment(chunk[0])
    && (forall i :: 1 <= i < |chunk| ==> IsFragment(chunk[i]))
    && DecodeAt(chunk, 0) == Success((v, |chunk|))
  }

  /** Encode produces such a chunk for every value below 2^31. */
  lemma EncodeEncodes(v: nat)
    requires v < 0x8000_0000
    ensures Encodes(Encode(v), v)
  {
    EncodeShape(v);
    DecodeEncode(v);
  }

  /** The bytes of the chunks, first to last. */
  function Flatten(chunks: seq<seq<byte>>): (r: seq<byte>) {
    if chunks == [] then [] else Flatten(chunks[..|chunks| - 1]) + chunks[|chunks| - 1]
  }

  /** chunks[i] encodes cps[i] for every i. */
  ghost predicate EncodesAll(chunks: seq<seq<byte>>, cps: seq<int>) {
    |chunks| == |cps| && forall i :: 0 <= i < |chunks| ==> Encodes(chunks[i], cps[i])
  }

  lemma FlattenSnoc(x: seq<seq<byte>>, c: seq<byte>)
    ensures Flatten(x + [c]) == Flatten(x) + c
  {
    assert (x + [c])[..|x + [c]| - 1] == x;
  }

  /** Flatten maps concatenation of chunk lists to concatenation of bytes. */
  lemma {:induction false} FlattenConcat(x: seq<seq<byte>>, y: seq<seq<byte>>)
    ensures Flatten(x + y) == Flatten(x) + Flatten(y)
    decreases |y|
  {
    if y == [] {
      assert x + y == x;
    } else {
      var y0, c := y[..|y| - 1], y[|y| - 1];
      assert y == y0 + [c];
      assert x + y == (x + y0) + [c];
      FlattenConcat(x, y0);
      FlattenSnoc(x + y0, c);
      FlattenSnoc(y0, c);
    }
  }

  /** A single chunk is one well-formed codepoint ending where the chunk ends. */
  lemma ChunkIndexes(e: seq<byte>, v: int)
    requires Encodes(e, v)
    ensures CodepointCount(e) == 1
    ensures Offset(e, 1) == |e|
    ensures WellFormed(e)
  {
    assert Next(e, 0) == |e|;
    SkipHasNoStarts(e, 0, |e|);
    assert StartsBelow(e, 1) == 1;
    forall j: nat | IsStart(e, j) ensures SpanDecodes(e, j) {
      assert j == 0;
    }
  }

  lemma {:induction false} FlattenWellFormed(chunks: seq<seq<byte>>, cps: seq<int>)
    requires EncodesAll(chunks, cps)
    ensures WellFormed(Flatten(chunks))
    ensures CodepointCount(Flatten(chunks)) == |cps|
    decreases |cps|
  {
    if cps != [] {
      var n := |cps| - 1;
      var E0, e := Flatten(chunks[..n]), chunks[n];
      assert Flatten(chunks) == E0 + e;
      assert EncodesAll(chunks[..n], cps[..n]) by {
        forall i | 0 <= i < n ensures Encodes(chunks[..n][i], cps[..n][i]) {
          assert Encodes(chunks[i], cps[i]);
        }
      }
      FlattenWellFormed(chunks[..n], cps[..n]);
      assert Encodes(e, cps[n]);
      ChunkIndexes(e, cps[n]);
      WellFormedConcat(E0, e);
      StartsBelowConcat(E0, e, |e|);
    }
  }

  lemma {:induction false} FlattenOffsets(chunks: seq<seq<byte>>, cps: seq<int>)
    requires EncodesAll(chunks, cps)
    ensures forall k :: 0 <= k <= |cps| ==> Offset(Flatten(chunks), k) == |Flatten(chunks[..k])|
    decreases |cps|
  {
    if cps == [] {
      assert chunks[..0] == [];
    } else {
      var n := |cps| - 1;
      EncodesAllPrefix(chunks, cps, n);
      FlattenOffsets(chunks[..n], cps[..n]);
      FlattenWellFormed(chunks[..n], cps[..n]);
      FlattenOffsetsStep(chunks, cps, chunks[..n]);
    }
  }

  /** The first n chunks encode the first n codepoints. */
  lemma EncodesAllPrefix(chunks: seq<seq<byte>>, cps: seq<int>, n: nat)
    requires EncodesAll(chunks, cps) && n <= |cps|
    ensures EncodesAll(chunks[..n], cps[..n])
  {
    forall i | 0 <= i < n
      ensures Encodes(chunks[..n][i], cps[..n][i])
    {
      assert Encodes(chunks[i], cps[i]);
    }
  }

  /** The offsets of all chunks from those of all but the last. */
  lemma FlattenOffsetsStep(chunks: seq<seq<byte>>, cps: seq<int>, init: seq<seq<byte>>)
    requires EncodesAll(chunks, cps) && |cps| > 0 && init == chunks[..|cps| - 1]
    requires CodepointCount(Flatten(init)) == |init|
    requires forall k :: 0 <= k <= |init| ==> Offset(Flatten(init), k) == |Flatten(init[..k])|
    ensures forall k :: 0 <= k <= |cps| ==> Offset(Flatten(chunks), k) == |Flatten(chunks[..k])|
  {
    var n := |cps| - 1;
    var E0, e := Flatten(init), chunks[n];
    assert chunks == init + [e];
    FlattenSnoc(init, e);
    assert Encodes(e, cps[n]);
    ChunkIndexes(e, cps[n]);
    forall k | 0 <= k <= |cps|
      ensures Offset(Flatten(chunks), k) == |Flatten(chunks[..k])|
    {
      SnocOffset(E0, e, k);
      if k <= n {
        assert chunks[..k] == init[..k];
      } else {
        assert chunks[..k] == chunks;
      }
    }
  }

  /** Offset k in a buffer followed by one more codepoint. */
  lemma SnocOffset(E0: seq<byte>, e: seq<byte>, k: nat)
    requires Joins(E0, e) && CodepointCount(e) == 1 && Offset(e, 1) == |e|
    requires k <= CodepointCount(E0) + 1
    ensures k <= CodepointCount(E0) ==> Offset(E0 + e, k) == Offset(E0, k)
    ensures k == CodepointCount(E0) + 1 ==> Offset(E0 + e, k) == |E0 + e|
  {
    ConcatOffsets(E0, e);
    if k == CodepointCount(E0) + 1 {
      assert Offset(E0 + e, CodepointCount(E0) + 1) == |E0| + Offset(e, 1);
    }
  }

  /** At the end of the first k chunks, the decoder finds the k-th codepoint. */
  lemma FlattenDecodesAt(chunks: seq<seq<byte>>, cps: seq<int>, k: nat)
    requires EncodesAll(chunks, cps) && k < |cps|
    ensures DecodeChar(Flatten(chunks), |Flatten(chunks[..k])|) == Success(cps[k])
  {
    var x, c, z := chunks[..k], chunks[k], chunks[k + 1..];
    assert chunks == (x + [c]) + z;
    var E0, E2 := Flatten(x), Flatten(z);
    FlattenSnoc(x, c);
    FlattenConcat(x + [c], z);
    assert Flatten(chunks) == (E0 + c) + E2;
    assert Encodes(c, cps[k]);
    DecodeShift(E0, c, 0);
    DecodeExtend(E0 + c, E2, |E0|);
    assert DecodeAt(Flatten(chunks), |E0|) == Success((cps[k], |c|));
  }

  /**
   * A string assembled from chunks encoding cps is well formed, has one
   * codepoint per chunk, puts the k-th codepoint at the byte offset where
   * the first k chunks end, and decodes back to cps[k] there.
   */
  lemma FlattenIndexes(chunks: seq<seq<byte>>, cps: seq<int>)
    requires EncodesAll(chunks, cps)
    ensures WellFormed(Flatten(chunks))
    ensures CodepointCount(Flatten(chunks)) == |cps|
    ensures forall k :: 0 <= k <= |cps| ==> Offset(Flatten(chunks), k) == |Flatten(chunks[..k])|
    ensures forall k :: 0 <= k < |cps| ==> DecodeChar(Flatten(chunks), Offset(Flatten(chunks), k)) == Success(cps[k])
  {
    FlattenWellFormed(chunks, cps);
    FlattenOffsets(chunks, cps);
    forall k | 0 <= k < |cps| ensures DecodeChar(Flatten(chunks), Offset(Flatten(chunks), k)) == Success(cps[k]) {
      FlattenDecodesAt(chunks, cps, k);
    }
  }

  /** The bytes between the offsets of codepoints a and b are the chunks a .. b - 1. */
  lemma FlattenSlice(chunks: seq<seq<byte>>, cps: seq<int>, a: nat, b: nat)
    requires EncodesAll(chunks, cps) && a <= b <= |cps|
    ensures Offset(Flatten(chunks), a) <= Offset(Flatten(chunks), b) <= |Flatten(chunks)|
    ensures Flatten(chunks)[Offset(Flatten(chunks), a)..Offset(Flatten(chunks), b)] == Flatten(chunks[a..b])
  {
    var x, y, z := chunks[..a], chunks[a..b], chunks[b..];
    assert chunks[..b] == x + y;
    assert chunks == chunks[..b] + z;
    var X, Y := Flatten(x), Flatten(y);
    assert Flatten(chunks[..b]) == X + Y by { FlattenConcat(x, y); }
    assert Flatten(chunks) == (X + Y) + Flatten(z) by { FlattenConcat(chunks[..b], z); }
    assert Offset(Flatten(chunks), a) == |X| && Offset(Flatten(chunks), b) == |X| + |Y| by {
      FlattenOffsets(chunks, cps);
    }
    assert ((X + Y) + Flatten(z))[|X|..|X| + |Y|] == Y;
  }

  /** The cut points os are ascending and inside data. */
  ghost predicate Ascending(data: seq<byte>, os: seq<nat>) {
    forall i, j :: 0 <= i <= j < |os| ==> os[i] <= os[j] <= |data|
  }

  /** The pieces of data between consecutive cut points. */
  function Cuts(data: seq<byte>, os: seq<nat>): (r: seq<seq<byte>>)
    requires Ascending(data, os)
    ensures |os| >= 1 ==> |r| == |os| - 1
  {
    if |os| <= 1 then []
    else seq(|os| - 1, i requires 0 <= i < |os| - 1 => data[os[i]..os[i + 1]])
  }

  /** Putting the pieces back together gives the bytes from the first cut to the last. */
  lemma {:induction false} FlattenCuts(data: seq<byte>, os: seq<nat>)
    requires Ascending(data, os) && |os| >= 1
    ensures Flatten(Cuts(data, os)) == data[os[0]..os[|os| - 1]]
    decreases |os|
  {
    var n := |os| - 1;
    if n > 0 {
      var os0 := os[..n];
      CutsSnoc(data, os);
      FlattenCuts(data, os0);
      FlattenSnoc(Cuts(data, os0), data[os[n - 1]..os[n]]);
      assert os[0] <= os[n - 1] <= os[n] <= |data|;
      assert data[os[0]..os[n]] == data[os[0]..os[n - 1]] + data[os[n - 1]..os[n]];
    }
  }

  /** One more cut point adds one piece at the end. */
  lemma CutsSnoc(data: seq<byte>, os: seq<nat>)
    requires Ascending(data, os) && |os| >= 2
    ensures Ascending(data, os[..|os| - 1])
    ensures Cuts(data, os) == Cuts(data, os[..|os| - 1]) + [data[os[|os| - 2]..os[|os| - 1]]]
  {
    var n := |os| - 1;
    var os0 := os[..n];
    forall i, j | 0 <= i <= j < |os0|
      ensures os0[i] <= os0[j] <= |data|
    {
      assert os0[i] == os[i] && os0[j] == os[j];
    }
    var C, C0 := Cuts(data, os), Cuts(data, os0);
    forall i | 0 <= i < n - 1
      ensures C[i] == C0[i]
    {
      assert os0[i] == os[i] && os0[i + 1] == os[i + 1];
    }
  }

  /** data cut at os, from its first byte to its last, into chunks encoding cps. */
  ghost predicate CutInto(data: seq<byte>, os: seq<nat>, cps: seq<int>) {
    && Ascending(data, os) && |os| >= 1 && os[0] == 0 && os[|os| - 1] == |data|
    && EncodesAll(Cuts(data, os), cps)
  }

  lemma CutFlattens(data: seq<byte>, os: seq<nat>, cps: seq<int>)
    requires CutInto(data, os, cps)
    ensures Flatten(Cuts(data, os)) == data
  {
    FlattenCuts(data, os);
    assert data[0..|data|] == data;
  }

  /** FlattenIndexes for a buffer given by its cut points. */
  lemma CutIndexes(data: seq<byte>, os: seq<nat>, cps: seq<int>)
    requires CutInto(data, os, cps)
    ensures WellFormed(data) && CodepointCount(data) == |cps|
    ensures forall k :: 0 <= k < |cps| ==> DecodeChar(data, Offset(data, k)) == Success(cps[k])
  {
    CutFlattens(data, os, cps);
    FlattenIndexes(Cuts(data, os), cps);
  }

  /** FlattenSlice for a buffer given by its cut points. */
  lemma CutSlice(data: seq<byte>, os: seq<nat>, cps: seq<int>, a: nat, b: nat)
    requires CutInto(data, os, cps) && a <= b <= |cps|
    ensures Offset(data, a) <= Offset(data, b) <= |data|
    ensures data[Offset(data, a)..Offset(data, b)] == Flatten(Cuts(data, os)[a..b])
  {
    CutFlattens(data, os, cps);
    FlattenSlice(Cuts(data, os), cps, a, b);
  }
}
