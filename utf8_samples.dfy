/**
 * The strings of the utf8_string test program, and the values the test
 * program expects from at(), substdstr(), length(), size() and the
 * per-character reassembly, as consequences of the model. Each sample is
 * cut into the chunks of its codepoints; the chunk lemmas check the bytes,
 * and Utf8Encoded turns them into facts about the index functions.
 */
module Utf8Samples {
  import opened Wrappers
  import opened Utf8Decode
  import opened Utf8Index
  import opened Utf8Encoded
  import opened Utf8Strings

  lemma OneByte(c: seq<byte>, v: int)
    requires |c| == 1 && c[0] < 0x80 && v == c[0]
    ensures Encodes(c, v)
  {
  }

  lemma TwoBytes(c: seq<byte>, v: int)
    requires |c| == 2 && 0xC0 <= c[0] < 0xE0 && 0x80 <= c[1] < 0xC0
    requires v == (c[0] as int - 0xC0) * 64 + (c[1] as int - 0x80)
    ensures Encodes(c, v)
  {
  }

  lemma FourBytes(c: seq<byte>, v: int)
    requires |c| == 4 && c[0] == 0xF0 && c[1] == 0x9F && c[2] == 0x98 && 0x80 <= c[3] < 0xC0
    requires v == 0x1F600 + (c[3] as int - 0x80)
    ensures Encodes(c, v)
  {
  }

  /** Five emoji, U+1F600, U+1F601, U+1F602, U+1F604 and U+1F605, four bytes each. */
  const EMOJI: seq<byte> := [
    0xF0, 0x9F, 0x98, 0x80, 0xF0, 0x9F, 0x98, 0x81, 0xF0, 0x9F, 0x98, 0x82,
    0xF0, 0x9F, 0x98, 0x84, 0xF0, 0x9F, 0x98, 0x85]
  const EMOJI_CPS: seq<int> := [0x1F600, 0x1F601, 0x1F602, 0x1F604, 0x1F605]
  const EMOJI_CUTS: seq<nat> := [0, 4, 8, 12, 16, 20]

  lemma EmojiPieces()
    ensures EMOJI[0..4] == [0xF0, 0x9F, 0x98, 0x80]
    ensures EMOJI[4..8] == [0xF0, 0x9F, 0x98, 0x81]
    ensures EMOJI[8..12] == [0xF0, 0x9F, 0x98, 0x82]
    ensures EMOJI[12..16] == [0xF0, 0x9F, 0x98, 0x84]
    ensures EMOJI[16..20] == [0xF0, 0x9F, 0x98, 0x85]
  {
  }

  lemma EmojiCuts()
    ensures Ascending(EMOJI, EMOJI_CUTS)
    ensures Cuts(EMOJI, EMOJI_CUTS) == [[0xF0, 0x9F, 0x98, 0x80], [0xF0, 0x9F, 0x98, 0x81], [0xF0, 0x9F, 0x98, 0x82], [0xF0, 0x9F, 0x98, 0x84], [0xF0, 0x9F, 0x98, 0x85]]
  {
    EmojiPieces();
    assert Cuts(EMOJI, EMOJI_CUTS) == [EMOJI[0..4], EMOJI[4..8], EMOJI[8..12], EMOJI[12..16], EMOJI[16..20]];
  }

  lemma EmojiHasNoNul()
    ensures 0 !in EMOJI
  {
    EmojiPieces();
    assert EMOJI == EMOJI[0..4] + EMOJI[4..8] + EMOJI[8..12] + EMOJI[12..16] + EMOJI[16..20];
  }

  /** EMOJI cut at EMOJI_CUTS is the chunks of EMOJI_CPS, one per codepoint. */
  lemma EmojiEncodes()
    ensures CutInto(EMOJI, EMOJI_CUTS, EMOJI_CPS)
  {
    EmojiCuts();
    var C := Cuts(EMOJI, EMOJI_CUTS);
    forall i | 0 <= i < 5 ensures Encodes(C[i], EMOJI_CPS[i]) {
      if i == 0 { FourBytes([0xF0, 0x9F, 0x98, 0x80], 0x1F600); }
      else if i == 1 { FourBytes([0xF0, 0x9F, 0x98, 0x81], 0x1F601); }
      else if i == 2 { FourBytes([0xF0, 0x9F, 0x98, 0x82], 0x1F602); }
      else if i == 3 { FourBytes([0xF0, 0x9F, 0x98, 0x84], 0x1F604); }
      else { FourBytes([0xF0, 0x9F, 0x98, 0x85], 0x1F605); }
    }
  }

  /** "γειά, κόσμο!" in UTF-8: two bytes for each Greek letter. */
  const GREEK: seq<byte> := [
    0xCE, 0xB3, 0xCE, 0xB5, 0xCE, 0xB9, 0xCE, 0xAC, 0x2C, 0x20, 0xCE, 0xBA,
    0xCF, 0x8C, 0xCF, 0x83, 0xCE, 0xBC, 0xCE, 0xBF, 0x21]
  const GREEK_CPS: seq<int> := [0x3B3, 0x3B5, 0x3B9, 0x3AC, 0x2C, 0x20, 0x3BA, 0x3CC, 0x3C3, 0x3BC, 0x3BF, 0x21]
  const GREEK_CUTS: seq<nat> := [0, 2, 4, 6, 8, 9, 10, 12, 14, 16, 18, 20, 21]

  lemma GreekPieces()
    ensures GREEK[0..2] == [0xCE, 0xB3]
    ensures GREEK[2..4] == [0xCE, 0xB5]
    ensures GREEK[4..6] == [0xCE, 0xB9]
    ensures GREEK[6..8] == [0xCE, 0xAC]
    ensures GREEK[8..9] == [0x2C]
    ensures GREEK[9..10] == [0x20]
    ensures GREEK[10..12] == [0xCE, 0xBA]
    ensures GREEK[12..14] == [0xCF, 0x8C]
    ensures GREEK[14..16] == [0xCF, 0x83]
    ensures GREEK[16..18] == [0xCE, 0xBC]
    ensures GREEK[18..20] == [0xCE, 0xBF]
    ensures GREEK[20..21] == [0x21]
  {
  }

  lemma GreekCuts()
    ensures Ascending(GREEK, GREEK_CUTS)
    ensures Cuts(GREEK, GREEK_CUTS) == [[0xCE, 0xB3], [0xCE, 0xB5], [0xCE, 0xB9], [0xCE, 0xAC], [0x2C], [0x20], [0xCE, 0xBA], [0xCF, 0x8C], [0xCF, 0x83], [0xCE, 0xBC], [0xCE, 0xBF], [0x21]]
  {
    GreekPieces();
    assert Cuts(GREEK, GREEK_CUTS) == [GREEK[0..2], GREEK[2..4], GREEK[4..6], GREEK[6..8], GREEK[8..9], GREEK[9..10], GREEK[10..12], GREEK[12..14], GREEK[14..16], GREEK[16..18], GREEK[18..20], GREEK[20..21]];
  }

  lemma GreekHasNoNul()
    ensures 0 !in GREEK
  {
    GreekPieces();
    assert GREEK == GREEK[0..2] + GREEK[2..4] + GREEK[4..6] + GREEK[6..8] + GREEK[8..9] + GREEK[9..10] + GREEK[10..12] + GREEK[12..14] + GREEK[14..16] + GREEK[16..18] + GREEK[18..20] + GREEK[20..21];
  }

  /** GREEK cut at GREEK_CUTS is the chunks of GREEK_CPS, one per codepoint. */
  lemma GreekEncodes()
    ensures CutInto(GREEK, GREEK_CUTS, GREEK_CPS)
  {
    GreekCuts();
    var C := Cuts(GREEK, GREEK_CUTS);
    forall i | 0 <= i < 12 ensures Encodes(C[i], GREEK_CPS[i]) {
      if i == 0 { TwoBytes([0xCE, 0xB3], 0x3B3); }
      else if i == 1 { TwoBytes([0xCE, 0xB5], 0x3B5); }
      else if i == 2 { TwoBytes([0xCE, 0xB9], 0x3B9); }
      else if i == 3 { TwoBytes([0xCE, 0xAC], 0x3AC); }
      else if i == 4 { OneByte([0x2C], 0x2C); }
      else if i == 5 { OneByte([0x20], 0x20); }
      else if i == 6 { TwoBytes([0xCE, 0xBA], 0x3BA); }
      else if i == 7 { TwoBytes([0xCF, 0x8C], 0x3CC); }
      else if i == 8 { TwoBytes([0xCF, 0x83], 0x3C3); }
      else if i == 9 { TwoBytes([0xCE, 0xBC], 0x3BC); }
      else if i == 10 { TwoBytes([0xCE, 0xBF], 0x3BF); }
      else { OneByte([0x21], 0x21); }
    }
  }

  /** "γειά, κόσμο! 😀!": the Greek phrase, a space, U+1F600 and "!". */
  const MIXED: seq<byte> := GREEK + [0x20] + EMOJI[0..4] + [0x21]
  const MIXED_CPS: seq<int> := [0x3B3, 0x3B5, 0x3B9, 0x3AC, 0x2C, 0x20, 0x3BA, 0x3CC, 0x3C3, 0x3BC, 0x3BF, 0x21, 0x20, 0x1F600, 0x21]
  const MIXED_CUTS: seq<nat> := [0, 2, 4, 6, 8, 9, 10, 12, 14, 16, 18, 20, 21, 22, 26, 27]

  lemma MixedPieces()
    ensures MIXED[0..2] == [0xCE, 0xB3]
    ensures MIXED[2..4] == [0xCE, 0xB5]
    ensures MIXED[4..6] == [0xCE, 0xB9]
    ensures MIXED[6..8] == [0xCE, 0xAC]
    ensures MIXED[8..9] == [0x2C]
    ensures MIXED[9..10] == [0x20]
    ensures MIXED[10..12] == [0xCE, 0xBA]
    ensures MIXED[12..14] == [0xCF, 0x8C]
    ensures MIXED[14..16] == [0xCF, 0x83]
    ensures MIXED[16..18] == [0xCE, 0xBC]
    ensures MIXED[18..20] == [0xCE, 0xBF]
    ensures MIXED[20..21] == [0x21]
    ensures MIXED[21..22] == [0x20]
    ensures MIXED[22..26] == [0xF0, 0x9F, 0x98, 0x80]
    ensures MIXED[26..27] == [0x21]
  {
    GreekPieces();
    EmojiPieces();
    assert MIXED[..21] == GREEK;
  }

  lemma MixedCuts()
    ensures Ascending(MIXED, MIXED_CUTS)
    ensures Cuts(MIXED, MIXED_CUTS) == [[0xCE, 0xB3], [0xCE, 0xB5], [0xCE, 0xB9], [0xCE, 0xAC], [0x2C], [0x20], [0xCE, 0xBA], [0xCF, 0x8C], [0xCF, 0x83], [0xCE, 0xBC], [0xCE, 0xBF], [0x21], [0x20], [0xF0, 0x9F, 0x98, 0x80], [0x21]]
  {
    MixedPieces();
    assert Cuts(MIXED, MIXED_CUTS) == [MIXED[0..2], MIXED[2..4], MIXED[4..6], MIXED[6..8], MIXED[8..9], MIXED[9..10], MIXED[10..12], MIXED[12..14], MIXED[14..16], MIXED[16..18], MIXED[18..20], MIXED[20..21], MIXED[21..22], MIXED[22..26], MIXED[26..27]];
  }

  lemma MixedHasNoNul()
    ensures 0 !in MIXED
  {
    GreekHasNoNul();
    EmojiPieces();
  }

  /** MIXED cut at MIXED_CUTS is the chunks of MIXED_CPS, one per codepoint. */
  lemma MixedEncodes()
    ensures CutInto(MIXED, MIXED_CUTS, MIXED_CPS)
  {
    MixedCuts();
    var C := Cuts(MIXED, MIXED_CUTS);
    forall i | 0 <= i < 15 ensures Encodes(C[i], MIXED_CPS[i]) {
      if i == 0 { TwoBytes([0xCE, 0xB3], 0x3B3); }
      else if i == 1 { TwoBytes([0xCE, 0xB5], 0x3B5); }
      else if i == 2 { TwoBytes([0xCE, 0xB9], 0x3B9); }
      else if i == 3 { TwoBytes([0xCE, 0xAC], 0x3AC); }
      else if i == 4 { OneByte([0x2C], 0x2C); }
      else if i == 5 { OneByte([0x20], 0x20); }
      else if i == 6 { TwoBytes([0xCE, 0xBA], 0x3BA); }
      else if i == 7 { TwoBytes([0xCF, 0x8C], 0x3CC); }
      else if i == 8 { TwoBytes([0xCF, 0x83], 0x3C3); }
      else if i == 9 { TwoBytes([0xCE, 0xBC], 0x3BC); }
      else if i == 10 { TwoBytes([0xCE, 0xBF], 0x3BF); }
      else if i == 11 { OneByte([0x21], 0x21); }
      else if i == 12 { OneByte([0x20], 0x20); }
      else if i == 13 { FourBytes([0xF0, 0x9F, 0x98, 0x80], 0x1F600); }
      else { OneByte([0x21], 0x21); }
    }
  }

  /** "κόσμο", as the substring test expects it. */
  const KOSMO: seq<byte> := [0xCE, 0xBA, 0xCF, 0x8C, 0xCF, 0x83, 0xCE, 0xBC, 0xCE, 0xBF]
  const KOSMO_CUTS: seq<nat> := [0, 2, 4, 6, 8, 10]

  lemma KosmoPieces()
    ensures KOSMO[0..2] == [0xCE, 0xBA]
    ensures KOSMO[2..4] == [0xCF, 0x8C]
    ensures KOSMO[4..6] == [0xCF, 0x83]
    ensures KOSMO[6..8] == [0xCE, 0xBC]
    ensures KOSMO[8..10] == [0xCE, 0xBF]
  {
    assert KOSMO[0] == 0xCE;
    assert KOSMO[1] == 0xBA;
    assert KOSMO[2] == 0xCF;
    assert KOSMO[3] == 0x8C;
    assert KOSMO[4] == 0xCF;
    assert KOSMO[5] == 0x83;
    assert KOSMO[6] == 0xCE;
    assert KOSMO[7] == 0xBC;
    assert KOSMO[8] == 0xCE;
    assert KOSMO[9] == 0xBF;
  }

  lemma KosmoCuts()
    ensures Ascending(KOSMO, KOSMO_CUTS)
    ensures Cuts(KOSMO, KOSMO_CUTS) == [[0xCE, 0xBA], [0xCF, 0x8C], [0xCF, 0x83], [0xCE, 0xBC], [0xCE, 0xBF]]
  {
    KosmoPieces();
    assert Cuts(KOSMO, KOSMO_CUTS) == [KOSMO[0..2], KOSMO[2..4], KOSMO[4..6], KOSMO[6..8], KOSMO[8..10]];
  }

  /** U+1F602 U+1F604, as the substring test expects them. */
  const EMOJI_PAIR: seq<byte> := [0xF0, 0x9F, 0x98, 0x82, 0xF0, 0x9F, 0x98, 0x84]
  const EMOJI_PAIR_CUTS: seq<nat> := [0, 4, 8]

  lemma EmojiPairPieces()
    ensures EMOJI_PAIR[0..4] == [0xF0, 0x9F, 0x98, 0x82]
    ensures EMOJI_PAIR[4..8] == [0xF0, 0x9F, 0x98, 0x84]
  {
    assert EMOJI_PAIR[0] == 0xF0;
    assert EMOJI_PAIR[1] == 0x9F;
    assert EMOJI_PAIR[2] == 0x98;
    assert EMOJI_PAIR[3] == 0x82;
    assert EMOJI_PAIR[4] == 0xF0;
    assert EMOJI_PAIR[5] == 0x9F;
    assert EMOJI_PAIR[6] == 0x98;
    assert EMOJI_PAIR[7] == 0x84;
  }

  lemma EmojiPairCuts()
    ensures Ascending(EMOJI_PAIR, EMOJI_PAIR_CUTS)
    ensures Cuts(EMOJI_PAIR, EMOJI_PAIR_CUTS) == [[0xF0, 0x9F, 0x98, 0x82], [0xF0, 0x9F, 0x98, 0x84]]
  {
    EmojiPairPieces();
    assert Cuts(EMOJI_PAIR, EMOJI_PAIR_CUTS) == [EMOJI_PAIR[0..4], EMOJI_PAIR[4..8]];
  }

  /** What the at() test relies on: the emoji string is well formed, and its third codepoint is U+1F602. */
  lemma EmojiAtFacts()
    ensures 0 !in EMOJI && |EMOJI| < NPOS
    ensures WellFormed(EMOJI) && CodepointCount(EMOJI) == 5
    ensures DecodeChar(EMOJI, Offset(EMOJI, 2)) == Success(0x1F602)
  {
    EmojiHasNoNul();
    EmojiEncodes();
    CutIndexes(EMOJI, EMOJI_CUTS, EMOJI_CPS);
  }

  /** What the at() test relies on: codepoints 6 to 10 of the Greek phrase are κ, ό, σ, μ and ο. */
  lemma GreekAtFacts()
    ensures 0 !in GREEK && |GREEK| < NPOS
    ensures WellFormed(GREEK) && CodepointCount(GREEK) == 12
    ensures forall k :: 0 <= k < 12 ==> DecodeChar(GREEK, Offset(GREEK, k)) == Success(GREEK_CPS[k])
    ensures GREEK_CPS[6..11] == [0x3BA, 0x3CC, 0x3C3, 0x3BC, 0x3BF]
  {
    GreekHasNoNul();
    GreekEncodes();
    CutIndexes(GREEK, GREEK_CUTS, GREEK_CPS);
  }

  /** What the substdstr() test relies on: codepoints 6 to 10 of the Greek phrase are the bytes of "κόσμο". */
  lemma KosmoFacts()
    ensures Offset(GREEK, 6) <= Offset(GREEK, 11) <= |GREEK|
    ensures GREEK[Offset(GREEK, 6)..Offset(GREEK, 11)] == KOSMO
  {
    assert Flatten(Cuts(KOSMO, KOSMO_CUTS)) == KOSMO by {
      KosmoCuts();
      FlattenCuts(KOSMO, KOSMO_CUTS);
      assert KOSMO[0..10] == KOSMO;
    }
    assert Cuts(GREEK, GREEK_CUTS)[6..11] == Cuts(KOSMO, KOSMO_CUTS) by {
      KosmoCuts();
      GreekCuts();
    }
    GreekEncodes();
    CutSlice(GREEK, GREEK_CUTS, GREEK_CPS, 6, 11);
  }

  /** What the substdstr() test relies on: codepoints 2 and 3 of the emoji string are U+1F602 U+1F604. */
  lemma EmojiPairFacts()
    ensures Offset(EMOJI, 2) <= Offset(EMOJI, 4) <= |EMOJI|
    ensures EMOJI[Offset(EMOJI, 2)..Offset(EMOJI, 4)] == EMOJI_PAIR
  {
    assert Flatten(Cuts(EMOJI_PAIR, EMOJI_PAIR_CUTS)) == EMOJI_PAIR by {
      EmojiPairCuts();
      FlattenCuts(EMOJI_PAIR, EMOJI_PAIR_CUTS);
      assert EMOJI_PAIR[0..8] == EMOJI_PAIR;
    }
    assert Cuts(EMOJI, EMOJI_CUTS)[2..4] == Cuts(EMOJI_PAIR, EMOJI_PAIR_CUTS) by {
      EmojiPairCuts();
      EmojiCuts();
    }
    EmojiEncodes();
    CutSlice(EMOJI, EMOJI_CUTS, EMOJI_CPS, 2, 4);
  }

  /** What the length(), size() and reassembly tests rely on about "γειά, κόσμο! 😀!". */
  lemma MixedFacts()
    ensures 0 !in MIXED && |MIXED| == 27
    ensures WellFormed(MIXED) && CodepointCount(MIXED) == 15
  {
    MixedHasNoNul();
    MixedEncodes();
    CutIndexes(MIXED, MIXED_CUTS, MIXED_CPS);
  }

  /** The at() test on the emoji string. */
  method TestAtEmoji() returns (c: Result<int, Fault>)
    ensures c == Success(0x1F602)
  {
    EmojiAtFacts();
    CStringOfTerminated(EMOJI);
    var s := new Utf8String.FromCString(EMOJI + [0]);
    c := s.At(2);
  }

  /** The at() test on the Greek phrase: codepoints 6 to 10 spell "κόσμο". */
  method TestAtGreek() returns (c6: Result<int, Fault>, c7: Result<int, Fault>, c8: Result<int, Fault>,
                                c9: Result<int, Fault>, c10: Result<int, Fault>)
    ensures c6 == Success(0x3BA) && c7 == Success(0x3CC) && c8 == Success(0x3C3)
    ensures c9 == Success(0x3BC) && c10 == Success(0x3BF)
  {
    GreekAtFacts();
    CStringOfTerminated(GREEK);
    var s := new Utf8String.FromCString(GREEK + [0]);
    c6 := s.At(6);
    c7 := s.At(7);
    c8 := s.At(8);
    c9 := s.At(9);
    c10 := s.At(10);
  }

  /** The substdstr() test: "κόσμο" out of the Greek phrase, two emoji out of five. */
  method TestSubstr() returns (greek: Result<seq<byte>, Fault>, emoji: Result<seq<byte>, Fault>)
    ensures greek == Success(KOSMO)
    ensures emoji == Success(EMOJI_PAIR)
  {
    GreekAtFacts();
    KosmoFacts();
    CStringOfTerminated(GREEK);
    var s := new Utf8String.FromCString(GREEK + [0]);
    SubStdStrSlices(s.data, s.nthcharat, s.utf8length, 6, 5);
    greek := s.SubStdStr(6, 5);
    EmojiAtFacts();
    EmojiPairFacts();
    CStringOfTerminated(EMOJI);
    var t := new Utf8String.FromCString(EMOJI + [0]);
    SubStdStrSlices(t.data, t.nthcharat, t.utf8length, 2, 2);
    emoji := t.SubStdStr(2, 2);
  }

  /** The length() and size() tests: 15 codepoints in 27 bytes. */
  method TestLengthAndSize() returns (length: nat, size: nat)
    ensures length == 15 && size == 27
  {
    MixedFacts();
    CStringOfTerminated(MIXED);
    var s := new Utf8String.FromCString(MIXED + [0]);
    length := s.Length();
    size := s.Size();
  }

  /** The reassembly test: appending substdstr(i, 1) for every i rebuilds an equal string. */
  method TestReassembly() returns (equal: bool)
    ensures equal
  {
    MixedFacts();
    CStringOfTerminated(MIXED);
    var input := new Utf8String.FromCString(MIXED + [0]);
    var output := ReassembleByCodepoints(input);
    equal := input.Equals(output);
  }
}
