/**
 * Lead-byte classification and codepoint decoding of utf8::utf8_string
 * (include/utf8_string.hpp): utf8_is_fragment, maskfor, length_of,
 * utf8char_at_byte and char_and_length_at_byte.
 *
 * Bytes are integers 0..255; every bit test of the source is written as the
 * equivalent arithmetic on that range, and BitForms proves the equivalence
 * against the bit-vector expressions the source uses.
 */
module Utf8Decode {
  import opened Wrappers
  import Arith

  type byte = b: int | 0 <= b < 256

  /** The faults utf8_string raises, one per kind of `throw`. */
  datatype Fault =
    | OutOfRange       // std::out_of_range from std::string::at or std::string::substr
    | LeadIsFragment   // "lrn2utf8": a continuation byte where a lead byte was expected
    | Truncated        // "truncated char"
    | NotContinuation  // "lrn2mask": a byte inside a sequence that is not 10xxxxxx
    | IndexTooLarge    // "a fit": byte_of/at with an index past length()
    | RangeError       // std::range_error from substdstr

  /** utf8_is_fragment: (c & 0xC0) == 0x80, that is, c has the form 10xxxxxx. */
  predicate IsFragment(c: byte) {
    c / 64 == 2
  }

  /** The table slot (c & 0x3E) >> 1 that maskfor and length_of look up: bits 1..5 of c. */
  function Slot(c: byte): (r: nat)
    ensures r < 32
  {
    c % 64 / 2
  }

  /** The maskfor string literal, including its implicit terminating NUL at slot 31. */
  const MASKS: seq<byte> :=
    [0x1F, 0x1F, 0x1F, 0x1F, 0x1F, 0x1F, 0x1F, 0x1F, 0x1F, 0x1F, 0x1F, 0x1F, 0x1F, 0x1F, 0x1F, 0x1F,
     0x0F, 0x0F, 0x0F, 0x0F, 0x0F, 0x0F, 0x0F, 0x0F, 0x07, 0x07, 0x07, 0x07, 0x03, 0x03, 0x01, 0x00]

  /** The length_of string literal: slot 31 holds the last written entry, 1. */
  const LENGTHS: seq<nat> :=
    [2, 2, 2, 2, 2, 2, 2, 2, 2, 2, 2, 2, 2, 2, 2, 2,
     3, 3, 3, 3, 3, 3, 3, 3, 4, 4, 4, 4, 5, 5, 6, 1]

  function MaskFor(c: byte): byte {
    MASKS[Slot(c)]
  }

  function LengthOf(c: byte): nat {
    LENGTHS[Slot(c)]
  }

  /** c & maskfor(c): every mask in the table has the form 2^k - 1, so the AND keeps the low k bits. */
  function LeadBits(c: byte): nat {
    c % (MaskFor(c) + 1)
  }

  function Pow2(k: nat): nat {
    if k == 0 then 1 else 2 * Pow2(k - 1)
  }

  function Pow64(k: nat): (r: nat)
    ensures r >= 1
  {
    if k == 0 then 1 else 64 * Pow64(k - 1)
  }

  /**
   * The loop of utf8char_at_byte: k more continuation bytes to fold into acc,
   * the byte last read being at n. The guard `n > data.length()` of the source
   * is tested first; std::string::at then refuses n == data.length().
   */
  function Continue(data: seq<byte>, n: nat, acc: int, k: nat): Result<int, Fault>
    decreases k
  {
    if k == 0 then Success(acc)
    else if n + 1 > |data| then Failure(Truncated)
    else if n + 1 >= |data| then Failure(OutOfRange)
    else if !IsFragment(data[n + 1]) then Failure(NotContinuation)
    else Continue(data, n + 1, acc * 64 + data[n + 1] % 64, k - 1)
  }

  /** char_and_length_at_byte: the codepoint starting at byte n and its length in bytes. */
  function DecodeAt(data: seq<byte>, n: nat): Result<(int, nat), Fault> {
    if n >= |data| then Failure(OutOfRange)
    else if data[n] < 0x80 then Success((data[n], 1))
    else if data[n] < 0xC0 then Failure(LeadIsFragment)
    else
      match Continue(data, n, LeadBits(data[n]), LengthOf(data[n]) - 1)
      case Success(v) => Success((v, LengthOf(data[n])))
      case Failure(e) => Failure(e)
  }

  /** char_at_byte: the codepoint alone. */
  function DecodeChar(data: seq<byte>, n: nat): Result<int, Fault> {
    match DecodeAt(data, n)
    case Success((v, _)) => Success(v)
    case Failure(e) => Failure(e)
  }

  /** length_at_byte: the length alone. */
  function DecodeLength(data: seq<byte>, n: nat): Result<nat, Fault> {
    match DecodeAt(data, n)
    case Success((_, l)) => Success(l)
    case Failure(e) => Failure(e)
  }

  /**
   * The byte sequence at n is one that DecodeAt accepts: an ASCII byte, or a
   * non-continuation lead byte followed, inside the buffer, by the number of
   * continuation bytes its table entry demands.
   */
  ghost predicate Decodable(data: seq<byte>, n: nat) {
    && n < |data|
    && (data[n] >= 0x80 ==>
          && !IsFragment(data[n])
          && n + LengthOf(data[n]) <= |data|
          && forall i :: n < i < n + LengthOf(data[n]) ==> IsFragment(data[i]))
  }

  /** The arithmetic forms used here agree with the source's bit operations. */
  lemma BitForms(c: bv8)
    ensures IsFragment(c as int) <==> (c & 0xC0) == 0x80
    ensures Slot(c as int) == ((c & 0x3E) >> 1) as int
    ensures (c as int) % 64 == (c & 0x3F) as int
    ensures (c as int) < 0x80 <==> (c & 0x80) == 0
    ensures (c as int) >= 0x80 ==> ((c as int) < 0xC0 <==> (c & 0x40) == 0)
  {
    LowBits(c);
    TopBits(c);
    SlotBits(c);
  }

  lemma LowBits(c: bv8)
    ensures (c as int) % 64 == (c & 0x3F) as int
  {
  }

  lemma TopBits(c: bv8)
    ensures (c as int) / 64 == ((c & 0xC0) >> 6) as int
    ensures (c & 0xC0) == 0x80 <==> ((c & 0xC0) >> 6) == 2
    ensures (c & 0x80) == 0 <==> ((c & 0xC0) >> 6) < 2
    ensures (c & 0x40) == 0 <==> ((c & 0xC0) >> 6) % 2 == 0
  {
  }

  lemma SlotBits(c: bv8)
    ensures (c as int) % 64 / 2 == ((c & 0x3E) >> 1) as int
  {
  }

  /** The lead-byte classes of section 2 of RFC 2279, as the two tables encode them. */
  lemma LeadClasses(c: byte)
    requires c >= 0xC0
    ensures c < 0xE0 ==> LengthOf(c) == 2 && MaskFor(c) == 0x1F
    ensures 0xE0 <= c < 0xF0 ==> LengthOf(c) == 3 && MaskFor(c) == 0x0F
    ensures 0xF0 <= c < 0xF8 ==> LengthOf(c) == 4 && MaskFor(c) == 0x07
    ensures 0xF8 <= c < 0xFC ==> LengthOf(c) == 5 && MaskFor(c) == 0x03
    ensures 0xFC <= c < 0xFE ==> LengthOf(c) == 6 && MaskFor(c) == 0x01
    ensures 0xFE <= c ==> LengthOf(c) == 1 && MaskFor(c) == 0x00
  {
  }

  lemma {:induction false} ContinueSucceedsIff(data: seq<byte>, n: nat, acc: int, k: nat)
    requires n < |data|
    ensures Continue(data, n, acc, k).Success? <==>
              n + k < |data| && forall i :: n < i <= n + k ==> IsFragment(data[i])
    decreases k
  {
    if k > 0 && n + 1 < |data| && IsFragment(data[n + 1]) {
      ContinueSucceedsIff(data, n + 1, acc * 64 + data[n + 1] % 64, k - 1);
    }
  }

  /** Decoding succeeds exactly on the sequences section 2 of RFC 2279 describes, overlong or not. */
  lemma DecodeSucceedsIff(data: seq<byte>, n: nat)
    ensures DecodeAt(data, n).Success? <==> Decodable(data, n)
  {
    if n < |data| && data[n] >= 0xC0 {
      ContinueSucceedsIff(data, n, LeadBits(data[n]), LengthOf(data[n]) - 1);
      LeadClasses(data[n]);
    }
  }

  /** A fragment in lead position, and a lead byte at the very end of a multi-byte sequence's room, fail. */
  lemma DecodeFaults(data: seq<byte>, n: nat)
    ensures n >= |data| ==> DecodeAt(data, n) == Failure(OutOfRange)
    ensures n < |data| && IsFragment(data[n]) ==> DecodeAt(data, n) == Failure(LeadIsFragment)
    ensures n < |data| && data[n] >= 0xC0 && n + LengthOf(data[n]) > |data|
            && (forall i :: n < i < |data| ==> IsFragment(data[i]))
            ==> DecodeAt(data, n) == Failure(OutOfRange)
    ensures n < |data| && data[n] >= 0xC0 && n + 1 < |data| && LengthOf(data[n]) >= 2 && !IsFragment(data[n + 1])
            ==> DecodeAt(data, n) == Failure(NotContinuation)
  {
    if n < |data| && data[n] >= 0xC0 && n + LengthOf(data[n]) > |data|
       && (forall i :: n < i < |data| ==> IsFragment(data[i])) {
      ContinueRunsOut(data, n, LeadBits(data[n]), LengthOf(data[n]) - 1);
    }
  }

  lemma {:induction false} ContinueRunsOut(data: seq<byte>, n: nat, acc: int, k: nat)
    requires n < |data| && n + k >= |data|
    requires forall i :: n < i < |data| ==> IsFragment(data[i])
    ensures Continue(data, n, acc, k) == Failure(OutOfRange)
    decreases k
  {
    if n + 1 < |data| {
      ContinueRunsOut(data, n + 1, acc * 64 + data[n + 1] % 64, k - 1);
    }
  }

  /** The guard `n > data.length()` never fires: running past the end is always caught by std::string::at. */
  lemma {:induction false} ContinueNeverTruncated(data: seq<byte>, n: nat, acc: int, k: nat)
    requires n < |data|
    ensures Continue(data, n, acc, k) != Failure(Truncated)
    decreases k
  {
    if k > 0 && n + 1 < |data| && IsFragment(data[n + 1]) {
      ContinueNeverTruncated(data, n + 1, acc * 64 + data[n + 1] % 64, k - 1);
    }
  }

  lemma DecodeNeverTruncated(data: seq<byte>, n: nat)
    ensures DecodeAt(data, n) != Failure(Truncated)
  {
    if n < |data| && data[n] >= 0xC0 {
      ContinueNeverTruncated(data, n, LeadBits(data[n]), LengthOf(data[n]) - 1);
    }
  }

  /**
   * The folded value carries acc in its high bits, followed by the six low
   * bits of each continuation byte, in order.
   */
  lemma {:induction false} ContinueLayout(data: seq<byte>, n: nat, acc: nat, k: nat)
    requires n < |data| && Continue(data, n, acc, k).Success?
    ensures Continue(data, n, acc, k).value >= 0
    ensures Continue(data, n, acc, k).value / Pow64(k) == acc
    ensures n + k < |data|
    ensures forall i :: n < i <= n + k ==>
              (Continue(data, n, acc, k).value / Pow64(n + k - i)) % 64 == data[i] % 64
    decreases k
  {
    if k > 0 {
      var d := data[n + 1] % 64;
      var acc' := acc * 64 + d;
      ContinueLayout(data, n + 1, acc', k - 1);
      var v := Continue(data, n, acc, k).value;
      assert v == Continue(data, n + 1, acc', k - 1).value;
      Arith.DivDiv(v, Pow64(k - 1), 64);
      assert Pow64(k) == Pow64(k - 1) * 64;
      Arith.DivUnique(acc', 64, acc, d);
      assert (v / Pow64(k - 1)) % 64 == d;
    }
  }

  lemma PowersOf64()
    ensures Pow64(0) == 1 && Pow64(1) == 0x40 && Pow64(2) == 0x1000 && Pow64(3) == 0x4_0000
    ensures Pow64(4) == 0x100_0000 && Pow64(5) == 0x4000_0000
  {
  }

  /** A value whose quotient by the weight of its lead bits is those bits stays below 2^31. */
  lemma LeadWeightBound(c: byte, v: nat)
    requires c >= 0xC0 && v / Pow64(LengthOf(c) - 1) == LeadBits(c)
    ensures v < 0x8000_0000
  {
    LeadClasses(c);
    PowersOf64();
    var p := Pow64(LengthOf(c) - 1);
    var m := MaskFor(c);
    QuotientBound(v, p, m);
    if c < 0xE0 {
      assert (m + 1) * p == 0x800;
    } else if c < 0xF0 {
      assert (m + 1) * p == 0x1_0000;
    } else if c < 0xF8 {
      assert (m + 1) * p == 0x20_0000;
    } else if c < 0xFC {
      assert (m + 1) * p == 0x400_0000;
    } else if c < 0xFE {
      assert (m + 1) * p == 0x8000_0000;
    } else {
      assert (m + 1) * p == 1;
    }
  }

  /** A quotient by p of at most m leaves the value below (m + 1) * p. */
  lemma QuotientBound(v: nat, p: nat, m: nat)
    requires p >= 1 && v / p <= m
    ensures v < (m + 1) * p
  {
    assert v == (v / p) * p + v % p;
    assert (v / p) * p <= m * p;
  }

  /** What a successful decode returns: its length, the bit layout of its value, and the bound on it. */
  lemma DecodeLayout(data: seq<byte>, n: nat)
    requires DecodeAt(data, n).Success?
    ensures var (v, len) := DecodeAt(data, n).value;
      && 1 <= len <= 6 && n + len <= |data| && 0 <= v < 0x8000_0000
      && (data[n] < 0x80 ==> v == data[n] && len == 1)
      && (data[n] >= 0x80 ==>
            && len == LengthOf(data[n])
            && v / Pow64(len - 1) == LeadBits(data[n])
            && forall i :: n < i < n + len ==> (v / Pow64(n + len - 1 - i)) % 64 == data[i] % 64)
  {
    DecodeSucceedsIff(data, n);
    if data[n] >= 0x80 {
      var c := data[n];
      LeadClasses(c);
      ContinueLayout(data, n, LeadBits(c), LengthOf(c) - 1);
      LeadWeightBound(c, DecodeAt(data, n).value.0);
    }
  }

  /** The length section 2 of RFC 2279 gives to the encoding of v (v below 2^31). */
  function EncodedLength(v: nat): (len: nat)
    ensures 1 <= len <= 6
  {
    if v < 0x80 then 1
    else if v < 0x800 then 2
    else if v < 0x1_0000 then 3
    else if v < 0x20_0000 then 4
    else if v < 0x400_0000 then 5
    else 6
  }

  /** The k continuation bytes 10xxxxxx carrying the low 6k bits of v, most significant first. */
  function ContinuationBytes(v: nat, k: nat): (r: seq<byte>)
    ensures |r| == k
    decreases k
  {
    if k == 0 then [] else [0x80 + (v / Pow64(k - 1)) % 64] + ContinuationBytes(v, k - 1)
  }

  /** The shortest encoding of v under section 2 of RFC 2279; the inverse that DecodeAt is checked against. */
  function Encode(v: nat): (r: seq<byte>)
    requires v < 0x8000_0000
    ensures |r| == EncodedLength(v)
  {
    var len := EncodedLength(v);
    if len == 1 then [v]
    else
      var lead := [0xC0, 0xE0, 0xF0, 0xF8, 0xFC][len - 2];
      assert v / Pow64(len - 1) < 0x40 - lead % 0x40 by {
        if len == 2 { } else if len == 3 { } else if len == 4 { } else if len == 5 { } else { }
      }
      [lead + v / Pow64(len - 1)] + ContinuationBytes(v, len - 1)
  }

  /** One step of ContinueDigits: folding the next digit of v into acc. */
  lemma FoldDigit(acc: nat, v: nat, p: nat)
    requires p >= 1
    ensures (acc * 64 + (v / p) % 64) * p + v % p == acc * (64 * p) + v % (64 * p)
  {
    Arith.ModSplit(v, p, 64);
    var d := (v / p) % 64;
    assert (acc * 64 + d) * p == acc * 64 * p + d * p;
  }

  lemma {:induction false} ContinueDigits(data: seq<byte>, n: nat, acc: nat, v: nat, k: nat)
    requires n + k < |data| && data[n + 1..n + 1 + k] == ContinuationBytes(v, k)
    ensures Continue(data, n, acc, k) == Success(acc * Pow64(k) + v % Pow64(k))
    decreases k
  {
    if k > 0 {
      var p := Pow64(k - 1);
      var d := (v / p) % 64;
      assert data[n + 1] == 0x80 + d by {
        assert data[n + 1] == data[n + 1..n + 1 + k][0];
      }
      assert data[n + 1] % 64 == d;
      assert data[n + 2..n + 2 + (k - 1)] == ContinuationBytes(v, k - 1) by {
        assert data[n + 2..n + 2 + (k - 1)] == data[n + 1..n + 1 + k][1..];
      }
      ContinueDigits(data, n + 1, acc * 64 + d, v, k - 1);
      FoldDigit(acc, v, p);
    }
  }

  /** The lead byte Encode writes is classified with the encoding's length and carries the top bits of v. */
  lemma EncodedLead(v: nat)
    requires v < 0x8000_0000 && EncodedLength(v) > 1
    ensures var c := Encode(v)[0];
      c >= 0xC0 && LengthOf(c) == EncodedLength(v) && LeadBits(c) == v / Pow64(EncodedLength(v) - 1)
  {
    PowersOf64();
    var len := EncodedLength(v);
    var q := v / Pow64(len - 1);
    var c := Encode(v)[0];
    if len == 2 {
      LeadByte(c, 0xC0, q, 0x20, 2);
    } else if len == 3 {
      LeadByte(c, 0xE0, q, 0x10, 3);
    } else if len == 4 {
      LeadByte(c, 0xF0, q, 0x08, 4);
    } else if len == 5 {
      LeadByte(c, 0xF8, q, 0x04, 5);
    } else {
      LeadByte(c, 0xFC, q, 0x02, 6);
    }
  }

  /** A lead byte of one class, lead + q with q below the class's width, has that class's length and bits. */
  lemma LeadByte(c: byte, lead: byte, q: nat, width: nat, len: nat)
    requires c == lead + q && q < width
    requires (lead, width, len) in {(0xC0, 0x20, 2), (0xE0, 0x10, 3), (0xF0, 0x08, 4), (0xF8, 0x04, 5), (0xFC, 0x02, 6)}
    ensures c >= 0xC0 && LengthOf(c) == len && LeadBits(c) == q
  {
    LeadClasses(c);
  }

  /** A lead byte carrying the top bits of v, followed by the continuation bytes of v, decodes to v. */
  lemma DecodeMultiByte(data: seq<byte>, n: nat, v: nat, len: nat)
    requires 2 <= len && n + len <= |data|
    requires data[n] >= 0xC0 && LengthOf(data[n]) == len && LeadBits(data[n]) == v / Pow64(len - 1)
    requires data[n + 1..n + len] == ContinuationBytes(v, len - 1)
    ensures DecodeAt(data, n) == Success((v, len))
  {
    var p := Pow64(len - 1);
    ContinueDigits(data, n, v / p, v, len - 1);
    Arith.DivMod(v, p);
  }

  /** Decoding the encoding of v, wherever it sits in a buffer, gives back v and the encoding's length. */
  lemma DecodeEncoded(data: seq<byte>, n: nat, v: nat)
    requires v < 0x8000_0000
    requires n + EncodedLength(v) <= |data| && data[n..n + EncodedLength(v)] == Encode(v)
    ensures DecodeAt(data, n) == Success((v, EncodedLength(v)))
  {
    var len := EncodedLength(v);
    assert data[n] == Encode(v)[0];
    if len > 1 {
      EncodedLead(v);
      assert data[n + 1..n + len] == ContinuationBytes(v, len - 1) by {
        assert data[n + 1..n + len] == Encode(v)[1..];
      }
      DecodeMultiByte(data, n, v, len);
    }
  }

  lemma DecodeEncode(v: nat)
    requires v < 0x8000_0000
    ensures DecodeAt(Encode(v), 0) == Success((v, |Encode(v)|))
  {
    DecodeEncoded(Encode(v), 0, v);
  }

  /*
   * Non-properties: DecodeAt follows section 2 of RFC 2279, so it accepts
   * what section 3 of RFC 3629 forbids.
   */

  /** An overlong form: C0 80 decodes to NUL. */
  lemma AcceptsOverlong()
    ensures DecodeAt([0xC0, 0x80], 0) == Success((0, 2))
  {
    assert Continue([0xC0, 0x80], 0, 0, 1) == Continue([0xC0, 0x80], 1, 0, 0);
  }

  /** A UTF-16 surrogate: ED A0 80 decodes to U+D800. */
  lemma AcceptsSurrogate()
    ensures DecodeAt([0xED, 0xA0, 0x80], 0) == Success((0xD800, 3))
  {
    var d: seq<byte> := [0xED, 0xA0, 0x80];
    assert LeadBits(0xED) == 0xD;
    assert Continue(d, 0, 0xD, 2) == Continue(d, 1, 0x360, 1) == Continue(d, 2, 0xD800, 0);
  }

  /** A value past U+10FFFF: F4 90 80 80 decodes to 0x110000. */
  lemma AcceptsPastUnicode()
    ensures DecodeAt([0xF4, 0x90, 0x80, 0x80], 0) == Success((0x11_0000, 4))
  {
    var d: seq<byte> := [0xF4, 0x90, 0x80, 0x80];
    assert LeadBits(0xF4) == 4;
    assert Continue(d, 0, 4, 3) == Continue(d, 1, 0x110, 2) == Continue(d, 2, 0x4400, 1)
        == Continue(d, 3, 0x11_0000, 0);
  }

  /** FE and FF, which no UTF-8 text contains, decode as one-byte codepoints 0. */
  lemma AcceptsFeFf()
    ensures DecodeAt([0xFE], 0) == Success((0, 1)) && DecodeAt([0xFF], 0) == Success((0, 1))
  {
    assert LengthOf(0xFE) == 1 && LeadBits(0xFE) == 0;
    assert LengthOf(0xFF) == 1 && LeadBits(0xFF) == 0;
  }

  // ---------------------------------------------------------------------------
  // Decoding inside a longer buffer

  lemma {:induction false} ContinueExtend(data: seq<byte>, ext: seq<byte>, n: nat, acc: int, k: nat)
    requires n + k < |data|
    ensures Continue(data + ext, n, acc, k) == Continue(data, n, acc, k)
    decreases k
  {
    if k > 0 {
      assert (data + ext)[n + 1] == data[n + 1];
      ContinueExtend(data, ext, n + 1, acc * 64 + data[n + 1] % 64, k - 1);
    }
  }

  /** A successful decode reads only its own bytes: bytes appended after them change nothing. */
  lemma DecodeExtend(data: seq<byte>, ext: seq<byte>, n: nat)
    requires DecodeAt(data, n).Success?
    ensures DecodeAt(data + ext, n) == DecodeAt(data, n)
  {
    DecodeLayout(data, n);
    assert (data + ext)[n] == data[n];
    if data[n] >= 0xC0 {
      ContinueExtend(data, ext, n, LeadBits(data[n]), LengthOf(data[n]) - 1);
    }
  }

  lemma {:induction false} ContinueShift(pre: seq<byte>, data: seq<byte>, n: nat, acc: int, k: nat)
    ensures Continue(pre + data, |pre| + n, acc, k) == Continue(data, n, acc, k)
    decreases k
  {
    if k > 0 && n + 1 < |data| {
      assert (pre + data)[|pre| + n + 1] == data[n + 1];
      ContinueShift(pre, data, n + 1, acc * 64 + data[n + 1] % 64, k - 1);
    }
  }

  /** Decoding does not depend on the bytes before the lead byte. */
  lemma DecodeShift(pre: seq<byte>, data: seq<byte>, n: nat)
    ensures DecodeAt(pre + data, |pre| + n) == DecodeAt(data, n)
  {
    if n < |data| {
      assert (pre + data)[|pre| + n] == data[n];
      ContinueShift(pre, data, n, LeadBits(data[n]), LengthOf(data[n]) - 1);
    }
  }

  /** Encode writes one lead byte and then continuation bytes only. */
  lemma EncodeShape(v: nat)
    requires v < 0x8000_0000
    ensures !IsFragment(Encode(v)[0])
    ensures forall i :: 1 <= i < |Encode(v)| ==> IsFragment(Encode(v)[i])
  {
    var len := EncodedLength(v);
    if len > 1 {
      EncodedLead(v);
      ContinuationFragments(v, len - 1);
      assert Encode(v)[1..] == ContinuationBytes(v, len - 1);
      forall i | 1 <= i < |Encode(v)| ensures IsFragment(Encode(v)[i]) {
        assert Encode(v)[i] == ContinuationBytes(v, len - 1)[i - 1];
      }
    }
  }

  lemma {:induction false} ContinuationFragments(v: nat, k: nat)
    ensures forall i :: 0 <= i < k ==> IsFragment(ContinuationBytes(v, k)[i])
    decreases k
  {
    if k > 0 {
      ContinuationFragments(v, k - 1);
      forall i | 0 <= i < k ensures IsFragment(ContinuationBytes(v, k)[i]) {
        if i > 0 {
          assert ContinuationBytes(v, k)[i] == ContinuationBytes(v, k - 1)[i - 1];
        }
      }
    }
  }
}
