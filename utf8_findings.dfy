/**
 * Places where include/utf8_string.hpp does not do what the class is
 * evidently meant to do. Each defect has two halves here: a lemma about the
 * member as written (in Utf8Decode, Utf8Index and Utf8Strings) that shows
 * the wrong result, and a corrected definition with the intended property
 * proved about it.
 */
module Utf8Findings {
  import opened Wrappers
  import opened Utf8Decode
  import opened Utf8Index
  import opened Utf8Strings

  // ---------------------------------------------------------------------------
  // operator!= compares with ==

  /** operator!= as evidently intended: true exactly when the bytes differ. */
  function NotEqualsFixed(a: Utf8String, b: Utf8String): (r: bool)
    reads a, b
    ensures r <==> !a.Equals(b)
    ensures r != a.NotEquals(b)
  {
    a.data != b.data
  }

  // ---------------------------------------------------------------------------
  // at(n) and byte_of(n) accept n == length()

  /**
   * At n == length(), byte_of_unsafe reads past the last codepoint: when the
   * length is a multiple of K it reads the terminator of the index and
   * lands on byte 0, so at(length()) is the FIRST codepoint; otherwise it
   * lands on the end of the bytes and std::string::at throws out_of_range.
   */
  lemma AtLengthReadsTerminator(data: seq<byte>, idx: seq<nat>, len: nat)
    requires Indexed(data, idx, len) && len > 0
    ensures len / K <= |idx|
    ensures len % K == 0 ==> LookupOffset(data, idx, len) == 0 == Offset(data, 0)
    ensures len % K != 0 ==> LookupOffset(data, idx, len) == |data|
    ensures len % K != 0 ==> DecodeChar(data, LookupOffset(data, idx, len)) == Failure(OutOfRange)
  {
    LookupIsOffset(data, idx, len, len);
    OffsetIsKthStart(data, len);
  }

  /** byte_of(n) with the bound `n >= length()`. */
  method ByteOfChecked(s: Utf8String, n: nat) returns (r: Result<nat, Fault>)
    requires n < s.utf8length ==> n / K <= |s.nthcharat|
    ensures n >= s.utf8length ==> r == Failure(IndexTooLarge)
    ensures n < s.utf8length ==> r == Success(LookupOffset(s.data, s.nthcharat, n))
    ensures s.Valid() ==> (r.Success? <==> n < s.utf8length)
    ensures s.Valid() && r.Success? ==> r.value == Offset(s.data, n) && IsStart(s.data, r.value)
  {
    if n >= s.utf8length {
      return Failure(IndexTooLarge);
    }
    var b := s.ByteOfUnsafe(n);
    if s.Valid() {
      LookupIsOffset(s.data, s.nthcharat, s.utf8length, n);
      OffsetIsKthStart(s.data, n);
    }
    return Success(b);
  }

  /**
   * at(n) with the bound `n >= length()`: on a valid, well-formed string it
   * succeeds exactly for the codepoint numbers below the length, with the
   * codepoint that starts at their offset.
   */
  method AtChecked(s: Utf8String, n: nat) returns (r: Result<int, Fault>)
    requires n < s.utf8length ==> n / K <= |s.nthcharat|
    ensures n >= s.utf8length ==> r == Failure(IndexTooLarge)
    ensures s.Valid() && n < s.utf8length ==> r == DecodeChar(s.data, Offset(s.data, n))
    ensures s.Valid() && WellFormed(s.data) ==> (r.Success? <==> n < s.utf8length)
  {
    if n >= s.utf8length {
      return Failure(IndexTooLarge);
    }
    var b := s.ByteOfUnsafe(n);
    r := s.CharAtByte(b);
    if s.Valid() {
      LookupIsOffset(s.data, s.nthcharat, s.utf8length, n);
      OffsetIsKthStart(s.data, n);
      if WellFormed(s.data) {
        assert SpanDecodes(s.data, b);
      }
    }
  }

  // ---------------------------------------------------------------------------
  // operator+=

  /**
   * The fast path of operator+= (length() % K == K - 1) appends the other
   * string's index unshifted and leaves the length as it was, although the
   * appended bytes hold at least one more codepoint.
   */
  lemma AppendFastPathKeepsLength(data: seq<byte>, idx: seq<nat>, len: nat, app: seq<byte>, appIdx: seq<nat>)
    requires Indexed(data, idx, len) && len % K == K - 1 && Joins(data, app) && |app| > 0
    ensures AppendIndex(data, idx, len, app, appIdx).1 == len < CodepointCount(data + app)
    ensures !Indexed(data + app, AppendIndex(data, idx, len, app, appIdx).0, AppendIndex(data, idx, len, app, appIdx).1)
  {
    ConcatOffsets(data, app);
    StartsBelowMono(app, 0, |app|);
    assert IsStart(app, 0);
  }

  /**
   * The build_index loop started at codepoint m with length len counts the
   * codepoints from m on: it ends with len + (count - m).
   */
  lemma {:induction false} ScanCounts(data: seq<byte>, m: nat, len: nat, idx: seq<nat>)
    requires m <= CodepointCount(data)
    ensures Scan(data, Offset(data, m), len, idx).1 == len + CodepointCount(data) - m
    decreases CodepointCount(data) - m
  {
    OffsetIsKthStart(data, m);
    if m < CodepointCount(data) {
      AdvanceAdd(data, 0, m, 1);
      ScanCounts(data, m + 1, len + 1, if len % K == 0 then idx + [Offset(data, m)] else idx);
    }
  }

  /** The entries the build_index loop starts with stay in front of the ones it appends. */
  lemma {:induction false} ScanKeepsFront(data: seq<byte>, i: nat, len: nat, front: seq<nat>, idx: seq<nat>)
    ensures Scan(data, i, len, front + idx).0 == front + Scan(data, i, len, idx).0
    ensures Scan(data, i, len, front + idx).1 == Scan(data, i, len, idx).1
    decreases |data| - i
  {
    if i < |data| {
      if len % K == 0 {
        assert (front + idx) + [i] == front + (idx + [i]);
      }
      ScanKeepsFront(data, Next(data, i), len + 1, front, if len % K == 0 then idx + [i] else idx);
    }
  }

  /**
   * build_index(len) with 0 < len < K truncates the index to no entries and
   * rescans from codepoint len: it rebuilds every entry but the first, so
   * entry 0 ends up holding the offset of codepoint K.
   */
  lemma ShortRebuildDropsFirstEntry(d: seq<byte>, idx: seq<nat>, len: nat)
    requires 0 < len < K && len <= CodepointCount(d)
    ensures var r := BuildIndexResult(d, idx, len).0;
      && |r| + 1 == (CodepointCount(d) + K - 1) / K
      && (K < CodepointCount(d) ==> r[0] == Offset(d, K) && LookupOffset(d, r, 0) == Offset(d, K))
  {
    BuildIndexRestarts(d, idx, len);
    var start := Offset(d, len);
    assert BuildIndexResult(d, idx, len) == Scan(d, start, len, []);
    assert Prefix(d, [0], len);
    ScanBuildsIndex(d, start, len, [0]);
    ScanKeepsFront(d, start, len, [0], []);
    assert [0] + [] == [0];
    var r := Scan(d, start, len, []).0;
    if K < CodepointCount(d) {
      assert ([0] + r)[1] == Offset(d, 1 * K);
    }
  }

  /**
   * The other path of operator+= calls build_index(length()), which starts
   * over at codepoint length() % K while counting from length(): the new
   * length exceeds the true count by length() - length() % K. When the
   * length is below K the count comes out right, but the first index entry
   * is lost and entry 0 holds codepoint K. Either way the invariant breaks
   * for every non-empty string.
   */
  lemma AppendRebuildOvercounts(data: seq<byte>, idx: seq<nat>, len: nat, app: seq<byte>, appIdx: seq<nat>)
    requires Indexed(data, idx, len) && len % K != K - 1 && Joins(data, app)
    ensures AppendIndex(data, idx, len, app, appIdx).1 == CodepointCount(data + app) + (len - len % K)
    ensures 0 < len < K ==>
      |AppendIndex(data, idx, len, app, appIdx).0| + 1 == (CodepointCount(data + app) + K - 1) / K
    ensures 0 < len < K && K < CodepointCount(data + app) ==>
      && AppendIndex(data, idx, len, app, appIdx).0[0] == Offset(data + app, K)
      && LookupOffset(data + app, AppendIndex(data, idx, len, app, appIdx).0, 0) == Offset(data + app, K)
    ensures 0 < len ==>
      !Indexed(data + app, AppendIndex(data, idx, len, app, appIdx).0, AppendIndex(data, idx, len, app, appIdx).1)
  {
    var d := data + app;
    ConcatOffsets(data, app);
    if len == 0 {
      ScanCounts(d, 0, 0, idx);
    } else {
      BuildIndexRestarts(d, idx, len);
      ScanCounts(d, len % K, len, Resized(idx, len / K, 0));
      if len < K {
        ShortRebuildDropsFirstEntry(d, idx, len);
      }
    }
  }

  /**
   * "abc" += "defghijklm": the rebuild leaves the index [8] with length 13,
   * so byte_of_unsafe(0), and with it at(0), lands on 'i' instead of 'a'.
   */
  lemma AppendShortExample()
    ensures AppendIndex([97, 98, 99], [0], 3, [100, 101, 102, 103, 104, 105, 106, 107, 108, 109], []) == ([8], 13)
    ensures LookupOffset([97, 98, 99, 100, 101, 102, 103, 104, 105, 106, 107, 108, 109], [8], 0) == 8
  {
    var a: seq<byte> := [97, 98, 99];
    var b: seq<byte> := [100, 101, 102, 103, 104, 105, 106, 107, 108, 109];
    assert a + b == [97, 98, 99, 100, 101, 102, 103, 104, 105, 106, 107, 108, 109];
    ShortAppendWithoutFragments(a, b);
  }

  /** Three single-byte codepoints += ten more: the rebuilt index is [8], the length 13. */
  lemma ShortAppendWithoutFragments(a: seq<byte>, b: seq<byte>)
    requires |a| == 3 && |b| == 10
    requires forall j :: 0 <= j < |a + b| ==> !IsFragment((a + b)[j])
    ensures AppendIndex(a, [0], 3, b, []) == ([8], 13)
    ensures LookupOffset(a + b, [8], 0) == 8
  {
    var d := a + b;
    forall j | 0 <= j < |a| ensures !IsFragment(a[j]) {
      assert a[j] == d[j];
    }
    NoFragmentOffsets(a, 3);
    NoFragmentOffsets(d, 8);
    NoFragmentOffsets(d, 13);
    assert !IsFragment(d[3]);
    assert Indexed(a, [0], 3);
    AppendRebuildOvercounts(a, [0], 3, b, []);
    var r := AppendIndex(a, [0], 3, b, []).0;
    assert r == [8];
  }

  /** Without continuation bytes every byte is a codepoint: codepoint k starts at byte k. */
  lemma {:induction false} NoFragmentOffsets(d: seq<byte>, k: nat)
    requires k <= |d| && forall j :: 0 <= j < |d| ==> !IsFragment(d[j])
    ensures Offset(d, k) == k && StartsBelow(d, k) == k
    decreases k
  {
    if k > 0 {
      NoFragmentOffsets(d, k - 1);
      AdvanceAdd(d, 0, k - 1, 1);
    }
  }

  /**
   * operator+= repaired: the bytes are appended, and the index is extended
   * by scanning the new bytes from the old end, or rebuilt from scratch
   * when the first appended byte continues the last codepoint.
   */
  method AppendFixed(s: Utf8String, app: Utf8String)
    modifies s
    ensures s.data == old(s.data) + old(app.data)
    ensures (s.nthcharat, s.utf8length) == AppendIndexFixed(old(s.data), old(s.nthcharat), old(s.utf8length), old(app.data))
    ensures old(s.Valid()) ==> s.Valid()
  {
    var appData := app.data;
    ghost var data0, idx0, len0 := s.data, s.nthcharat, s.utf8length;
    ghost var want := AppendIndexFixed(data0, idx0, len0, appData);
    var i: nat := |s.data|;
    var joins := |s.data| == 0 || |appData| == 0 || !IsFragment(appData[0]);
    s.data := s.data + appData;
    if !joins {
      s.nthcharat, s.utf8length, i := [], 0, 0;
    }
    while i < |s.data|
      invariant s.data == data0 + appData
      invariant Scan(s.data, i, s.utf8length, s.nthcharat) == want
      decreases |s.data| - i
    {
      if s.utf8length % K == 0 {
        s.nthcharat := s.nthcharat + [i];
      }
      i := s.SkipFrom(i);
      s.utf8length := s.utf8length + 1;
    }
    if old(s.Valid()) {
      AppendFixedKeepsIndex(old(s.data), old(s.nthcharat), old(s.utf8length), old(app.data));
    }
  }

  // ---------------------------------------------------------------------------
  // resize(n) below the length: shrink_to(n) keeps the old length

  /** resize(n) for n below the length, with the length set to n after shrink_to(n). */
  method ShrinkFixed(s: Utf8String, n: nat)
    requires n < s.utf8length ==> n / K <= |s.nthcharat|
    modifies s
    ensures n < old(s.utf8length) ==>
      && s.data == ShrinkData(old(s.data), old(s.nthcharat), n)
      && s.nthcharat == ShrinkIndex(old(s.nthcharat), n)
      && s.utf8length == n
    ensures n >= old(s.utf8length) ==> s.data == old(s.data) && s.nthcharat == old(s.nthcharat) && s.utf8length == old(s.utf8length)
    ensures old(s.Valid()) ==> s.Valid()
  {
    if n < s.utf8length {
      s.ShrinkTo(n);
      s.utf8length := n;
      if old(s.Valid()) {
        ShrinkIndexesPrefix(old(s.data), old(s.nthcharat), old(s.utf8length), n);
      }
    }
  }

  // ---------------------------------------------------------------------------
  // substdstr(pos, len): `pos + len - 1 > length()` lets pos + len == length() + 1 through

  /**
   * With pos + len one past the length, substdstr looks up codepoint
   * length(): when the length is a multiple of K that is byte 0, and
   * substdstr(0, length() + 1) returns the first codepoint alone; otherwise
   * it is the end of the bytes, and std::string::at throws out_of_range
   * instead of the range_error.
   */
  lemma SubStdStrOnePast(data: seq<byte>, idx: seq<nat>, len: nat)
    requires Indexed(data, idx, len) && WellFormed(data) && |data| < NPOS && 0 < len < NPOS - 1
    ensures SubStdStrDefined(idx, len, 0, len + 1)
    ensures 0 < Offset(data, 1) <= |data|
    ensures len % K == 0 ==> SubStdStr(data, idx, len, 0, len + 1) == Success(data[..Offset(data, 1)])
    ensures len % K != 0 ==> SubStdStr(data, idx, len, 0, len + 1) == Failure(OutOfRange)
  {
    OnePastLookups(data, idx, len);
    OffsetIsKthStart(data, 1);
    if len % K == 0 {
      OffsetIsKthStart(data, 0);
      assert SpanDecodes(data, 0);
      SubStdStrOfOffsets(data, idx, len, 0, len + 1, 0, 0, Offset(data, 1));
    } else {
      assert DecodeLength(data, |data|) == Failure(OutOfRange);
    }
  }

  /** The two index reads of substdstr(0, length() + 1). */
  lemma OnePastLookups(data: seq<byte>, idx: seq<nat>, len: nat)
    requires Indexed(data, idx, len) && |data| < NPOS && len > 0
    ensures Last(0, len + 1) == len && len / K <= |idx|
    ensures SubStdStrDefined(idx, len, 0, len + 1)
    ensures LookupOffset(data, idx, 0) == 0
    ensures LookupOffset(data, idx, len) == if len % K == 0 then 0 else |data|
  {
    assert len <= |data| by {
      OffsetLowerBound(data, len);
      OffsetIsKthStart(data, len);
    }
    assert Last(0, len + 1) == len by {
      WrapSub(len + 1, 1);
    }
    LookupIsOffset(data, idx, len, len);
    LookupIsOffset(data, idx, len, 0);
    OffsetIsKthStart(data, len);
  }

  /** substdstr(0, 0) wraps pos + len - 1 to npos and throws, where the empty string is meant. */
  lemma SubStdStrEmptyRefused(data: seq<byte>, idx: seq<nat>, utf8length: nat)
    requires SubStdStrDefined(idx, utf8length, 0, 0) && utf8length < NPOS
    ensures SubStdStr(data, idx, utf8length, 0, 0) == Failure(RangeError)
  {
  }

  /** The index reads of the repaired substdstr stay within nthcharat and its terminator. */
  predicate SubStdStrFixedDefined(idx: seq<nat>, utf8length: nat, pos: nat, len: nat) {
    pos <= utf8length ==>
      && pos / K <= |idx|
      && (len != NPOS && 1 <= len <= utf8length - pos ==> (pos + len - 1) / K <= |idx|)
  }

  /** substdstr repaired: the bound is `len > length() - pos`, and a zero length gives the empty string. */
  function SubStdStrFixed(data: seq<byte>, idx: seq<nat>, utf8length: nat, pos: nat, len: nat): Result<seq<byte>, Fault>
    requires SubStdStrFixedDefined(idx, utf8length, pos, len)
  {
    if pos > utf8length then Failure(RangeError)
    else if len == NPOS then Substr(data, LookupOffset(data, idx, pos), NPOS)
    else if len > utf8length - pos then Failure(RangeError)
    else if len == 0 then Success([])
    else SubRange(data, LookupOffset(data, idx, pos), LookupOffset(data, idx, pos + len - 1))
  }

  /**
   * On a valid, well-formed string the repaired substdstr(pos, len) is
   * exactly the bytes of codepoints pos .. pos + len - 1, and a range_error
   * whenever that range leaves the string.
   */
  lemma SubStdStrFixedSlices(data: seq<byte>, idx: seq<nat>, utf8length: nat, pos: nat, len: nat)
    requires Indexed(data, idx, utf8length) && WellFormed(data) && |data| < NPOS && len != NPOS
    ensures SubStdStrFixedDefined(idx, utf8length, pos, len)
    ensures pos + len <= utf8length ==> Offset(data, pos) <= Offset(data, pos + len) <= |data|
    ensures SubStdStrFixed(data, idx, utf8length, pos, len) ==
            if pos + len > utf8length then Failure(RangeError)
            else Success(data[Offset(data, pos)..Offset(data, pos + len)])
  {
    if pos <= utf8length {
      LookupIsOffset(data, idx, utf8length, pos);
      OffsetIsKthStart(data, pos);
      if pos + len > utf8length {
        assert len > utf8length - pos;
      } else if len == 0 {
        assert data[Offset(data, pos)..Offset(data, pos + len)] == [];
      } else {
        assert utf8length <= |data| by {
          OffsetLowerBound(data, utf8length);
          OffsetIsKthStart(data, utf8length);
        }
        SubStdStrSlices(data, idx, utf8length, pos, len);
        FixedAgreesInRange(data, idx, utf8length, pos, len);
      }
    }
  }

  /** Inside the string the repaired substdstr reads what the written one reads. */
  lemma FixedAgreesInRange(data: seq<byte>, idx: seq<nat>, utf8length: nat, pos: nat, len: nat)
    requires SubStdStrDefined(idx, utf8length, pos, len)
    requires 1 <= len && pos + len <= utf8length < NPOS
    ensures SubStdStrFixedDefined(idx, utf8length, pos, len)
    ensures SubStdStrFixed(data, idx, utf8length, pos, len) == SubStdStr(data, idx, utf8length, pos, len)
  {
    WrapSub(pos + len, 1);
  }

  // ---------------------------------------------------------------------------
  // utf8char_at_byte: the "truncated char" guard

  /**
   * The continuation loop with the guard `n >= data.length()` (after the
   * increment) that the "truncated char" exception evidently means.
   */
  function ContinueFixed(data: seq<byte>, n: nat, acc: int, k: nat): Result<int, Fault>
    decreases k
  {
    if k == 0 then Success(acc)
    else if n + 1 >= |data| then Failure(Truncated)
    else if !IsFragment(data[n + 1]) then Failure(NotContinuation)
    else ContinueFixed(data, n + 1, acc * 64 + data[n + 1] % 64, k - 1)
  }

  /**
   * The repaired loop reports Truncated exactly where the written one runs
   * into std::string::at, never OutOfRange, and agrees with it otherwise;
   * in particular a lead byte whose continuation bytes run past the end is
   * reported as truncated.
   */
  lemma {:induction false} ContinueFixedReportsTruncation(data: seq<byte>, n: nat, acc: int, k: nat)
    ensures ContinueFixed(data, n, acc, k) != Failure(OutOfRange)
    ensures Continue(data, n, acc, k) == Failure(OutOfRange) || Continue(data, n, acc, k) == Failure(Truncated)
            ==> ContinueFixed(data, n, acc, k) == Failure(Truncated)
    ensures Continue(data, n, acc, k) != Failure(OutOfRange) && Continue(data, n, acc, k) != Failure(Truncated)
            ==> ContinueFixed(data, n, acc, k) == Continue(data, n, acc, k)
    ensures n < |data| && n + k >= |data| && (forall i :: n < i < |data| ==> IsFragment(data[i]))
            ==> ContinueFixed(data, n, acc, k) == Failure(Truncated)
    decreases k
  {
    if n < |data| && n + k >= |data| && (forall i :: n < i < |data| ==> IsFragment(data[i])) {
      ContinueRunsOut(data, n, acc, k);
    }
    if k > 0 && n + 1 < |data| && IsFragment(data[n + 1]) {
      ContinueFixedReportsTruncation(data, n + 1, acc * 64 + data[n + 1] % 64, k - 1);
    }
  }
}
