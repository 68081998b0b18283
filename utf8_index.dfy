/**
 * The codepoint index of utf8::utf8_string (include/utf8_string.hpp).
 *
 * A codepoint starts at byte 0 and at every byte that is not of the form
 * 10xxxxxx. Entry b of the sparse index `nthcharat` is meant to hold the byte
 * offset of codepoint b * K, where K = CHARSPERIND = 1 << po2log2<sizeof(size_t)>
 * = 8 on a 64-bit target; `utf8length` is meant to hold the number of
 * codepoints. This module states that invariant (Indexed), gives the loops of
 * the class their specification functions, and proves which operations keep
 * the invariant.
 */
module Utf8Index {
  import opened Wrappers
  import opened Utf8Decode
  import Arith

  /** CHARSPERIND; SHIFTBY = 3 and LOSTBITS = K - 1. */
  const K: nat := 8

  /** One past the largest size_t. */
  const SIZE: nat := 0x1_0000_0000_0000_0000

  /** std::string::npos, the default length of substdstr. */
  const NPOS: nat := SIZE - 1

  /**
   * The skip loop `while (++bat < data.length() && utf8_is_fragment(data.at(bat)))`
   * started at bat = b: the first position after b that is past the buffer or
   * holds a byte that is not a continuation byte.
   */
  function Next(data: seq<byte>, b: nat): (r: nat)
    ensures r > b
    ensures r < |data| ==> !IsFragment(data[r])
    ensures r <= |data| || r == b + 1
    ensures forall j :: b < j < r ==> j < |data| && IsFragment(data[j])
    decreases |data| - b
  {
    if b + 1 < |data| && IsFragment(data[b + 1]) then Next(data, b + 1) else b + 1
  }

  /** The skip loop run m times from b. */
  function Advance(data: seq<byte>, b: nat, m: nat): nat
    decreases m
  {
    if m == 0 then b else Advance(data, Next(data, b), m - 1)
  }

  /** The byte offset of codepoint k: k skips from byte 0. */
  function Offset(data: seq<byte>, k: nat): nat {
    Advance(data, 0, k)
  }

  /** Byte j begins a codepoint: it is byte 0 or not a continuation byte. */
  predicate IsStart(data: seq<byte>, j: nat) {
    j < |data| && (j == 0 || !IsFragment(data[j]))
  }

  /** The number of codepoint starts among bytes 0 .. hi - 1. */
  function StartsBelow(data: seq<byte>, hi: nat): nat
    requires hi <= |data|
  {
    if hi == 0 then 0 else StartsBelow(data, hi - 1) + (if IsStart(data, hi - 1) then 1 else 0)
  }

  /** What length() is meant to return: the number of codepoint starts in the buffer. */
  function CodepointCount(data: seq<byte>): nat {
    StartsBelow(data, |data|)
  }

  /** nthcharat[i] for i <= nthcharat.size(): index size() reads the terminating NUL of basic_string. */
  function EntryAt(idx: seq<nat>, i: nat): nat
    requires i <= |idx|
  {
    if i == |idx| then 0 else idx[i]
  }

  /** byte_of_unsafe(n): from entry n / K, skip n % K codepoints. */
  function LookupOffset(data: seq<byte>, idx: seq<nat>, n: nat): nat
    requires n / K <= |idx|
  {
    Advance(data, EntryAt(idx, n / K), n % K)
  }

  /** The first |idx| entries of the index are right for the first len codepoints. */
  ghost predicate Prefix(data: seq<byte>, idx: seq<nat>, len: nat) {
    && |idx| == (len + K - 1) / K
    && forall b :: 0 <= b < |idx| ==> idx[b] == Offset(data, b * K)
  }

  /** The invariant the class is designed around: the length and the index are right for data. */
  ghost predicate Indexed(data: seq<byte>, idx: seq<nat>, len: nat) {
    len == CodepointCount(data) && Prefix(data, idx, len)
  }

  /**
   * Every codepoint start decodes, and its decoded length reaches exactly
   * the next start.
   */
  ghost predicate WellFormed(data: seq<byte>) {
    forall j: nat :: IsStart(data, j) ==> SpanDecodes(data, j)
  }

  // ---------------------------------------------------------------------------
  // Skips and starts

  lemma {:induction false} AdvanceAdd(data: seq<byte>, b: nat, x: nat, y: nat)
    ensures Advance(data, Advance(data, b, x), y) == Advance(data, b, x + y)
    decreases x
  {
    if x > 0 {
      AdvanceAdd(data, Next(data, b), x - 1, y);
    }
  }

  /** No codepoint starts strictly between b and the position the skip loop stops at. */
  lemma {:induction false} SkipHasNoStarts(data: seq<byte>, b: nat, j: nat)
    requires b < j <= Next(data, b) && j <= |data|
    ensures StartsBelow(data, j) == StartsBelow(data, b + 1)
    decreases j
  {
    if j > b + 1 {
      SkipHasNoStarts(data, b, j - 1);
    }
  }

  lemma {:induction false} StartsBelowMono(data: seq<byte>, i: nat, j: nat)
    requires i <= j <= |data|
    ensures StartsBelow(data, i) <= StartsBelow(data, j)
    ensures i < j && IsStart(data, i) ==> StartsBelow(data, i) < StartsBelow(data, j)
    decreases j
  {
    if i < j {
      StartsBelowMono(data, i, j - 1);
    }
  }

  /**
   * For k up to the codepoint count, Offset(k) is the position with exactly k
   * starts before it: a start when k is below the count, the end of the
   * buffer when k is the count.
   */
  lemma {:induction false} OffsetIsKthStart(data: seq<byte>, k: nat)
    requires k <= CodepointCount(data)
    ensures Offset(data, k) <= |data|
    ensures StartsBelow(data, Offset(data, k)) == k
    ensures k < CodepointCount(data) ==> IsStart(data, Offset(data, k))
    ensures k == CodepointCount(data) ==> Offset(data, k) == |data|
    decreases k
  {
    if k == 0 {
      if |data| > 0 {
        StartsBelowMono(data, 0, |data|);
      }
    } else {
      OffsetIsKthStart(data, k - 1);
      var o := Offset(data, k - 1);
      AdvanceAdd(data, 0, k - 1, 1);
      assert Offset(data, k) == Next(data, o);
      var j := Next(data, o);
      SkipHasNoStarts(data, o, j);
      assert StartsBelow(data, o + 1) == k;
      if j < |data| {
        assert IsStart(data, j);
        StartsBelowMono(data, j, |data|);
      }
    }
  }

  /** Offsets grow strictly with the codepoint number. */
  lemma {:induction false} OffsetStrict(data: seq<byte>, i: nat, k: nat)
    requires i < k
    ensures Offset(data, i) < Offset(data, k)
    decreases k
  {
    AdvanceAdd(data, 0, k - 1, 1);
    if i < k - 1 {
      OffsetStrict(data, i, k - 1);
    }
  }

  // ---------------------------------------------------------------------------
  // Reading the index

  /**
   * With the invariant in place, byte_of_unsafe(n) for n up to the length is
   * the offset of codepoint n, except that n == length() with n a multiple
   * of K reads the terminating NUL of the index and returns 0.
   */
  lemma LookupIsOffset(data: seq<byte>, idx: seq<nat>, len: nat, n: nat)
    requires Indexed(data, idx, len) && n <= len
    ensures n / K <= |idx|
    ensures LookupOffset(data, idx, n) == if n == len && n % K == 0 then 0 else Offset(data, n)
    ensures n < len ==> IsStart(data, LookupOffset(data, idx, n))
  {
    var q, r := n / K, n % K;
    assert n == q * K + r;
    if n < len || r != 0 {
      assert q < |idx|;
      AdvanceAdd(data, 0, q * K, r);
    }
    if n < len {
      OffsetIsKthStart(data, n);
    }
  }

  // ---------------------------------------------------------------------------
  // build_index

  /** The loop of build_index from byte i with utf8length = len and the index built so far. */
  function Scan(data: seq<byte>, i: nat, len: nat, idx: seq<nat>): (seq<nat>, nat)
    decreases |data| - i
  {
    if i >= |data| then (idx, len)
    else Scan(data, Next(data, i), len + 1, if len % K == 0 then idx + [i] else idx)
  }

  lemma CeilStep(len: nat)
    ensures (len + 1 + K - 1) / K == (len + K - 1) / K + (if len % K == 0 then 1 else 0)
  {
  }

  /**
   * Started at the offset of codepoint len with a correct index prefix, the
   * build_index loop ends with the whole invariant.
   */
  lemma {:induction false} ScanBuildsIndex(data: seq<byte>, i: nat, len: nat, idx: seq<nat>)
    requires len <= CodepointCount(data) && i == Offset(data, len) && Prefix(data, idx, len)
    ensures Indexed(data, Scan(data, i, len, idx).0, Scan(data, i, len, idx).1)
    decreases |data| - i
  {
    OffsetIsKthStart(data, len);
    if i < |data| {
      var idx' := if len % K == 0 then idx + [i] else idx;
      PrefixStep(data, idx, len, i);
      AdvanceAdd(data, 0, len, 1);
      ScanBuildsIndex(data, Next(data, i), len + 1, idx');
    }
  }

  /** One step of the build_index loop extends a correct index prefix by one codepoint. */
  lemma PrefixStep(data: seq<byte>, idx: seq<nat>, len: nat, i: nat)
    requires i == Offset(data, len) && Prefix(data, idx, len)
    ensures Prefix(data, if len % K == 0 then idx + [i] else idx, len + 1)
  {
    var idx' := if len % K == 0 then idx + [i] else idx;
    CeilStep(len);
    forall b | 0 <= b < |idx'| ensures idx'[b] == Offset(data, b * K) {
      if b == |idx| {
        assert b * K == len;
      }
    }
  }

  /** Construction, build_index(0): the invariant holds with the length the codepoint count. */
  lemma BuildFromScratch(data: seq<byte>)
    ensures Indexed(data, Scan(data, 0, 0, []).0, Scan(data, 0, 0, []).1)
    ensures Scan(data, 0, 0, []).1 == CodepointCount(data)
  {
    ScanBuildsIndex(data, 0, 0, []);
  }

  /** std::basic_string::resize: truncate, or pad with copies of fill. */
  function Resized<T>(s: seq<T>, n: nat, fill: T): (r: seq<T>)
    ensures |r| == n
    ensures forall i :: 0 <= i < n ==> r[i] == if i < |s| then s[i] else fill
  {
    if n <= |s| then s[..n] else s + seq(n - |s|, _ => fill)
  }

  /** build_index(from): the length, the index and the byte the loop starts from. */
  function BuildIndexStart(data: seq<byte>, idx: seq<nat>, from: nat): (seq<nat>, nat)
  {
    if from == 0 then (idx, 0)
    else
      var idx' := Resized(idx, from / K, 0);
      (idx', LookupOffset(data, idx', from))
  }

  function BuildIndexResult(data: seq<byte>, idx: seq<nat>, from: nat): (seq<nat>, nat) {
    var (idx', i) := BuildIndexStart(data, idx, from);
    Scan(data, i, from, idx')
  }

  /**
   * build_index(from) with from > 0 truncates the index to from / K entries,
   * so byte_of_unsafe(from) reads the terminator and starts over at byte 0:
   * scanning begins at the offset of codepoint from % K, not from.
   */
  lemma BuildIndexRestarts(data: seq<byte>, idx: seq<nat>, from: nat)
    requires from > 0
    ensures BuildIndexStart(data, idx, from).1 == Offset(data, from % K)
    ensures |BuildIndexStart(data, idx, from).0| == from / K
  {
  }

  // ---------------------------------------------------------------------------
  // Concatenation

  /** Appending ext cannot merge its first byte into the last codepoint of data. */
  predicate Joins(data: seq<byte>, ext: seq<byte>) {
    |data| == 0 || |ext| == 0 || !IsFragment(ext[0])
  }

  lemma {:induction false} NextInPrefix(data: seq<byte>, ext: seq<byte>, b: nat)
    requires b < |data| && Joins(data, ext)
    ensures Next(data + ext, b) == Next(data, b)
    decreases |data| - b
  {
    if b + 1 < |data| && IsFragment(data[b + 1]) {
      NextInPrefix(data, ext, b + 1);
    }
  }

  lemma {:induction false} NextInSuffix(data: seq<byte>, ext: seq<byte>, b: nat)
    ensures Next(data + ext, |data| + b) == |data| + Next(ext, b)
    decreases |ext| - b
  {
    if b + 1 < |ext| && IsFragment(ext[b + 1]) {
      NextInSuffix(data, ext, b + 1);
    }
  }

  lemma {:induction false} AdvanceInSuffix(data: seq<byte>, ext: seq<byte>, b: nat, m: nat)
    ensures Advance(data + ext, |data| + b, m) == |data| + Advance(ext, b, m)
    decreases m
  {
    if m > 0 {
      NextInSuffix(data, ext, b);
      AdvanceInSuffix(data, ext, Next(ext, b), m - 1);
    }
  }

  lemma {:induction false} OffsetInPrefix(data: seq<byte>, ext: seq<byte>, k: nat)
    requires k <= CodepointCount(data) && Joins(data, ext)
    ensures Offset(data + ext, k) == Offset(data, k)
    decreases k
  {
    if k > 0 {
      OffsetInPrefix(data, ext, k - 1);
      OffsetIsKthStart(data, k - 1);
      AdvanceAdd(data, 0, k - 1, 1);
      AdvanceAdd(data + ext, 0, k - 1, 1);
      NextInPrefix(data, ext, Offset(data, k - 1));
    }
  }

  lemma {:induction false} StartsBelowConcat(data: seq<byte>, ext: seq<byte>, j: nat)
    requires j <= |ext| && Joins(data, ext)
    ensures StartsBelow(data + ext, |data| + j) == CodepointCount(data) + StartsBelow(ext, j)
    decreases j
  {
    if j == 0 {
      StartsBelowPrefix(data, ext, |data|);
    } else {
      StartsBelowConcat(data, ext, j - 1);
      assert (data + ext)[|data| + j - 1] == ext[j - 1];
    }
  }

  lemma {:induction false} StartsBelowPrefix(data: seq<byte>, ext: seq<byte>, j: nat)
    requires j <= |data|
    ensures StartsBelow(data + ext, j) == StartsBelow(data, j)
    decreases j
  {
    if j > 0 {
      StartsBelowPrefix(data, ext, j - 1);
      assert (data + ext)[j - 1] == data[j - 1];
    }
  }

  /**
   * Concatenating two buffers that join cleanly adds their codepoint
   * counts; the offsets of the first part stay, those of the second are
   * shifted by the size of the first.
   */
  lemma ConcatOffsets(data: seq<byte>, ext: seq<byte>)
    requires Joins(data, ext)
    ensures CodepointCount(data + ext) == CodepointCount(data) + CodepointCount(ext)
    ensures forall k :: 0 <= k <= CodepointCount(data) ==> Offset(data + ext, k) == Offset(data, k)
    ensures forall m :: 0 <= m ==>
      Offset(data + ext, CodepointCount(data) + m) == |data| + Offset(ext, m)
  {
    StartsBelowConcat(data, ext, |ext|);
    forall k | 0 <= k <= CodepointCount(data) ensures Offset(data + ext, k) == Offset(data, k) {
      OffsetInPrefix(data, ext, k);
    }
    var c := CodepointCount(data);
    OffsetIsKthStart(data, c);
    forall m | 0 <= m ensures Offset(data + ext, c + m) == |data| + Offset(ext, m) {
      OffsetInPrefix(data, ext, c);
      AdvanceAdd(data + ext, 0, c, m);
      AdvanceInSuffix(data, ext, 0, m);
    }
  }

  /** Well-formed buffers that join cleanly concatenate to a well-formed buffer. */
  lemma WellFormedConcat(data: seq<byte>, ext: seq<byte>)
    requires Joins(data, ext) && WellFormed(data) && WellFormed(ext)
    ensures WellFormed(data + ext)
  {
    forall j: nat | IsStart(data + ext, j) ensures SpanDecodes(data + ext, j) {
      if j < |data| {
        assert (data + ext)[j] == data[j];
        assert IsStart(data, j);
        DecodeExtend(data, ext, j);
        NextInPrefix(data, ext, j);
      } else {
        var i := j - |data|;
        assert (data + ext)[j] == ext[i];
        assert IsStart(ext, i);
        DecodeShift(data, ext, i);
        NextInSuffix(data, ext, i);
      }
    }
  }

  /** Runs of NUL bytes, as std::string::resize appends them. */
  function Zeros(m: nat): (r: seq<byte>)
    ensures |r| == m && forall i :: 0 <= i < m ==> r[i] == 0
  {
    seq(m, _ => 0)
  }

  lemma {:induction false} ZerosOffsets(m: nat, k: nat)
    ensures Offset(Zeros(m), k) == k
    decreases k
  {
    if k > 0 {
      ZerosOffsets(m, k - 1);
      AdvanceAdd(Zeros(m), 0, k - 1, 1);
    }
  }

  lemma {:induction false} ZerosCount(m: nat, j: nat)
    requires j <= m
    ensures StartsBelow(Zeros(m), j) == j
    decreases j
  {
    if j > 0 {
      ZerosCount(m, j - 1);
    }
  }

  // ---------------------------------------------------------------------------
  // Growing resize

  /** The loop of resize(n) for n > length(): an entry for every multiple of K in leno .. n - 1. */
  function GrowEntries(idx: seq<nat>, leno: nat, n: nat, szo: nat): seq<nat>
    decreases n - leno
  {
    if leno >= n then idx
    else GrowEntries(if leno % K == 0 then idx + [szo] else idx, leno + 1, n, szo + 1)
  }

  lemma {:induction false} GrowPrefix(data: seq<byte>, idx: seq<nat>, leno: nat, n: nat, szo: nat)
    requires Prefix(data, idx, leno) && leno <= n
    requires forall k :: leno <= k <= n ==> Offset(data, k) == szo + (k - leno)
    ensures Prefix(data, GrowEntries(idx, leno, n, szo), n)
    decreases n - leno
  {
    if leno < n {
      var idx' := if leno % K == 0 then idx + [szo] else idx;
      CeilStep(leno);
      assert Prefix(data, idx', leno + 1) by {
        forall b | 0 <= b < |idx'| ensures idx'[b] == Offset(data, b * K) {
          if b == |idx| {
            assert b * K == leno;
          }
        }
      }
      GrowPrefix(data, idx', leno + 1, n, szo + 1);
    }
  }

  /** Growing resize(n) keeps the invariant: n - length() NUL codepoints follow the old ones. */
  lemma GrowKeepsIndex(data: seq<byte>, idx: seq<nat>, len: nat, n: nat)
    requires Indexed(data, idx, len) && n > len
    ensures Indexed(data + Zeros(n - len), GrowEntries(idx, len, n, |data|), n)
  {
    var z := Zeros(n - len);
    ConcatOffsets(data, z);
    ZerosCount(n - len, n - len);
    assert Prefix(data + z, idx, len);
    forall k | len <= k <= n ensures Offset(data + z, k) == |data| + (k - len) {
      assert Offset(data + z, len + (k - len)) == |data| + Offset(z, k - len);
      ZerosOffsets(n - len, k - len);
    }
    GrowPrefix(data + z, idx, len, n, |data|);
  }

  // ---------------------------------------------------------------------------
  // Shrinking resize

  /** shrink_to(n): the bytes and the index it leaves; utf8length is not touched. */
  function ShrinkData(data: seq<byte>, idx: seq<nat>, n: nat): seq<byte>
    requires n / K <= |idx|
  {
    Resized(data, LookupOffset(data, idx, n), 0)
  }

  function ShrinkIndex(idx: seq<nat>, n: nat): seq<nat> {
    Resized(idx, (n + K - 1) / K, 0)
  }

  /**
   * shrink_to(n) for n below the length leaves bytes and index that are
   * right for n codepoints: the invariant holds again once the length is n.
   */
  lemma ShrinkIndexesPrefix(data: seq<byte>, idx: seq<nat>, len: nat, n: nat)
    requires Indexed(data, idx, len) && n < len
    ensures n / K <= |idx| && Offset(data, n) <= |data|
    ensures ShrinkData(data, idx, n) == data[..Offset(data, n)]
    ensures Indexed(ShrinkData(data, idx, n), ShrinkIndex(idx, n), n)
  {
    LookupIsOffset(data, idx, len, n);
    OffsetIsKthStart(data, n);
    var o := Offset(data, n);
    var p, rest := data[..o], data[o..];
    assert data == p + rest;
    assert Offset(data, 0) == 0;
    assert Joins(p, rest) by {
      if |p| > 0 {
        assert rest[0] == data[o];
      }
    }
    StartsBelowPrefix(p, rest, o);
    assert CodepointCount(p) == n;
    ConcatOffsets(p, rest);
    var idx' := ShrinkIndex(idx, n);
    forall b | 0 <= b < |idx'| ensures idx'[b] == Offset(p, b * K) {
      assert b * K <= n;
    }
  }

  /** shrink_to(n) keeps the old length: the invariant is broken whenever n is below it. */
  lemma ShrinkKeepsStaleLength(data: seq<byte>, idx: seq<nat>, len: nat, n: nat)
    requires Indexed(data, idx, len) && n < len
    ensures n / K <= |idx|
    ensures !Indexed(ShrinkData(data, idx, n), ShrinkIndex(idx, n), len)
  {
    ShrinkIndexesPrefix(data, idx, len, n);
  }

  // ---------------------------------------------------------------------------
  // operator+=

  /** The index and length operator+= leaves, fast path and rebuild alike. */
  function AppendIndex(data: seq<byte>, idx: seq<nat>, len: nat, app: seq<byte>, appIdx: seq<nat>): (seq<nat>, nat) {
    if len % K == K - 1 then (idx + appIdx, len)
    else BuildIndexResult(data + app, idx, len)
  }

  /**
   * The repair: rescan from the end of the old bytes when the appended bytes
   * join cleanly, from scratch when they continue the last codepoint.
   */
  function AppendIndexFixed(data: seq<byte>, idx: seq<nat>, len: nat, app: seq<byte>): (seq<nat>, nat) {
    if Joins(data, app) then Scan(data + app, |data|, len, idx)
    else Scan(data + app, 0, 0, [])
  }

  lemma AppendFixedKeepsIndex(data: seq<byte>, idx: seq<nat>, len: nat, app: seq<byte>)
    requires Indexed(data, idx, len)
    ensures Indexed(data + app, AppendIndexFixed(data, idx, len, app).0, AppendIndexFixed(data, idx, len, app).1)
    ensures Joins(data, app) ==> AppendIndexFixed(data, idx, len, app).1 == len + CodepointCount(app)
  {
    if Joins(data, app) {
      ConcatOffsets(data, app);
      OffsetIsKthStart(data, len);
      assert Offset(data + app, len + 0) == |data| + Offset(app, 0);
      assert Prefix(data + app, idx, len);
      ScanBuildsIndex(data + app, |data|, len, idx);
    } else {
      BuildFromScratch(data + app);
    }
  }

  // ---------------------------------------------------------------------------
  // substdstr

  /** std::string::substr(from, count): out_of_range past the end, otherwise clamped. */
  function Substr(data: seq<byte>, from: nat, count: nat): Result<seq<byte>, Fault> {
    if from > |data| then Failure(OutOfRange)
    else Success(data[from..if from + count <= |data| then from + count else |data|])
  }

  /** pos + len - 1 in size_t arithmetic: the last codepoint substdstr(pos, len) asks for. */
  function Last(pos: nat, len: nat): nat {
    (pos + len + SIZE - 1) % SIZE
  }

  /** The bytes from `from` through the end of the codepoint that starts at `to`. */
  function SubRange(data: seq<byte>, from: nat, to: nat): Result<seq<byte>, Fault> {
    match DecodeLength(data, to)
    case Failure(e) => Failure(e)
    case Success(l) => Substr(data, from, (to + l + SIZE - from % SIZE) % SIZE)
  }

  /** substdstr(pos, len) with the size_t arithmetic of the source. */
  function SubStdStr(data: seq<byte>, idx: seq<nat>, utf8length: nat, pos: nat, len: nat): Result<seq<byte>, Fault>
    requires SubStdStrDefined(idx, utf8length, pos, len)
  {
    if pos > utf8length then Failure(RangeError)
    else if len == NPOS then Substr(data, LookupOffset(data, idx, pos), NPOS)
    else if Last(pos, len) > utf8length then Failure(RangeError)
    else SubRange(data, LookupOffset(data, idx, pos), LookupOffset(data, idx, Last(pos, len)))
  }

  /** The index reads of substdstr stay within nthcharat and its terminator. */
  predicate SubStdStrDefined(idx: seq<nat>, utf8length: nat, pos: nat, len: nat) {
    pos <= utf8length ==>
      && pos / K <= |idx|
      && (len != NPOS && Last(pos, len) <= utf8length ==> Last(pos, len) / K <= |idx|)
  }

  /**
   * On a well-formed, indexed string, substdstr(pos, len) with at least one
   * codepoint requested and pos + len within the length is the byte range
   * from codepoint pos up to codepoint pos + len.
   */
  lemma SubStdStrSlices(data: seq<byte>, idx: seq<nat>, utf8length: nat, pos: nat, len: nat)
    requires Indexed(data, idx, utf8length) && WellFormed(data) && |data| < NPOS
    requires 1 <= len && pos + len <= utf8length
    ensures SubStdStrDefined(idx, utf8length, pos, len)
    ensures Offset(data, pos) < Offset(data, pos + len) <= |data|
    ensures SubStdStr(data, idx, utf8length, pos, len) == Success(data[Offset(data, pos)..Offset(data, pos + len)])
  {
    var last := pos + len - 1;
    OffsetIsKthStart(data, last);
    assert SpanDecodes(data, Offset(data, last));
    SliceOfSpan(data, idx, utf8length, pos, len);
  }

  /** The codepoint at j decodes, and its length reaches the next start. */
  ghost predicate SpanDecodes(data: seq<byte>, j: nat) {
    DecodeAt(data, j).Success? && j + DecodeAt(data, j).value.1 == Next(data, j)
  }

  lemma SliceOfSpan(data: seq<byte>, idx: seq<nat>, utf8length: nat, pos: nat, len: nat)
    requires Indexed(data, idx, utf8length) && |data| < NPOS
    requires 1 <= len && pos + len <= utf8length
    requires SpanDecodes(data, Offset(data, pos + len - 1))
    ensures SubStdStrDefined(idx, utf8length, pos, len)
    ensures Offset(data, pos) < Offset(data, pos + len) <= |data|
    ensures SubStdStr(data, idx, utf8length, pos, len) == Success(data[Offset(data, pos)..Offset(data, pos + len)])
  {
    SpanFacts(data, idx, utf8length, pos, len);
    LastInRange(pos, len);
    SubStdStrOfOffsets(data, idx, utf8length, pos, len,
                       Offset(data, pos), Offset(data, pos + len - 1), Offset(data, pos + len));
  }

  /** Where the first and the last codepoint of a span start, read from the index, and where the span ends. */
  lemma SpanFacts(data: seq<byte>, idx: seq<nat>, utf8length: nat, pos: nat, len: nat)
    requires Indexed(data, idx, utf8length) && |data| < NPOS
    requires 1 <= len && pos + len <= utf8length
    requires SpanDecodes(data, Offset(data, pos + len - 1))
    ensures pos + len < NPOS
    ensures Offset(data, pos) < Offset(data, pos + len) <= |data|
    ensures pos / K <= |idx| && LookupOffset(data, idx, pos) == Offset(data, pos)
    ensures (pos + len - 1) / K <= |idx| && LookupOffset(data, idx, pos + len - 1) == Offset(data, pos + len - 1)
    ensures Offset(data, pos + len - 1) + DecodeAt(data, Offset(data, pos + len - 1)).value.1 == Offset(data, pos + len)
  {
    var last := pos + len - 1;
    assert Offset(data, pos) < Offset(data, pos + len) <= |data| by {
      OffsetsWithin(data, pos, pos + len);
    }
    CountAtMostLength(data);
    assert pos / K <= |idx| && LookupOffset(data, idx, pos) == Offset(data, pos) by {
      LookupIsOffset(data, idx, utf8length, pos);
    }
    assert last / K <= |idx| && LookupOffset(data, idx, last) == Offset(data, last) by {
      LookupIsOffset(data, idx, utf8length, last);
    }
    SpanEnd(data, last);
  }

  /** There are no more codepoints than bytes. */
  lemma CountAtMostLength(data: seq<byte>)
    ensures CodepointCount(data) <= |data|
  {
    OffsetLowerBound(data, CodepointCount(data));
    OffsetIsKthStart(data, CodepointCount(data));
  }

  /** A codepoint whose decode spans to the next start ends where the following codepoint starts. */
  lemma SpanEnd(data: seq<byte>, k: nat)
    requires SpanDecodes(data, Offset(data, k))
    ensures Offset(data, k) + DecodeAt(data, Offset(data, k)).value.1 == Offset(data, k + 1)
  {
    AdvanceAdd(data, 0, k, 1);
  }

  /** The unfolding of substdstr once its index reads and the decode at `to` are known. */
  lemma SubStdStrOfOffsets(data: seq<byte>, idx: seq<nat>, utf8length: nat, pos: nat, len: nat,
                           from: nat, to: nat, end: nat)
    requires pos / K <= |idx| && pos <= utf8length && len < NPOS && Last(pos, len) <= utf8length
    requires Last(pos, len) / K <= |idx|
    requires LookupOffset(data, idx, pos) == from && LookupOffset(data, idx, Last(pos, len)) == to
    requires DecodeAt(data, to).Success? && to + DecodeAt(data, to).value.1 == end
    requires from <= end <= |data| && end < SIZE
    ensures SubStdStrDefined(idx, utf8length, pos, len)
    ensures SubStdStr(data, idx, utf8length, pos, len) == Success(data[from..end])
  {
    WrapSub(end, from);
  }

  /** Offsets of codepoints up to the count are increasing and inside the buffer. */
  lemma OffsetsWithin(data: seq<byte>, a: nat, b: nat)
    requires a < b <= CodepointCount(data)
    ensures Offset(data, a) < Offset(data, b) <= |data|
  {
    OffsetStrict(data, a, b);
    OffsetIsKthStart(data, b);
  }

  /** The wrapped `pos + len - 1` of substdstr is the plain one when nothing wraps. */
  lemma LastInRange(pos: nat, len: nat)
    requires 1 <= len && pos + len < NPOS
    ensures Last(pos, len) == pos + len - 1 && len < NPOS
  {
    WrapSub(pos + len, 1);
  }

  /** Subtraction modulo 2^64 agrees with subtraction when nothing wraps. */
  lemma WrapSub(x: nat, y: nat)
    requires y <= x < SIZE
    ensures (x + SIZE - y % SIZE) % SIZE == x - y
    ensures (x + SIZE - y) % SIZE == x - y
  {
    Arith.DivUnique(x + SIZE - y, SIZE, 1, x - y);
  }

  /** substdstr refuses a start past the length, and a last codepoint past it. */
  lemma SubStdStrRangeErrors(data: seq<byte>, idx: seq<nat>, utf8length: nat, pos: nat, len: nat)
    requires SubStdStrDefined(idx, utf8length, pos, len)
    ensures pos > utf8length ==> SubStdStr(data, idx, utf8length, pos, len) == Failure(RangeError)
    ensures pos <= utf8length && len != NPOS && 1 <= len && utf8length < pos + len - 1 < SIZE ==>
              SubStdStr(data, idx, utf8length, pos, len) == Failure(RangeError)
  {
  }

  /** Joins the pieces in order; the first failure is the result, as an exception would end the loop. */
  function JoinAll(ps: seq<Result<seq<byte>, Fault>>): Result<seq<byte>, Fault> {
    if ps == [] then Success([])
    else
      match ps[0]
      case Failure(e) => Failure(e)
      case Success(p) =>
        match JoinAll(ps[1..])
        case Failure(e) => Failure(e)
        case Success(r) => Success(p + r)
  }

  /** substdstr(i, 1) for every i below the length, in order. */
  function Pieces(data: seq<byte>, idx: seq<nat>, utf8length: nat): (ps: seq<Result<seq<byte>, Fault>>)
    requires utf8length < SIZE && (utf8length + K - 1) / K <= |idx|
  {
    seq(utf8length, j requires 0 <= j < utf8length => SubStdStr(data, idx, utf8length, j, 1))
  }

  /** Piece j is the successful cut of data between offsets os[j] and os[j + 1]. */
  ghost predicate CutAt(ps: seq<Result<seq<byte>, Fault>>, data: seq<byte>, os: seq<nat>, j: nat)
    requires j < |ps| && |os| == |ps| + 1
  {
    os[j] <= os[j + 1] <= |data| && ps[j] == Success(data[os[j]..os[j + 1]])
  }

  /** Joining successful pieces that cut consecutive ranges of data gives the whole range. */
  lemma {:induction false} JoinSlices(ps: seq<Result<seq<byte>, Fault>>, data: seq<byte>, os: seq<nat>)
    requires |os| == |ps| + 1 && os[0] <= |data|
    requires forall j: nat :: j < |ps| ==> CutAt(ps, data, os, j)
    ensures os[0] <= os[|ps|] <= |data|
    ensures JoinAll(ps) == Success(data[os[0]..os[|ps|]])
    decreases |ps|
  {
    if ps != [] {
      var n := |ps|;
      var ps', os' := ps[1..], os[1..];
      assert CutAt(ps, data, os, 0);
      forall j: nat | j < |ps'| ensures CutAt(ps', data, os', j) {
        assert CutAt(ps, data, os, j + 1);
      }
      JoinSlices(ps', data, os');
      assert data[os[0]..os[n]] == data[os[0]..os[1]] + data[os[1]..os[n]];
    } else {
      assert data[os[0]..os[0]] == [];
    }
  }

  /**
   * The per-character reassembly: cutting a well-formed string into its
   * codepoints with substdstr(i, 1) and joining the pieces gives its bytes back.
   */
  lemma ReassemblyRoundTrip(data: seq<byte>, idx: seq<nat>, utf8length: nat)
    requires Indexed(data, idx, utf8length) && WellFormed(data) && |data| < NPOS
    ensures utf8length < SIZE
    ensures JoinAll(Pieces(data, idx, utf8length)) == Success(data)
  {
    OffsetIsKthStart(data, utf8length);
    assert utf8length <= |data| by {
      OffsetLowerBound(data, utf8length);
    }
    var ps := Pieces(data, idx, utf8length);
    var os := seq(utf8length + 1, j requires 0 <= j => Offset(data, j));
    forall j: nat | j < |ps| ensures CutAt(ps, data, os, j) {
      SubStdStrSlices(data, idx, utf8length, j, 1);
      assert os[j] == Offset(data, j) && os[j + 1] == Offset(data, j + 1);
      assert ps[j] == SubStdStr(data, idx, utf8length, j, 1);
    }
    JoinSlices(ps, data, os);
    OffsetIsKthStart(data, 0);
    assert data[os[0]..os[|ps|]] == data;
  }

  lemma {:induction false} OffsetLowerBound(data: seq<byte>, k: nat)
    ensures Offset(data, k) >= k
    decreases k
  {
    if k > 0 {
      OffsetLowerBound(data, k - 1);
      AdvanceAdd(data, 0, k - 1, 1);
    }
  }
}
