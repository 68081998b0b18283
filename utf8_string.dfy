/**
 * The class utf8::utf8_string (include/utf8_string.hpp): a byte buffer with
 * a sparse codepoint index, every member as the header writes it. The loops
 * are proved against the specification functions of Utf8Decode and
 * Utf8Index; what those functions mean is proved there.
 */
module Utf8Strings {
  import opened Wrappers
  import opened Utf8Decode
  import opened Utf8Index

  /** The bytes a `const char *` names: everything before its first NUL. */
  function CString(x: seq<byte>): (r: seq<byte>)
    ensures r <= x && 0 !in r
    ensures |r| < |x| ==> x[|r|] == 0
  {
    if x == [] || x[0] == 0 then [] else [x[0]] + CString(x[1..])
  }

  /** A byte string followed by its terminator reads back as itself. */
  lemma {:induction false} CStringOfTerminated(x: seq<byte>)
    requires 0 !in x
    ensures CString(x + [0]) == x
  {
    if x != [] {
      assert (x + [0])[1..] == x[1..] + [0];
      CStringOfTerminated(x[1..]);
    }
  }

  class Utf8String {
    var data: seq<byte>
    var nthcharat: seq<nat>
    var utf8length: nat

    /** The length and the index are right for the bytes. */
    ghost predicate Valid()
      reads this
    {
      Indexed(data, nthcharat, utf8length)
    }

    /** utf8_string(const std::string &): every byte of x, then build_index(0). */
    constructor FromStdString(x: seq<byte>)
      ensures data == x && Valid()
    {
      data := x;
      nthcharat := [];
      utf8length := 0;
      new;
      BuildIndex(0);
      BuildFromScratch(x);
    }

    /** utf8_string(const char *): the bytes before the first NUL, then build_index(0). */
    constructor FromCString(x: seq<byte>)
      ensures data == CString(x) && Valid()
    {
      data := CString(x);
      nthcharat := [];
      utf8length := 0;
      new;
      BuildIndex(0);
      BuildFromScratch(data);
    }

    /** utf8_string(): empty bytes, empty index, length 0. */
    constructor Empty()
      ensures data == [] && nthcharat == [] && utf8length == 0 && Valid()
    {
      data := [];
      nthcharat := [];
      utf8length := 0;
    }

    /** The skip loop `while (++bat < data.length() && utf8_is_fragment(data.at(bat)))`. */
    method SkipFrom(b: nat) returns (bat: nat)
      ensures bat == Next(data, b)
    {
      bat := b + 1;
      while bat < |data| && IsFragment(data[bat])
        invariant b < bat <= Next(data, b)
        decreases |data| - bat
      {
        bat := bat + 1;
      }
    }

    /** byte_of_unsafe(n); reading nthcharat past its terminator is undefined, hence the precondition. */
    method ByteOfUnsafe(n: nat) returns (bat: nat)
      requires n / K <= |nthcharat|
      ensures bat == LookupOffset(data, nthcharat, n)
    {
      var closest := n - n % K;
      bat := if n / K == |nthcharat| then 0 else nthcharat[n / K];
      while closest < n
        invariant n - n % K <= closest <= n
        invariant Advance(data, bat, n - closest) == LookupOffset(data, nthcharat, n)
      {
        closest := closest + 1;
        bat := SkipFrom(bat);
      }
    }

    /** build_index(from): resize the index to from / K entries, then scan from byte_of_unsafe(from). */
    method BuildIndex(from: nat)
      modifies this
      ensures data == old(data)
      ensures (nthcharat, utf8length) == BuildIndexResult(old(data), old(nthcharat), from)
    {
      var sz := |data|;
      utf8length := from;
      if from > 0 {
        nthcharat := Resized(nthcharat, from / K, 0);
      }
      var i: nat := 0;
      if from > 0 {
        i := ByteOfUnsafe(from);
      }
      while i < sz
        invariant data == old(data) && sz == |data|
        invariant Scan(data, i, utf8length, nthcharat) == BuildIndexResult(old(data), old(nthcharat), from)
        decreases sz - i
      {
        if utf8length % K == 0 {
          nthcharat := nthcharat + [i];
        }
        i := SkipFrom(i);
        utf8length := utf8length + 1;
      }
    }

    /** utf8char_at_byte(n, c, len): fold the len - 1 continuation bytes after n into the lead bits of c. */
    method CharAtByteFrom(n: nat, c: byte, len: nat) returns (r: Result<int, Fault>)
      requires len >= 1
      ensures r == Continue(data, n, LeadBits(c), len - 1)
    {
      var accum: int := LeadBits(c);
      var m: nat := n;
      var lenof: nat := len;
      while lenof > 1
        invariant 1 <= lenof
        invariant Continue(data, m, accum, lenof - 1) == Continue(data, n, LeadBits(c), len - 1)
      {
        m := m + 1;
        if m > |data| {
          return Failure(Truncated);
        }
        if m >= |data| {
          return Failure(OutOfRange);
        }
        var b := data[m];
        if !IsFragment(b) {
          return Failure(NotContinuation);
        }
        accum := accum * 64 + b % 64;
        lenof := lenof - 1;
      }
      return Success(accum);
    }

    /** char_and_length_at_byte(n). */
    method CharAndLengthAtByte(n: nat) returns (r: Result<(int, nat), Fault>)
      ensures r == DecodeAt(data, n)
    {
      if n >= |data| {
        return Failure(OutOfRange);
      }
      var c := data[n];
      if c >= 0x80 {
        if c < 0xC0 {
          return Failure(LeadIsFragment);
        }
        var len := LengthOf(c);
        var v := CharAtByteFrom(n, c, len);
        match v {
          case Success(x) => r := Success((x, len));
          case Failure(e) => r := Failure(e);
        }
      } else {
        r := Success((c as int, 1));
      }
    }

    /** char_at_byte(n). */
    method CharAtByte(n: nat) returns (r: Result<int, Fault>)
      ensures r == DecodeChar(data, n)
    {
      var cl := CharAndLengthAtByte(n);
      match cl
      case Success((v, _)) => r := Success(v);
      case Failure(e) => r := Failure(e);
    }

    /** length_at_byte(n). */
    method LengthAtByte(n: nat) returns (r: Result<nat, Fault>)
      ensures r == DecodeLength(data, n)
    {
      var cl := CharAndLengthAtByte(n);
      match cl
      case Success((_, l)) => r := Success(l);
      case Failure(e) => r := Failure(e);
    }

    /** shrink_to(n): cut the bytes at byte_of_unsafe(n) and the index to ceil(n / K) entries. */
    method ShrinkTo(n: nat)
      requires n / K <= |nthcharat|
      modifies this
      ensures data == ShrinkData(old(data), old(nthcharat), n)
      ensures nthcharat == ShrinkIndex(old(nthcharat), n)
      ensures utf8length == old(utf8length)
    {
      var bl := ByteOfUnsafe(n);
      data := Resized(data, bl, 0);
      nthcharat := Resized(nthcharat, (n + K - 1) / K, 0);
    }

    /**
     * resize(n): grow by n - length() NUL bytes with an entry for every new
     * multiple of K, or shrink_to(n).
     */
    method Resize(n: nat)
      requires n < utf8length ==> n / K <= |nthcharat|
      modifies this
      ensures n > old(utf8length) ==>
        && data == old(data) + Zeros(n - old(utf8length))
        && nthcharat == GrowEntries(old(nthcharat), old(utf8length), n, |old(data)|)
        && utf8length == n
      ensures n < old(utf8length) ==>
        && data == ShrinkData(old(data), old(nthcharat), n)
        && nthcharat == ShrinkIndex(old(nthcharat), n)
        && utf8length == old(utf8length)
      ensures n == old(utf8length) ==> data == old(data) && nthcharat == old(nthcharat) && utf8length == n
      ensures old(Valid()) && n >= old(utf8length) ==> Valid()
      ensures old(Valid()) && n < old(utf8length) ==> Indexed(data, nthcharat, n)
    {
      if n > utf8length {
        ghost var len0, idx0, data0 := utf8length, nthcharat, data;
        var szo := |data|;
        data := data + Zeros(n - utf8length);
        var leno := utf8length;
        utf8length := n;
        while leno < utf8length
          invariant leno <= n == utf8length && data == data0 + Zeros(n - len0)
          invariant szo == |data0| + (leno - len0)
          invariant GrowEntries(nthcharat, leno, n, szo) == GrowEntries(idx0, len0, n, |data0|)
          decreases n - leno
        {
          if leno % K == 0 {
            nthcharat := nthcharat + [szo];
          }
          leno := leno + 1;
          szo := szo + 1;
        }
        if old(Valid()) {
          GrowKeepsIndex(data0, idx0, len0, n);
        }
      } else if n < utf8length {
        ShrinkTo(n);
        if old(Valid()) {
          ShrinkIndexesPrefix(old(data), old(nthcharat), old(utf8length), n);
        }
      }
    }

    /** resize(n, c): an empty body. */
    method ResizeFill(n: nat, c: int)
      ensures unchanged(this)
    {
    }

    /** byte_of(n): "a fit" past length(), otherwise byte_of_unsafe(n). */
    method ByteOf(n: nat) returns (r: Result<nat, Fault>)
      requires n <= utf8length ==> n / K <= |nthcharat|
      ensures n > utf8length ==> r == Failure(IndexTooLarge)
      ensures n <= utf8length ==> r == Success(LookupOffset(data, nthcharat, n))
      ensures Valid() && n < utf8length ==> r == Success(Offset(data, n))
    {
      if n > utf8length {
        return Failure(IndexTooLarge);
      }
      var b := ByteOfUnsafe(n);
      if Valid() && n < utf8length {
        LookupIsOffset(data, nthcharat, utf8length, n);
      }
      return Success(b);
    }

    /** at(n): "a fit" past length(), otherwise the codepoint at byte_of_unsafe(n). */
    method At(n: nat) returns (r: Result<int, Fault>)
      requires n <= utf8length ==> n / K <= |nthcharat|
      ensures n > utf8length ==> r == Failure(IndexTooLarge)
      ensures n <= utf8length ==> r == DecodeChar(data, LookupOffset(data, nthcharat, n))
      ensures Valid() && n < utf8length ==> r == DecodeChar(data, Offset(data, n))
    {
      if n > utf8length {
        return Failure(IndexTooLarge);
      }
      var b := ByteOfUnsafe(n);
      r := CharAtByte(b);
      if Valid() && n < utf8length {
        LookupIsOffset(data, nthcharat, utf8length, n);
      }
    }

    /** substdstr(pos, len). */
    method SubStdStr(pos: nat, len: nat) returns (r: Result<seq<byte>, Fault>)
      requires SubStdStrDefined(nthcharat, utf8length, pos, len)
      ensures r == Utf8Index.SubStdStr(data, nthcharat, utf8length, pos, len)
    {
      if pos > utf8length {
        return Failure(RangeError);
      }
      if len == NPOS {
        var from := ByteOfUnsafe(pos);
        return Substr(data, from, NPOS);
      }
      var last := (pos + len + SIZE - 1) % SIZE;
      if last > utf8length {
        return Failure(RangeError);
      }
      var from := ByteOfUnsafe(pos);
      var to := ByteOfUnsafe(last);
      var l := LengthAtByte(to);
      match l
      case Failure(e) => r := Failure(e);
      case Success(n) => r := Substr(data, from, (to + n + SIZE - from % SIZE) % SIZE);
    }

    /** operator+=: append the bytes, then either the fast path or build_index(length()). */
    method Append(app: Utf8String)
      modifies this
      ensures data == old(data) + old(app.data)
      ensures (nthcharat, utf8length) ==
              AppendIndex(old(data), old(nthcharat), old(utf8length), old(app.data), old(app.nthcharat))
    {
      var appData, appIdx := app.data, app.nthcharat;
      data := data + appData;
      if utf8length % K == K - 1 {
        nthcharat := nthcharat + appIdx;
        return;
      }
      BuildIndex(utf8length);
    }

    /** operator==: the bytes alone decide. */
    function Equals(x: Utf8String): (r: bool)
      reads this, x
      ensures r <==> data == x.data
    {
      data == x.data
    }

    /** operator!= as written: the same comparison as operator==. */
    function NotEquals(x: Utf8String): (r: bool)
      reads this, x
      ensures r <==> Equals(x)
    {
      data == x.data
    }

    /** length(): the stored count, which is the codepoint count while the invariant holds. */
    function Length(): (r: nat)
      reads this
      ensures Valid() ==> r == CodepointCount(data)
    {
      utf8length
    }

    /** size(): the byte count. */
    function Size(): (r: nat)
      reads this
      ensures r == |data|
    {
      |data|
    }
  }

  /**
   * The per-character reassembly loop: append substdstr(i, 1) for every i
   * below the length to an empty string. Whatever the appends do to the
   * index, the bytes come out equal to the input's.
   */
  method ReassembleByCodepoints(input: Utf8String) returns (output: Utf8String)
    requires input.Valid() && WellFormed(input.data) && |input.data| < NPOS
    ensures fresh(output) && output.data == input.data
  {
    ghost var d, len := input.data, input.utf8length;
    output := new Utf8String.Empty();
    var i: nat := 0;
    assert Offset(d, len) == |d| by {
      OffsetIsKthStart(d, len);
    }
    while i < input.utf8length
      invariant fresh(output)
      invariant input.Valid() && input.data == d && input.utf8length == len
      invariant i <= len && Offset(d, i) <= |d| && output.data == d[..Offset(d, i)]
      decreases len - i
    {
      OffsetsWithin(d, i, i + 1);
      AppendCodepoint(input, output, i);
      i := i + 1;
    }
    assert d[..Offset(d, i)] == d;
  }

  /** One round of the reassembly loop: output gains the bytes of codepoint i of input. */
  method AppendCodepoint(input: Utf8String, output: Utf8String, i: nat)
    requires input.Valid() && WellFormed(input.data) && |input.data| < NPOS
    requires i < input.utf8length && output != input
    requires Offset(input.data, i) < Offset(input.data, i + 1) <= |input.data|
    requires output.data == input.data[..Offset(input.data, i)]
    modifies output
    ensures output.data == input.data[..Offset(input.data, i + 1)]
  {
    ghost var d, idx, len := input.data, input.nthcharat, input.utf8length;
    ghost var a, b := Offset(d, i), Offset(d, i + 1);
    assert SubStdStrDefined(idx, len, i, 1) && a <= b <= |d|
      && Utf8Index.SubStdStr(d, idx, len, i, 1) == Success(d[a..b]) by {
      SubStdStrSlices(d, idx, len, i, 1);
    }
    var piece := input.SubStdStr(i, 1);
    var u := new Utf8String.FromStdString(piece.value);
    output.Append(u);
    assert d[..b] == d[..a] + d[a..b];
  }
}
