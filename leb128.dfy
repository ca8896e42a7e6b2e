/**
 * LEB128 variable-length integers (section 7.6 of DWARF 4), as the decoder
 * reads them with `r_uleb128` and `r_leb128`: bytes are consumed until one
 * whose bit 7 is clear, or until the window ends; seven value bits per byte,
 * least significant group first. The signed form sign-extends from bit 6 of
 * the last byte consumed.
 */
module Leb128 {
  import opened Bytes

  function Pow128(n: nat): (r: nat)
    ensures r >= 1
  {
    if n == 0 then 1 else 128 * Pow128(n - 1)
  }

  /**
   * Unsigned LEB128 in the window `[pos, end)`: the value and the cursor after
   * it. An empty window yields 0 and leaves the cursor in place.
   */
  function ULeb(data: seq<byte>, pos: nat, end: nat): (r: (nat, nat))
    requires end <= |data|
    ensures pos < end ==> pos < r.1 <= end
    ensures pos >= end ==> r == (0, pos)
    decreases end - pos
  {
    if pos >= end then (0, pos)
    else if data[pos] < 128 || pos + 1 == end then (data[pos] % 128, pos + 1)
    else
      var (v, n) := ULeb(data, pos + 1, end);
      (data[pos] % 128 + 128 * v, n)
  }

  /**
   * Signed LEB128: the unsigned accumulation, minus 128^k when bit 6 of the
   * last of the k bytes consumed is set.
   */
  function SLeb(data: seq<byte>, pos: nat, end: nat): (r: (int, nat))
    requires end <= |data|
    ensures r.1 == ULeb(data, pos, end).1
  {
    var (u, n) := ULeb(data, pos, end);
    if n > pos && data[n - 1] % 128 >= 64 then (u - Pow128(n - pos), n) else (u, n)
  }

  /** The shortest unsigned LEB128 encoding of `x`. */
  function EncodeU(x: nat): (r: seq<byte>)
    ensures |r| >= 1
  {
    if x < 128 then [x] else [x % 128 + 128] + EncodeU(x / 128)
  }

  function Magnitude(x: int): nat
  {
    if x < 0 then -x else x
  }

  /** The shortest signed LEB128 encoding of `x`. */
  function EncodeS(x: int): (r: seq<byte>)
    ensures |r| >= 1
    decreases Magnitude(x)
  {
    if -64 <= x < 64 then [x % 128]
    else
      assert Magnitude(x / 128) < Magnitude(x) by {
        if x < 0 {
          assert x / 128 < 0;
          assert 128 * (x / 128) <= x < 128 * (x / 128) + 128;
        }
      }
      [x % 128 + 128] + EncodeS(x / 128)
  }

  /** k bytes hold 7k value bits: the unsigned value is below 128^k. */
  lemma {:induction false} ULebBound(data: seq<byte>, pos: nat, end: nat)
    requires end <= |data|
    ensures ULeb(data, pos, end).0 < Pow128(ULeb(data, pos, end).1 - pos)
    decreases end - pos
  {
    if pos < end && !(data[pos] < 128 || pos + 1 == end) {
      ULebBound(data, pos + 1, end);
      var (v, n) := ULeb(data, pos + 1, end);
      assert Pow128(n - pos) == 128 * Pow128(n - (pos + 1));
    }
  }

  /** The signed value read from k bytes lies in [-128^k, 128^k). */
  lemma SLebBound(data: seq<byte>, pos: nat, end: nat)
    requires end <= |data|
    ensures -(Pow128(SLeb(data, pos, end).1 - pos) as int) <= SLeb(data, pos, end).0 < Pow128(SLeb(data, pos, end).1 - pos)
  {
    ULebBound(data, pos, end);
  }

  /** Every byte of an encoding but the last has its continuation bit set. */
  lemma {:induction false} EncodeUShape(x: nat)
    ensures EncodeU(x)[|EncodeU(x)| - 1] < 128
    ensures forall i :: 0 <= i < |EncodeU(x)| - 1 ==> EncodeU(x)[i] >= 128
    decreases x
  {
    if x >= 128 {
      EncodeUShape(x / 128);
      assert EncodeU(x) == [x % 128 + 128] + EncodeU(x / 128);
    }
  }

  /** Decoding an unsigned encoding gives back the value and consumes exactly the encoding. */
  lemma {:induction false} ULebRoundTrip(data: seq<byte>, pos: nat, end: nat, x: nat)
    requires end <= |data|
    requires pos + |EncodeU(x)| <= end
    requires At(data, pos, EncodeU(x))
    ensures ULeb(data, pos, end) == (x, pos + |EncodeU(x)|)
    decreases x
  {
    var e := EncodeU(x);
    assert data[pos + 0] == e[0];
    if x >= 128 {
      var rest := EncodeU(x / 128);
      assert e == [x % 128 + 128] + rest;
      AtSplit(data, pos, [x % 128 + 128], rest);
      ULebRoundTrip(data, pos + 1, end, x / 128);
      var (v, n) := ULeb(data, pos + 1, end);
      assert data[pos] >= 128 && pos + 1 < end;
      assert ULeb(data, pos, end) == (data[pos] % 128 + 128 * v, n);
      assert data[pos] % 128 == x % 128;
      assert x % 128 + 128 * (x / 128) == x;
    }
  }

  /** The unsigned accumulation over a signed encoding is the value taken modulo 128^k. */
  lemma {:induction false} SignedEncodingAccumulates(data: seq<byte>, pos: nat, end: nat, x: int)
    requires end <= |data|
    requires pos + |EncodeS(x)| <= end
    requires At(data, pos, EncodeS(x))
    ensures ULeb(data, pos, end).1 == pos + |EncodeS(x)|
    ensures ULeb(data, pos, end).0 == if x < 0 then x + Pow128(|EncodeS(x)|) else x
    ensures (data[pos + |EncodeS(x)| - 1] % 128 >= 64) == (x < 0)
    decreases Magnitude(x)
  {
    var e := EncodeS(x);
    assert data[pos + 0] == e[0];
    if -64 <= x < 64 {
      SignedSingleByte(data, pos, end, x);
    } else {
      var y := x / 128;
      var rest := EncodeS(y);
      assert e == [x % 128 + 128] + rest;
      AtSplit(data, pos, [x % 128 + 128], rest);
      assert data[pos + |e| - 1] == data[pos + 1 + (|rest| - 1)];
      assert Magnitude(y) < Magnitude(x) by {
        if x < 0 {
          assert 128 * y <= x < 128 * y + 128;
        }
      }
      SignedEncodingAccumulates(data, pos + 1, end, y);
      SignedStep(data, pos, end, x, |rest|);
    }
  }

  /** One more continuation byte in front of a signed encoding whose decoding is known. */
  lemma SignedStep(data: seq<byte>, pos: nat, end: nat, x: int, k: nat)
    requires end <= |data| && pos + 1 + k <= end && k >= 1
    requires !(-64 <= x < 64)
    requires data[pos] == x % 128 + 128
    requires ULeb(data, pos + 1, end).1 == pos + 1 + k
    requires ULeb(data, pos + 1, end).0 == if x / 128 < 0 then x / 128 + Pow128(k) else x / 128
    requires (data[pos + k] % 128 >= 64) == (x / 128 < 0)
    ensures ULeb(data, pos, end).1 == pos + 1 + k
    ensures ULeb(data, pos, end).0 == if x < 0 then x + Pow128(k + 1) else x
    ensures (data[pos + k] % 128 >= 64) == (x < 0)
  {
    var v := ULeb(data, pos + 1, end).0;
    assert ULeb(data, pos, end) == (data[pos] % 128 + 128 * v, pos + 1 + k);
    assert (x / 128 < 0) == (x < 0);
    WrapStep(x, v, Pow128(k));
  }

  lemma SignedSingleByte(data: seq<byte>, pos: nat, end: nat, x: int)
    requires end <= |data| && pos < end
    requires -64 <= x < 64 && data[pos] == x % 128
    ensures ULeb(data, pos, end) == (if x < 0 then x + 128 else x, pos + 1)
    ensures (data[pos] % 128 >= 64) == (x < 0)
  {
  }

  lemma WrapStep(x: int, v: int, p: int)
    requires v == if x / 128 < 0 then x / 128 + p else x / 128
    requires (x / 128 < 0) == (x < 0)
    ensures x % 128 + 128 * v == if x < 0 then x + 128 * p else x
  {
    assert x % 128 + 128 * (x / 128) == x;
  }

  /** Decoding a signed encoding gives back the value and consumes exactly the encoding. */
  lemma SLebRoundTrip(data: seq<byte>, pos: nat, end: nat, x: int)
    requires end <= |data|
    requires pos + |EncodeS(x)| <= end
    requires At(data, pos, EncodeS(x))
    ensures SLeb(data, pos, end) == (x, pos + |EncodeS(x)|)
  {
    SignedEncodingAccumulates(data, pos, end, x);
  }

  /** The unsigned reader never looks at a byte at or beyond the end of its window. */
  lemma {:induction false} ULebIgnoresTail(data: seq<byte>, pos: nat, end: nat)
    requires end <= |data|
    ensures ULeb(data, pos, end) == ULeb(data[..end], pos, end)
    decreases end - pos
  {
    if pos < end && !(data[pos] < 128 || pos + 1 == end) {
      ULebIgnoresTail(data, pos + 1, end);
    }
  }
}
