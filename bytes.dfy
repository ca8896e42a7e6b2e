/**
 * Bounded primitive readers over an in-memory section image.
 *
 * A section is a `seq<byte>`; a read is given a cursor `pos` and the end of
 * the window it may look at. The fixed-width readers mirror the READ8/16/32/64
 * macros and `dwarf_read_piece` of libr/bin/dwarf.c: the little-endian value is
 * produced only when strictly more than `width` bytes remain before the end,
 * 0 otherwise, and the cursor moves by `width` in both cases.
 */
module Bytes {

  type byte = b: int | 0 <= b < 256

  function Pow256(n: nat): (r: nat)
    ensures r >= 1
  {
    if n == 0 then 1 else 256 * Pow256(n - 1)
  }

  /** `s` occurs in `data` at `pos`. */
  predicate At(data: seq<byte>, pos: nat, s: seq<byte>)
  {
    pos + |s| <= |data| && forall i :: 0 <= i < |s| ==> data[pos + i] == s[i]
  }

  lemma AtSplit(data: seq<byte>, pos: nat, a: seq<byte>, b: seq<byte>)
    requires At(data, pos, a + b)
    ensures At(data, pos, a) && At(data, pos + |a|, b)
  {
    forall i | 0 <= i < |a| ensures data[pos + i] == a[i] {
      assert (a + b)[i] == a[i];
    }
    forall i | 0 <= i < |b| ensures data[pos + |a| + i] == b[i] {
      assert (a + b)[|a| + i] == b[i];
      assert data[pos + (|a| + i)] == (a + b)[|a| + i];
    }
  }

  lemma AtIndex(data: seq<byte>, pos: nat, s: seq<byte>, i: nat)
    requires At(data, pos, s) && i < |s|
    ensures data[pos + i] == s[i]
  {
  }

  lemma AtSlice(data: seq<byte>, pos: nat, s: seq<byte>)
    requires At(data, pos, s)
    ensures data[pos..pos + |s|] == s
  {
  }

  /** Little-endian value of a byte string. */
  function LE(s: seq<byte>): nat
  {
    if s == [] then 0 else s[0] + 256 * LE(s[1..])
  }

  lemma {:induction false} LEBound(s: seq<byte>)
    ensures LE(s) < Pow256(|s|)
  {
    if s != [] {
      LEBound(s[1..]);
    }
  }

  /** Little-endian encoding of `x` on `w` bytes (the inverse of LE). */
  function EncodeLE(x: nat, w: nat): (r: seq<byte>)
    ensures |r| == w
  {
    if w == 0 then [] else [x % 256] + EncodeLE(x / 256, w - 1)
  }

  lemma {:induction false} LEEncodeRoundTrip(x: nat, w: nat)
    requires x < Pow256(w)
    ensures LE(EncodeLE(x, w)) == x
  {
    if w > 0 {
      var e := EncodeLE(x, w);
      assert e[1..] == EncodeLE(x / 256, w - 1);
      LEEncodeRoundTrip(x / 256, w - 1);
    }
  }

  /**
   * READ(x, type) for a `w`-byte type: the value when `pos + w < end`, else 0;
   * the cursor always advances by `w`.
   */
  function ReadFixed(data: seq<byte>, pos: nat, end: nat, w: nat): (r: (nat, nat))
    requires end <= |data|
    ensures r.1 == pos + w
    ensures r.0 < Pow256(w)
  {
    if pos + w < end then
      LEBound(data[pos..pos + w]);
      (LE(data[pos..pos + w]), pos + w)
    else
      (0, pos + w)
  }

  /** dwarf_read_piece: an 8-byte read in the 64-bit format, a 4-byte read otherwise. */
  function ReadPiece(is64: bool, data: seq<byte>, pos: nat, end: nat): (r: (nat, nat))
    requires end <= |data|
    ensures r.1 == pos + (if is64 then 8 else 4)
    ensures is64 ==> r.0 < Pow256(8)
    ensures !is64 ==> r.0 < Pow256(4)
  {
    ReadFixed(data, pos, end, if is64 then 8 else 4)
  }

  /** A fixed-width read returns exactly the encoded value when the window is long enough. */
  lemma ReadFixedOfEncoding(data: seq<byte>, pos: nat, end: nat, w: nat, x: nat)
    requires end <= |data| && pos + w < end
    requires x < Pow256(w)
    requires data[pos..pos + w] == EncodeLE(x, w)
    ensures ReadFixed(data, pos, end, w) == (x, pos + w)
  {
    LEEncodeRoundTrip(x, w);
  }

  /** A one-byte read gives the low byte of a wider read at the same place. */
  lemma ReadFixedLowByte(data: seq<byte>, pos: nat, end: nat, w: nat)
    requires end <= |data| && 1 <= w && pos + w < end
    ensures ReadFixed(data, pos, end, 1).0 == ReadFixed(data, pos, end, w).0 % 256
  {
    var s := data[pos..pos + w];
    assert data[pos..pos + 1] == [s[0]];
    assert LE([s[0]]) == s[0] + 256 * LE([s[0]][1..]);
    assert LE(s) == s[0] + 256 * LE(s[1..]);
  }

  /** A one-byte read inside the window is the byte itself. */
  lemma ReadByte(data: seq<byte>, pos: nat, end: nat)
    requires end <= |data| && pos + 1 < end
    ensures ReadFixed(data, pos, end, 1) == (data[pos], pos + 1)
  {
    assert data[pos..pos + 1] == [data[pos]];
  }

  /** A fixed-width read never looks at a byte at or beyond the end of its window. */
  lemma ReadFixedIgnoresTail(data: seq<byte>, pos: nat, end: nat, w: nat)
    requires end <= |data|
    ensures ReadFixed(data, pos, end, w) == ReadFixed(data[..end], pos, end, w)
  {
    if pos + w < end {
      assert data[pos..pos + w] == data[..end][pos..pos + w];
    }
  }

  /** The value of a read that does not fit is 0, however long the buffer behind the window is. */
  lemma ReadFixedShortWindow(data: seq<byte>, pos: nat, end: nat, w: nat)
    requires end <= |data| && end <= pos + w
    ensures ReadFixed(data, pos, end, w).0 == 0
  {
  }

  /** A one-byte read of a signed char: two's complement of the byte. */
  function ToInt8(v: nat): (r: int)
    requires v < 256
    ensures -128 <= r < 128
    ensures (r - v) % 256 == 0
  {
    if v >= 128 then v - 256 else v
  }

  /** The C conversion of a 64-bit word to `int`: the low 32 bits as two's complement. */
  function ToInt32(w: int): (r: int)
    ensures -0x8000_0000 <= r < 0x8000_0000
    ensures (r - w) % 0x1_0000_0000 == 0
  {
    var low := w % 0x1_0000_0000;
    if low >= 0x8000_0000 then low - 0x1_0000_0000 else low
  }

  /** Reinterpretation of a signed 64-bit value as the unsigned word that holds it. */
  function ToWord64(s: int): (r: nat)
    ensures r < 0x1_0000_0000_0000_0000
    ensures (r - s) % 0x1_0000_0000_0000_0000 == 0
  {
    s % 0x1_0000_0000_0000_0000
  }

  /** strlen over a section image: bytes before the first NUL, or before the end of the image. */
  function CStrLen(data: seq<byte>, pos: nat): (n: nat)
    requires pos <= |data|
    ensures pos + n <= |data|
    decreases |data| - pos
  {
    if pos == |data| || data[pos] == 0 then 0 else 1 + CStrLen(data, pos + 1)
  }

  /** strlen covers non-NUL bytes only, and stops before the end of the image only at a NUL. */
  lemma {:induction false} CStrLenStops(data: seq<byte>, pos: nat)
    requires pos <= |data|
    ensures forall i :: pos <= i < pos + CStrLen(data, pos) ==> data[i] != 0
    ensures pos + CStrLen(data, pos) < |data| ==> data[pos + CStrLen(data, pos)] == 0
    decreases |data| - pos
  {
    if pos < |data| && data[pos] != 0 {
      CStrLenStops(data, pos + 1);
    }
  }

  /** strlen over a name followed by NUL is the name's length. */
  lemma {:induction false} CStrLenOfName(data: seq<byte>, pos: nat, s: seq<byte>)
    requires At(data, pos, s + [0]) && forall i :: 0 <= i < |s| ==> s[i] != 0
    ensures CStrLen(data, pos) == |s| && data[pos..pos + |s|] == s
    decreases |s|
  {
    assert data[pos + 0] == (s + [0])[0];
    if s != [] {
      assert [s[0]] + (s[1..] + [0]) == s + [0];
      AtSplit(data, pos, [s[0]], s[1..] + [0]);
      CStrLenOfName(data, pos + 1, s[1..]);
      assert data[pos..pos + |s|] == [data[pos]] + data[pos + 1..pos + 1 + |s[1..]|];
    }
  }

  /** r_str_nlen: like strlen, but never more than `maxlen` bytes. */
  function NLen(data: seq<byte>, pos: nat, maxlen: nat): (n: nat)
    requires pos + maxlen <= |data|
    ensures n <= maxlen
    decreases maxlen
  {
    if maxlen == 0 || data[pos] == 0 then 0 else 1 + NLen(data, pos + 1, maxlen - 1)
  }

  /** A bounded length over a name followed by NUL is the name's length. */
  lemma {:induction false} NLenOfName(data: seq<byte>, pos: nat, maxlen: nat, s: seq<byte>)
    requires pos + maxlen <= |data| && |s| < maxlen
    requires At(data, pos, s + [0]) && forall i :: 0 <= i < |s| ==> s[i] != 0
    ensures NLen(data, pos, maxlen) == |s| && data[pos..pos + |s|] == s
    decreases |s|
  {
    assert data[pos + 0] == (s + [0])[0];
    if s != [] {
      assert [s[0]] + (s[1..] + [0]) == s + [0];
      AtSplit(data, pos, [s[0]], s[1..] + [0]);
      NLenOfName(data, pos + 1, maxlen - 1, s[1..]);
      assert data[pos..pos + |s|] == [data[pos]] + data[pos + 1..pos + 1 + |s[1..]|];
    }
  }

  /** The bounded length covers non-NUL bytes only, and stops short of the bound only at a NUL. */
  lemma {:induction false} NLenStops(data: seq<byte>, pos: nat, maxlen: nat)
    requires pos + maxlen <= |data|
    ensures forall i :: pos <= i < pos + NLen(data, pos, maxlen) ==> data[i] != 0
    ensures NLen(data, pos, maxlen) < maxlen ==> data[pos + NLen(data, pos, maxlen)] == 0
    decreases maxlen
  {
    if maxlen > 0 && data[pos] != 0 {
      NLenStops(data, pos + 1, maxlen - 1);
    }
  }

  /** Bytes as characters (no decoding: one byte, one character). */
  function Chars(s: seq<byte>): (r: string)
    ensures |r| == |s|
    ensures forall i :: 0 <= i < |s| ==> r[i] as int == s[i]
  {
    seq(|s|, i requires 0 <= i < |s| => s[i] as char)
  }

  /** The NUL-terminated string that starts at `pos` (strdup of `data + pos`). */
  function CString(data: seq<byte>, pos: nat): (r: string)
    requires pos <= |data|
    ensures |r| == CStrLen(data, pos)
    ensures forall i :: 0 <= i < |r| ==> r[i] != 0 as char
  {
    CStrLenStops(data, pos);
    Chars(data[pos..pos + CStrLen(data, pos)])
  }
}
