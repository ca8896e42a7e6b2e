/**
 * The unit header at the start of each unit of .debug_info
 * (info_comp_unit_read_hdr): the initial length with its 64-bit escape
 * (section 7.4 of DWARF 4), then the DWARF 4 header (section 7.5.1.1 of
 * DWARF 4) or the DWARF 5 header with its unit type (section 7.5.1 of
 * DWARF 5). Every field is read with the bounded fixed-width reader against
 * the end of the section.
 */
module UnitHeader {
  import opened Bytes
  import C = DwarfConstants

  /** The fields the decoder keeps; a field the unit type does not carry stays 0. */
  datatype Header = Header(
    length: nat,
    is64: bool,
    version: nat,
    unitType: nat,
    addressSize: nat,
    abbrevOffset: nat,
    dwoId: nat,
    typeSig: nat,
    typeOffset: nat,
    headerSize: nat,
    unitOffset: nat)

  predicate IsSkeleton(unitType: nat)
  {
    unitType == C.UT_skeleton || unitType == C.UT_split_compile
  }

  predicate IsTypeUnit(unitType: nat)
  {
    unitType == C.UT_type || unitType == C.UT_split_type
  }

  /** Bytes taken by the initial-length field: 4, or 12 after the 0xffffffff escape. */
  function LengthFieldSize(is64: bool): nat
  {
    if is64 then 12 else 4
  }

  /** Bytes taken by a section offset: 8 in the 64-bit format, 4 otherwise. */
  function OffsetSize(is64: bool): nat
  {
    if is64 then 8 else 4
  }

  /** The initial length: its value, whether the 64-bit format is in use, and the cursor after it. */
  function ReadInitialLength(data: seq<byte>, pos: nat): (r: (nat, bool, nat))
    ensures r.2 == pos + LengthFieldSize(r.1)
    ensures !r.1 ==> r.0 < C.INIT_LEN_64
  {
    var (l32, p1) := ReadFixed(data, pos, |data|, 4);
    if l32 == C.INIT_LEN_64 then
      var (l64, p2) := ReadFixed(data, p1, |data|, 8);
      (l64, true, p2)
    else
      (l32, false, p1)
  }

  /**
   * The header fields after the initial length, from `p1` on, with the
   * DWARF 5 `dwo_id` read on `dwoIdWidth` bytes. The length and the unit
   * offset are filled in by the caller.
   */
  function ReadBody(data: seq<byte>, p1: nat, is64: bool, dwoIdWidth: nat): (r: (Header, nat))
    ensures r.1 == p1 + r.0.headerSize
    ensures r.0.is64 == is64 && r.0.length == 0 && r.0.unitOffset == 0
  {
    var len := |data|;
    var (version, p2) := ReadFixed(data, p1, len, 2);
    if version == 5 then
      var (unitType, p3) := ReadFixed(data, p2, len, 1);
      var (addressSize, p4) := ReadFixed(data, p3, len, 1);
      var (abbrevOffset, p5) := ReadPiece(is64, data, p4, len);
      if IsSkeleton(unitType) then
        var (dwoId, p6) := ReadFixed(data, p5, len, dwoIdWidth);
        (Header(0, is64, version, unitType, addressSize, abbrevOffset, dwoId, 0, 0, p6 - p1, 0), p6)
      else if IsTypeUnit(unitType) then
        var (typeSig, p6) := ReadFixed(data, p5, len, 8);
        var (typeOffset, p7) := ReadPiece(is64, data, p6, len);
        (Header(0, is64, version, unitType, addressSize, abbrevOffset, 0, typeSig, typeOffset, p7 - p1, 0), p7)
      else
        (Header(0, is64, version, unitType, addressSize, abbrevOffset, 0, 0, 0, p5 - p1, 0), p5)
    else
      var (abbrevOffset, p3) := ReadPiece(is64, data, p2, len);
      var (addressSize, p4) := ReadFixed(data, p3, len, 1);
      (Header(0, is64, version, 0, addressSize, abbrevOffset, 0, 0, 0, p4 - p1, 0), p4)
  }

  /** The header of the unit at `pos`, with `dwo_id` read on `dwoIdWidth` bytes, and the cursor after it. */
  function ReadHeaderWith(data: seq<byte>, pos: nat, dwoIdWidth: nat): (r: (Header, nat))
    ensures r.0.unitOffset == pos
    ensures r.1 == pos + LengthFieldSize(r.0.is64) + r.0.headerSize
  {
    var (length, is64, p1) := ReadInitialLength(data, pos);
    var (body, next) := ReadBody(data, p1, is64, dwoIdWidth);
    (body.(length := length, unitOffset := pos), next)
  }

  /** The header reader as the decoder has it: `dwo_id` is read with READ8, one byte. */
  function ReadHeaderAsWritten(data: seq<byte>, pos: nat): (r: (Header, nat))
    ensures r.0.unitOffset == pos
    ensures r.1 == pos + LengthFieldSize(r.0.is64) + r.0.headerSize
  {
    ReadHeaderWith(data, pos, 1)
  }

  /** The header reader with the eight-byte `dwo_id` of section 7.5.1.2 of DWARF 5. */
  function ReadHeader(data: seq<byte>, pos: nat): (r: (Header, nat))
    ensures r.0.unitOffset == pos
    ensures r.1 == pos + LengthFieldSize(r.0.is64) + r.0.headerSize
  {
    ReadHeaderWith(data, pos, 8)
  }

  /** The two readers differ only on DWARF 5 skeleton and split-compile units. */
  lemma ReadersAgree(data: seq<byte>, pos: nat)
    requires var h := ReadHeader(data, pos).0; !(h.version == 5 && IsSkeleton(h.unitType))
    ensures ReadHeaderAsWritten(data, pos) == ReadHeader(data, pos)
  {
  }

  // ---------------------------------------------------------------------
  // The layout the standard prescribes, and the reader's agreement with it.

  function EncodeInitialLength(length: nat, is64: bool): (r: seq<byte>)
    ensures |r| == LengthFieldSize(is64)
  {
    if is64 then EncodeLE(C.INIT_LEN_64, 4) + EncodeLE(length, 8) else EncodeLE(length, 4)
  }

  /** The header fields after the initial length, in the order of section 7.5.1 of DWARF 5. */
  function EncodeHeaderBody(h: Header): (r: seq<byte>)
  {
    var ow := OffsetSize(h.is64);
    EncodeLE(h.version, 2) +
      if h.version == 5 then
        [h.unitType % 256] + [h.addressSize % 256] + EncodeLE(h.abbrevOffset, ow) + EncodeUnitIds(h)
      else
        EncodeLE(h.abbrevOffset, ow) + [h.addressSize % 256]
  }

  /** The DWARF 5 fields that depend on the unit type: `dwo_id`, or the type signature and offset. */
  function EncodeUnitIds(h: Header): (r: seq<byte>)
  {
    if IsSkeleton(h.unitType) then EncodeLE(h.dwoId, 8)
    else if IsTypeUnit(h.unitType) then EncodeLE(h.typeSig, 8) + EncodeLE(h.typeOffset, OffsetSize(h.is64))
    else []
  }

  function EncodeHeader(h: Header): (r: seq<byte>)
  {
    EncodeInitialLength(h.length, h.is64) + EncodeHeaderBody(h)
  }

  /** A header the standard allows, at `pos`, whose size field agrees with its layout. */
  predicate WellFormedHeader(h: Header, pos: nat)
  {
    && h.unitOffset == pos
    && h.length < (if h.is64 then Pow256(8) else C.INIT_LEN_64)
    && FieldsFit(h)
    && (h.version != 5 ==> h.unitType == 0)
    && (h.version != 5 || !IsSkeleton(h.unitType) ==> h.dwoId == 0)
    && (h.version != 5 || !IsTypeUnit(h.unitType) ==> h.typeSig == 0 && h.typeOffset == 0)
    && h.headerSize == |EncodeHeaderBody(h)|
  }

  /** Every field fits the width it is encoded on. */
  predicate FieldsFit(h: Header)
  {
    && h.version < Pow256(2)
    && h.unitType < 256 && h.addressSize < 256
    && h.abbrevOffset < Pow256(OffsetSize(h.is64))
    && h.dwoId < Pow256(8) && h.typeSig < Pow256(8) && h.typeOffset < Pow256(OffsetSize(h.is64))
  }

  /** What the body reader gives back for an encoded body: the fields its version and unit type carry. */
  function Carried(h: Header): Header
  {
    var v5 := h.version == 5;
    Header(0, h.is64, h.version, if v5 then h.unitType else 0, h.addressSize, h.abbrevOffset,
      if v5 && IsSkeleton(h.unitType) then h.dwoId else 0,
      if v5 && !IsSkeleton(h.unitType) && IsTypeUnit(h.unitType) then h.typeSig else 0,
      if v5 && !IsSkeleton(h.unitType) && IsTypeUnit(h.unitType) then h.typeOffset else 0,
      |EncodeHeaderBody(h)|, 0)
  }

  /** A fixed-width field encoded at `pos` reads back when the window goes past it. */
  lemma ReadAt(data: seq<byte>, pos: nat, end: nat, x: nat, w: nat)
    requires end <= |data| && pos + w < end
    requires x < Pow256(w)
    requires At(data, pos, EncodeLE(x, w))
    ensures ReadFixed(data, pos, end, w) == (x, pos + w)
  {
    AtSlice(data, pos, EncodeLE(x, w));
    ReadFixedOfEncoding(data, pos, end, w, x);
  }

  lemma InitialLengthRoundTrip(data: seq<byte>, pos: nat, length: nat, is64: bool)
    requires length < (if is64 then Pow256(8) else C.INIT_LEN_64)
    requires pos + LengthFieldSize(is64) < |data|
    requires At(data, pos, EncodeInitialLength(length, is64))
    ensures ReadInitialLength(data, pos) == (length, is64, pos + LengthFieldSize(is64))
  {
    if is64 {
      AtSplit(data, pos, EncodeLE(C.INIT_LEN_64, 4), EncodeLE(length, 8));
      assert C.INIT_LEN_64 < Pow256(4) by {
        assert Pow256(4) == 0x1_0000_0000;
      }
      ReadAt(data, pos, |data|, C.INIT_LEN_64, 4);
      ReadAt(data, pos + 4, |data|, length, 8);
    } else {
      assert C.INIT_LEN_64 < Pow256(4) by {
        assert Pow256(4) == 0x1_0000_0000;
      }
      ReadAt(data, pos, |data|, length, 4);
    }
  }

  /**
   * A well-formed header laid out as the standard prescribes reads back as
   * itself, and the cursor lands right after it (one byte must follow it for
   * the last bounded read to succeed).
   */
  lemma HeaderRoundTrip(data: seq<byte>, pos: nat, h: Header)
    requires WellFormedHeader(h, pos)
    requires pos + |EncodeHeader(h)| < |data|
    requires At(data, pos, EncodeHeader(h))
    ensures ReadHeader(data, pos).0 == h
    ensures ReadHeader(data, pos).1 == pos + |EncodeHeader(h)|
  {
    var p1 := pos + LengthFieldSize(h.is64);
    AtSplit(data, pos, EncodeInitialLength(h.length, h.is64), EncodeHeaderBody(h));
    InitialLengthRoundTrip(data, pos, h.length, h.is64);
    BodyRoundTrip(data, p1, h);
    assert |EncodeHeader(h)| == LengthFieldSize(h.is64) + |EncodeHeaderBody(h)|;
    assert ReadHeader(data, pos) == (Carried(h).(length := h.length, unitOffset := pos), p1 + |EncodeHeaderBody(h)|);
    assert Carried(h).(length := h.length, unitOffset := pos) == h;
  }

  /** An encoded header body reads back as the fields its version and unit type carry. */
  lemma BodyRoundTrip(data: seq<byte>, p1: nat, h: Header)
    requires FieldsFit(h)
    requires p1 + |EncodeHeaderBody(h)| < |data|
    requires At(data, p1, EncodeHeaderBody(h))
    ensures ReadBody(data, p1, h.is64, 8) == (Carried(h), p1 + |EncodeHeaderBody(h)|)
  {
    if h.version == 5 {
      BodyV5RoundTrip(data, p1, h);
    } else {
      BodyV4RoundTrip(data, p1, h);
    }
  }

  lemma BodyV4RoundTrip(data: seq<byte>, p1: nat, h: Header)
    requires FieldsFit(h) && h.version != 5
    requires p1 + |EncodeHeaderBody(h)| < |data|
    requires At(data, p1, EncodeHeaderBody(h))
    ensures ReadBody(data, p1, h.is64, 8) == (Carried(h), p1 + |EncodeHeaderBody(h)|)
  {
    var ow := OffsetSize(h.is64);
    var ev, eo, ea := EncodeLE(h.version, 2), EncodeLE(h.abbrevOffset, ow), [h.addressSize % 256];
    assert EncodeHeaderBody(h) == ev + (eo + ea);
    AtSplit(data, p1, ev, eo + ea);
    AtSplit(data, p1 + 2, eo, ea);
    ReadAt(data, p1, |data|, h.version, 2);
    ReadAt(data, p1 + 2, |data|, h.abbrevOffset, ow);
    assert EncodeLE(h.addressSize, 1) == ea;
    ReadAt(data, p1 + 2 + ow, |data|, h.addressSize, 1);
  }

  lemma BodyV5RoundTrip(data: seq<byte>, p1: nat, h: Header)
    requires FieldsFit(h) && h.version == 5
    requires p1 + |EncodeHeaderBody(h)| < |data|
    requires At(data, p1, EncodeHeaderBody(h))
    ensures ReadBody(data, p1, h.is64, 8) == (Carried(h), p1 + |EncodeHeaderBody(h)|)
  {
    var p5 := p1 + 4 + OffsetSize(h.is64);
    V5Prefix(data, p1, h);
    if IsSkeleton(h.unitType) {
      ReadAt(data, p5, |data|, h.dwoId, 8);
    } else if IsTypeUnit(h.unitType) {
      AtSplit(data, p5, EncodeLE(h.typeSig, 8), EncodeLE(h.typeOffset, OffsetSize(h.is64)));
      ReadAt(data, p5, |data|, h.typeSig, 8);
      ReadAt(data, p5 + 8, |data|, h.typeOffset, OffsetSize(h.is64));
    }
  }

  /** The fields every DWARF 5 header has read back, and where the unit-type fields sit. */
  lemma V5Prefix(data: seq<byte>, p1: nat, h: Header)
    requires FieldsFit(h) && h.version == 5
    requires p1 + |EncodeHeaderBody(h)| < |data|
    requires At(data, p1, EncodeHeaderBody(h))
    ensures ReadFixed(data, p1, |data|, 2) == (5, p1 + 2)
    ensures ReadFixed(data, p1 + 2, |data|, 1) == (h.unitType, p1 + 3)
    ensures ReadFixed(data, p1 + 3, |data|, 1) == (h.addressSize, p1 + 4)
    ensures ReadPiece(h.is64, data, p1 + 4, |data|) == (h.abbrevOffset, p1 + 4 + OffsetSize(h.is64))
    ensures |EncodeHeaderBody(h)| == 4 + OffsetSize(h.is64) + |EncodeUnitIds(h)|
    ensures p1 + 4 + OffsetSize(h.is64) + |EncodeUnitIds(h)| < |data|
    ensures At(data, p1 + 4 + OffsetSize(h.is64), EncodeUnitIds(h))
  {
    var ow := OffsetSize(h.is64);
    var ev, eu, ea, eo := EncodeLE(h.version, 2), [h.unitType % 256], [h.addressSize % 256], EncodeLE(h.abbrevOffset, ow);
    var tail := EncodeUnitIds(h);
    assert EncodeHeaderBody(h) == ev + (eu + (ea + (eo + tail)));
    AtSplit(data, p1, ev, eu + (ea + (eo + tail)));
    AtSplit(data, p1 + 2, eu, ea + (eo + tail));
    AtSplit(data, p1 + 3, ea, eo + tail);
    AtSplit(data, p1 + 4, eo, tail);
    ReadAt(data, p1, |data|, h.version, 2);
    assert EncodeLE(h.unitType, 1) == eu;
    ReadAt(data, p1 + 2, |data|, h.unitType, 1);
    assert EncodeLE(h.addressSize, 1) == ea;
    ReadAt(data, p1 + 3, |data|, h.addressSize, 1);
    ReadAt(data, p1 + 4, |data|, h.abbrevOffset, ow);
  }

  /**
   * The header reader as written stops seven bytes short on a DWARF 5
   * skeleton or split-compile header: it reads one byte of the eight-byte
   * `dwo_id`, and the first DIE is then looked for inside the rest of it.
   */
  lemma SkeletonHeaderAsWrittenShort(data: seq<byte>, pos: nat, h: Header)
    requires WellFormedHeader(h, pos) && h.version == 5 && IsSkeleton(h.unitType)
    requires pos + |EncodeHeader(h)| < |data|
    requires At(data, pos, EncodeHeader(h))
    ensures ReadHeaderAsWritten(data, pos).1 == pos + |EncodeHeader(h)| - 7
    ensures ReadHeaderAsWritten(data, pos).0.headerSize == h.headerSize - 7
    ensures ReadHeaderAsWritten(data, pos).0.dwoId == h.dwoId % 256
  {
    HeaderRoundTrip(data, pos, h);
    var (_, is64, p1) := ReadInitialLength(data, pos);
    assert |EncodeUnitIds(h)| == 8;
    SkeletonBodyAsWritten(data, p1, is64);
  }

  /**
   * On a skeleton or split-compile body whose eight `dwo_id` bytes lie inside
   * the section, the one-byte read keeps only the low byte of `dwo_id` and
   * ends seven bytes early; every other field is the same.
   */
  lemma SkeletonBodyAsWritten(data: seq<byte>, p1: nat, is64: bool)
    requires ReadBody(data, p1, is64, 8).0.version == 5 && IsSkeleton(ReadBody(data, p1, is64, 8).0.unitType)
    requires p1 + 4 + OffsetSize(is64) + 8 < |data|
    ensures var (s, n) := ReadBody(data, p1, is64, 8);
      ReadBody(data, p1, is64, 1) == (s.(headerSize := s.headerSize - 7, dwoId := s.dwoId % 256), n - 7)
  {
    ReadFixedLowByte(data, p1 + 4 + OffsetSize(is64), |data|, 8);
  }
}
