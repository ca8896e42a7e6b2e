/**
 * Attribute values (parse_attr_value): one case per form of section 7.5.4
 * of DWARF 4 and section 7.5.5 of DWARF 5. The value is decoded from the
 * window `[pos, end)` of the unit it belongs to; the fixed-width reads are
 * the bounded reads of module Bytes, so a read that does not fit yields 0
 * and still moves the cursor.
 */
module AttrValue {
  import opened Wrappers
  import opened Bytes
  import opened Leb128
  import C = DwarfConstants
  import opened Abbrev
  import opened UnitHeader

  const Word64: nat := 0x1_0000_0000_0000_0000

  /** The member of the value union that a form fills in. */
  datatype Value =
    | Address(address: nat)
    | Data(data: nat)
    | SData(sdata: int)
    | Str(offset: nat, content: Option<string>)
    | Block(bytes: seq<byte>)
    | Flag(flag: nat)
    | Reference(reference: nat)
    | NoValue

  /** A decoded attribute: name and form copied from its definition, and the value. */
  datatype Attr = Attr(name: nat, form: nat, value: Value)

  /**
   * The first 64-bit word of the value union, which is what a reader of
   * `data`, `constant` or `reference` sees whatever form filled it in.
   * Strings and blocks keep an offset, a pointer or a length there, none of
   * which the model lays out as a word: they give 0.
   */
  function Word(v: Value): (r: nat)
    ensures r < Word64 || v.Address? || v.Data? || v.Reference? || v.Flag?
  {
    match v
    case Address(a) => a
    case Data(d) => d
    case SData(s) => ToWord64(s)
    case Str(_, _) => 0
    case Block(_) => 0
    case Flag(f) => f
    case Reference(r) => r
    case NoValue => 0
  }

  /** Bytes of a block copied one bounded byte read at a time: 0 for a byte the window does not hold. */
  function BlockBytes(data: seq<byte>, p: nat, end: nat, n: nat): seq<byte>
    requires end <= |data|
  {
    seq(n, j requires 0 <= j < n => if p + j + 1 < end then data[p + j] else 0)
  }

  /** The forms the decoder knows: every form of DWARF 5 but the reserved code 0x02 and `indirect`. */
  predicate Handled(form: nat)
  {
    C.FORM_addr <= form <= C.FORM_addrx4 && form != 0x02 && form != C.FORM_indirect
  }

  predicate IsBlockWithUleb(form: nat)
  {
    form == C.FORM_block || form == C.FORM_exprloc
  }

  predicate ValidAddressSize(size: nat)
  {
    size == 1 || size == 2 || size == 4 || size == 8
  }

  /** The content of a `.debug_str` entry: present only when there is a string table and the offset is inside it. */
  function StrContent(debugStr: Option<seq<byte>>, offset: nat): Option<string>
  {
    if debugStr.Some? && offset < |debugStr.value| then Some(CString(debugStr.value, offset)) else None
  }

  /** Which member of the value union a single operand is stored in. */
  datatype Member = InAddress | InData | InFlag | InReference | InUnitReference | InStrOffset

  /** How the operand of a single-operand form is read. */
  datatype Reader = Fixed(width: nat) | Piece | Uleb

  /** The case of parse_attr_value a form falls in. */
  datatype FormCase =
    | Operand(reader: Reader, member: Member)  // one read, kept in one member
    | Signed                                   // sdata: a signed LEB128
    | Data16                                   // two eight-byte reads, the second kept
    | InlineString                             // NUL-terminated bytes in place
    | DebugStr                                 // strp: an offset into .debug_str
    | BlockFixed(width: nat)                   // a fixed-width length, then the bytes
    | BlockUleb                                // a ULEB128 length, then the bytes
    | NoOperand(value: Value)                  // nothing is read
    | Skip3                                    // three bytes skipped, no value
    | Unsupported                              // the decoder gives up

  /** The case table of parse_attr_value. */
  function CaseOf(form: nat, h: Header, special: int): (r: FormCase)
  {
    if form == C.FORM_addr then
      if ValidAddressSize(h.addressSize) then Operand(Fixed(h.addressSize), InAddress) else Unsupported
    else if form == C.FORM_data1 then Operand(Fixed(1), InData)
    else if form == C.FORM_data2 then Operand(Fixed(2), InData)
    else if form == C.FORM_data4 then Operand(Fixed(4), InData)
    else if form == C.FORM_data8 then Operand(Fixed(8), InData)
    else if form == C.FORM_data16 then Data16
    else if form == C.FORM_sdata then Signed
    else if form == C.FORM_udata then Operand(Uleb, InData)
    else if form == C.FORM_string then InlineString
    else if form == C.FORM_block1 then BlockFixed(1)
    else if form == C.FORM_block2 then BlockFixed(2)
    else if form == C.FORM_block4 then BlockFixed(4)
    else if form == C.FORM_block || form == C.FORM_exprloc then BlockUleb
    else if form == C.FORM_flag then Operand(Fixed(1), InFlag)
    else if form == C.FORM_strp then DebugStr
    else if form == C.FORM_ref_addr || form == C.FORM_sec_offset then Operand(Piece, InReference)
    else if form == C.FORM_ref1 then Operand(Fixed(1), InUnitReference)
    else if form == C.FORM_ref2 then Operand(Fixed(2), InUnitReference)
    else if form == C.FORM_ref4 then Operand(Fixed(4), InUnitReference)
    else if form == C.FORM_ref8 then Operand(Fixed(8), InUnitReference)
    else if form == C.FORM_ref_udata then Operand(Uleb, InUnitReference)
    else if form == C.FORM_flag_present then NoOperand(Flag(1))
    else if form == C.FORM_ref_sig8 || form == C.FORM_ref_sup8 then Operand(Fixed(8), InReference)
    else if form == C.FORM_ref_sup4 then Operand(Fixed(4), InReference)
    else if form == C.FORM_strx then Operand(Uleb, InStrOffset)
    else if form == C.FORM_strx1 then Operand(Fixed(1), InStrOffset)
    else if form == C.FORM_strx2 then Operand(Fixed(2), InStrOffset)
    else if form == C.FORM_strx4 then Operand(Fixed(4), InStrOffset)
    else if form == C.FORM_strx3 || form == C.FORM_addrx3 then Skip3
    else if form == C.FORM_implicit_const then NoOperand(SData(special))
    else if form == C.FORM_addrx || form == C.FORM_loclistx || form == C.FORM_rnglistx then Operand(Uleb, InAddress)
    else if form == C.FORM_addrx1 then Operand(Fixed(1), InAddress)
    else if form == C.FORM_addrx2 then Operand(Fixed(2), InAddress)
    else if form == C.FORM_addrx4 then Operand(Fixed(4), InAddress)
    else if form == C.FORM_line_ptr || form == C.FORM_strp_sup then Operand(Piece, InStrOffset)
    else Unsupported
  }

  /** One operand read at `pos`, and the cursor after it. */
  function ReadOperand(data: seq<byte>, pos: nat, end: nat, reader: Reader, is64: bool): (r: (nat, nat))
    requires end <= |data|
    ensures pos <= r.1
  {
    match reader
    case Fixed(w) => ReadFixed(data, pos, end, w)
    case Piece => ReadPiece(is64, data, pos, end)
    case Uleb => ULeb(data, pos, end)
  }

  /** The operand stored in its member; a unit-relative reference is offset by the unit's position, on 64 bits. */
  function Store(member: Member, v: nat, h: Header): Value
  {
    match member
    case InAddress => Address(v)
    case InData => Data(v)
    case InFlag => Flag(v)
    case InReference => Reference(v)
    case InUnitReference => Reference((h.unitOffset + v) % Word64)
    case InStrOffset => Str(v, None)
  }

  /**
   * The value of form `def.form` at `pos` and the cursor after it, or None
   * where the decoder gives up. The window holds at least one byte.
   */
  function ValueAt(data: seq<byte>, pos: nat, end: nat, def: AttrDef, h: Header, debugStr: Option<seq<byte>>): (r: Option<(Value, nat)>)
    requires end <= |data| && pos < end
    ensures r.Some? ==> pos <= r.value.1
  {
    match CaseOf(def.form, h, def.special)
    case Operand(reader, member) =>
      var (v, n) := ReadOperand(data, pos, end, reader, h.is64); Some((Store(member, v, h), n))
    case Signed => var (v, n) := SLeb(data, pos, end); Some((SData(v), n))
    case Data16 =>
      var (_, n1) := ReadFixed(data, pos, end, 8);
      var (v, n2) := ReadFixed(data, n1, end, 8);
      Some((Data(v), n2))
    case InlineString =>
      Some((Str(0, if data[pos] == 0 then None else Some(CString(data, pos))), pos + CStrLen(data, pos) + 1))
    case DebugStr =>
      var (off, n) := ReadPiece(h.is64, data, pos, end); Some((Str(off, StrContent(debugStr, off)), n))
    case BlockFixed(w) =>
      var (len, n) := ReadFixed(data, pos, end, w); Some((Block(BlockBytes(data, n, end, len)), n + len))
    case BlockUleb =>
      var (len, n) := ULeb(data, pos, end);
      if n >= end then None else Some((Block(BlockBytes(data, n, end, len)), n + len))
    case NoOperand(v) => Some((v, pos))
    case Skip3 => Some((NoValue, pos + 3))
    case Unsupported => None
  }

  /**
   * parse_attr_value: None when the window is empty, else the attribute with
   * the definition's name and form, and the cursor after its value.
   */
  function AttrAt(data: seq<byte>, pos: nat, end: nat, def: AttrDef, h: Header, debugStr: Option<seq<byte>>): (r: Option<(Attr, nat)>)
    requires end <= |data|
    ensures r.Some? ==> r.value.0.name == def.name && r.value.0.form == def.form
  {
    if pos >= end then None
    else
      match ValueAt(data, pos, end, def, h, debugStr)
      case None => None
      case Some((v, n)) => Some((Attr(def.name, def.form, v), n))
  }

  /** The copy loop of the block forms: one READ(buf, ut8) per byte of the block. */
  method ReadBlock(data: seq<byte>, p: nat, end: nat, n: nat) returns (bytes: seq<byte>)
    requires end <= |data|
    ensures |bytes| == n
    ensures forall j :: 0 <= j < n && p + j + 1 < end ==> bytes[j] == data[p + j]
    ensures forall j :: 0 <= j < n && end <= p + j + 1 ==> bytes[j] == 0
    ensures bytes == BlockBytes(data, p, end, n)
  {
    var a := new byte[n];
    var j := 0;
    while j < n
      invariant j <= n
      invariant forall i :: 0 <= i < j ==> a[i] == if p + i + 1 < end then data[p + i] else 0
    {
      a[j] := if p + j + 1 < end then data[p + j] else 0;
      j := j + 1;
    }
    bytes := a[..];
  }

  /** parse_attr_value with the block copy done by ReadBlock. */
  method ParseAttrValue(data: seq<byte>, pos: nat, end: nat, def: AttrDef, h: Header, debugStr: Option<seq<byte>>)
    returns (r: Option<(Attr, nat)>)
    requires end <= |data|
    ensures r == AttrAt(data, pos, end, def, h, debugStr)
  {
    if pos >= end {
      return None;
    }
    match CaseOf(def.form, h, def.special)
    case BlockFixed(w) =>
      var (len, n) := ReadFixed(data, pos, end, w);
      var bytes := ReadBlock(data, n, end, len);
      r := Some((Attr(def.name, def.form, Block(bytes)), n + len));
    case BlockUleb =>
      var (len, n) := ULeb(data, pos, end);
      if n >= end {
        return None;
      }
      var bytes := ReadBlock(data, n, end, len);
      r := Some((Attr(def.name, def.form, Block(bytes)), n + len));
    case _ =>
      r := AttrAt(data, pos, end, def, h, debugStr);
  }

  // ---------------------------------------------------------------------
  // Sizes, after the table of section 7.5.6 of DWARF 5.

  /**
   * The operand size the standard gives a form whose size does not depend
   * on its content: None for the variable-size forms and the forms the
   * decoder does not know.
   */
  function FormSize(form: nat, h: Header): (r: Option<nat>)
  {
    if form == C.FORM_flag_present || form == C.FORM_implicit_const then Some(0)
    else if form in {C.FORM_data1, C.FORM_ref1, C.FORM_flag, C.FORM_strx1, C.FORM_addrx1} then Some(1)
    else if form in {C.FORM_data2, C.FORM_ref2, C.FORM_strx2, C.FORM_addrx2} then Some(2)
    else if form in {C.FORM_strx3, C.FORM_addrx3} then Some(3)
    else if form in {C.FORM_data4, C.FORM_ref4, C.FORM_ref_sup4, C.FORM_strx4, C.FORM_addrx4} then Some(4)
    else if form in {C.FORM_data8, C.FORM_ref8, C.FORM_ref_sig8, C.FORM_ref_sup8} then Some(8)
    else if form == C.FORM_data16 then Some(16)
    else if form in {C.FORM_strp, C.FORM_ref_addr, C.FORM_sec_offset, C.FORM_line_ptr, C.FORM_strp_sup} then
      Some(OffsetSize(h.is64))
    else if form == C.FORM_addr && ValidAddressSize(h.addressSize) then Some(h.addressSize)
    else None
  }

  /** Every fixed-size form is decoded, and its value takes exactly the size the standard gives it. */
  lemma FixedSizeForms(data: seq<byte>, pos: nat, end: nat, def: AttrDef, h: Header, debugStr: Option<seq<byte>>)
    requires end <= |data| && pos < end
    requires FormSize(def.form, h).Some?
    ensures AttrAt(data, pos, end, def, h, debugStr).Some?
    ensures AttrAt(data, pos, end, def, h, debugStr).value.1 == pos + FormSize(def.form, h).value
  {
  }

  /** The forms with a LEB128 operand end where the operand ends. */
  lemma LebSizedForms(data: seq<byte>, pos: nat, end: nat, def: AttrDef, h: Header, debugStr: Option<seq<byte>>)
    requires end <= |data| && pos < end
    requires def.form in {C.FORM_sdata, C.FORM_udata, C.FORM_ref_udata, C.FORM_strx, C.FORM_addrx, C.FORM_loclistx, C.FORM_rnglistx}
    ensures AttrAt(data, pos, end, def, h, debugStr).Some?
    ensures AttrAt(data, pos, end, def, h, debugStr).value.1 == ULeb(data, pos, end).1
  {
  }

  /** An inline string ends after its terminating NUL. */
  lemma InlineStringSize(data: seq<byte>, pos: nat, end: nat, def: AttrDef, h: Header, debugStr: Option<seq<byte>>)
    requires end <= |data| && pos < end
    requires def.form == C.FORM_string
    ensures AttrAt(data, pos, end, def, h, debugStr).Some?
    ensures AttrAt(data, pos, end, def, h, debugStr).value.1 == pos + CStrLen(data, pos) + 1
  {
  }

  /** A block ends `length` bytes after its length field, whatever the window holds. */
  lemma BlockSizedForms(data: seq<byte>, pos: nat, end: nat, def: AttrDef, h: Header, debugStr: Option<seq<byte>>)
    requires end <= |data| && pos < end
    ensures def.form in {C.FORM_block1, C.FORM_block2, C.FORM_block4} ==>
      var w := if def.form == C.FORM_block1 then 1 else if def.form == C.FORM_block2 then 2 else 4;
      var (len, n) := ReadFixed(data, pos, end, w);
      AttrAt(data, pos, end, def, h, debugStr) == Some((Attr(def.name, def.form, Block(BlockBytes(data, n, end, len))), n + len))
    ensures IsBlockWithUleb(def.form) && ULeb(data, pos, end).1 < end ==>
      var (len, n) := ULeb(data, pos, end);
      AttrAt(data, pos, end, def, h, debugStr) == Some((Attr(def.name, def.form, Block(BlockBytes(data, n, end, len))), n + len))
  {
  }

  /** Exactly when the decoder gives up. */
  lemma AttrFailure(data: seq<byte>, pos: nat, end: nat, def: AttrDef, h: Header, debugStr: Option<seq<byte>>)
    requires end <= |data|
    ensures AttrAt(data, pos, end, def, h, debugStr).None? <==>
      || pos >= end
      || !Handled(def.form)
      || (def.form == C.FORM_addr && !ValidAddressSize(h.addressSize))
      || (IsBlockWithUleb(def.form) && ULeb(data, pos, end).1 >= end)
  {
  }

  /** The cursor never moves backwards. */
  lemma AttrAdvances(data: seq<byte>, pos: nat, end: nat, def: AttrDef, h: Header, debugStr: Option<seq<byte>>)
    requires end <= |data|
    requires AttrAt(data, pos, end, def, h, debugStr).Some?
    ensures pos <= AttrAt(data, pos, end, def, h, debugStr).value.1
    ensures AttrAt(data, pos, end, def, h, debugStr).value.1 == pos <==>
      def.form == C.FORM_flag_present || def.form == C.FORM_implicit_const
  {
    if def.form in {C.FORM_sdata, C.FORM_udata, C.FORM_ref_udata, C.FORM_strx, C.FORM_addrx, C.FORM_loclistx, C.FORM_rnglistx} {
      LebSizedForms(data, pos, end, def, h, debugStr);
    }
  }

  // ---------------------------------------------------------------------
  // Values read back from the bytes the standard lays down.

  /** The unit-relative references `ref1` to `ref8` resolve against the unit's offset. */
  lemma UnitRelativeReference(data: seq<byte>, pos: nat, end: nat, def: AttrDef, h: Header, debugStr: Option<seq<byte>>, w: nat, x: nat)
    requires end <= |data| && pos + w < end
    requires (w, def.form) in {(1, C.FORM_ref1), (2, C.FORM_ref2), (4, C.FORM_ref4), (8, C.FORM_ref8)}
    requires x < Pow256(w) && At(data, pos, EncodeLE(x, w))
    ensures AttrAt(data, pos, end, def, h, debugStr) == Some((Attr(def.name, def.form, Reference((h.unitOffset + x) % Word64)), pos + w))
  {
    ReadAt(data, pos, end, x, w);
  }

  lemma UnitRelativeUleb(data: seq<byte>, pos: nat, end: nat, def: AttrDef, h: Header, debugStr: Option<seq<byte>>, x: nat)
    requires end <= |data| && pos + |EncodeU(x)| <= end
    requires def.form == C.FORM_ref_udata && At(data, pos, EncodeU(x))
    ensures AttrAt(data, pos, end, def, h, debugStr) == Some((Attr(def.name, def.form, Reference((h.unitOffset + x) % Word64)), pos + |EncodeU(x)|))
  {
    ULebRoundTrip(data, pos, end, x);
  }

  /** The section offsets take 4 or 8 bytes by the unit's format; `strp` has content exactly when it points into the string table. */
  lemma SectionOffsets(data: seq<byte>, pos: nat, end: nat, def: AttrDef, h: Header, debugStr: Option<seq<byte>>, x: nat)
    requires end <= |data| && pos + OffsetSize(h.is64) < end
    requires def.form in {C.FORM_strp, C.FORM_ref_addr, C.FORM_sec_offset}
    requires x < Pow256(OffsetSize(h.is64)) && At(data, pos, EncodeLE(x, OffsetSize(h.is64)))
    ensures AttrAt(data, pos, end, def, h, debugStr).Some?
    ensures AttrAt(data, pos, end, def, h, debugStr).value.1 == pos + OffsetSize(h.is64)
    ensures def.form == C.FORM_strp ==>
      AttrAt(data, pos, end, def, h, debugStr).value.0.value == Str(x, StrContent(debugStr, x))
    ensures def.form != C.FORM_strp ==>
      AttrAt(data, pos, end, def, h, debugStr).value.0.value == Reference(x)
    ensures StrContent(debugStr, x).Some? <==> debugStr.Some? && x < |debugStr.value|
  {
    ReadAt(data, pos, end, x, OffsetSize(h.is64));
  }

  /** The constant data forms give back the encoded value. */
  lemma DataRoundTrip(data: seq<byte>, pos: nat, end: nat, def: AttrDef, h: Header, debugStr: Option<seq<byte>>, w: nat, x: nat)
    requires end <= |data| && pos + w < end
    requires (w, def.form) in {(1, C.FORM_data1), (2, C.FORM_data2), (4, C.FORM_data4), (8, C.FORM_data8)}
    requires x < Pow256(w) && At(data, pos, EncodeLE(x, w))
    ensures AttrAt(data, pos, end, def, h, debugStr) == Some((Attr(def.name, def.form, Data(x)), pos + w))
  {
    ReadAt(data, pos, end, x, w);
  }

  /** `data16` keeps the second of its two eight-byte words. */
  lemma Data16KeepsSecondWord(data: seq<byte>, pos: nat, end: nat, def: AttrDef, h: Header, debugStr: Option<seq<byte>>, lo: nat, hi: nat)
    requires end <= |data| && pos + 16 < end
    requires def.form == C.FORM_data16
    requires lo < Pow256(8) && hi < Pow256(8)
    requires At(data, pos, EncodeLE(lo, 8) + EncodeLE(hi, 8))
    ensures AttrAt(data, pos, end, def, h, debugStr) == Some((Attr(def.name, def.form, Data(hi)), pos + 16))
  {
    AtSplit(data, pos, EncodeLE(lo, 8), EncodeLE(hi, 8));
    ReadAt(data, pos + 8, end, hi, 8);
  }

  lemma LebRoundTrip(data: seq<byte>, pos: nat, end: nat, def: AttrDef, h: Header, debugStr: Option<seq<byte>>, x: nat, s: int)
    requires end <= |data|
    ensures def.form == C.FORM_udata && pos + |EncodeU(x)| <= end && At(data, pos, EncodeU(x)) ==>
      AttrAt(data, pos, end, def, h, debugStr) == Some((Attr(def.name, def.form, Data(x)), pos + |EncodeU(x)|))
    ensures def.form == C.FORM_sdata && pos + |EncodeS(s)| <= end && At(data, pos, EncodeS(s)) ==>
      AttrAt(data, pos, end, def, h, debugStr) == Some((Attr(def.name, def.form, SData(s)), pos + |EncodeS(s)|))
  {
    if def.form == C.FORM_udata && pos + |EncodeU(x)| <= end && At(data, pos, EncodeU(x)) {
      ULebRoundTrip(data, pos, end, x);
    }
    if def.form == C.FORM_sdata && pos + |EncodeS(s)| <= end && At(data, pos, EncodeS(s)) {
      SLebRoundTrip(data, pos, end, s);
    }
  }

  /** A block laid out inside the window is copied exactly. */
  lemma BlockOfContent(data: seq<byte>, p: nat, end: nat, content: seq<byte>)
    requires end <= |data| && p + |content| < end
    requires At(data, p, content)
    ensures BlockBytes(data, p, end, |content|) == content
  {
  }

  /** `block1` with its length byte and content. */
  lemma Block1RoundTrip(data: seq<byte>, pos: nat, end: nat, def: AttrDef, h: Header, debugStr: Option<seq<byte>>, content: seq<byte>)
    requires end <= |data| && pos + 1 + |content| < end
    requires def.form == C.FORM_block1 && |content| < 256
    requires At(data, pos, [|content|] + content)
    ensures AttrAt(data, pos, end, def, h, debugStr) == Some((Attr(def.name, def.form, Block(content)), pos + 1 + |content|))
  {
    AtSplit(data, pos, [|content|], content);
    AtIndex(data, pos, [|content|], 0);
    ReadByte(data, pos, end);
    BlockOfContent(data, pos + 1, end, content);
  }

  /** `exprloc` and `block` with their ULEB128 length and content. */
  lemma UlebBlockRoundTrip(data: seq<byte>, pos: nat, end: nat, def: AttrDef, h: Header, debugStr: Option<seq<byte>>, content: seq<byte>)
    requires end <= |data| && pos + |EncodeU(|content|)| + |content| < end
    requires IsBlockWithUleb(def.form)
    requires At(data, pos, EncodeU(|content|) + content)
    ensures AttrAt(data, pos, end, def, h, debugStr) ==
      Some((Attr(def.name, def.form, Block(content)), pos + |EncodeU(|content|)| + |content|))
  {
    UlebBlockLaidOut(data, pos, end, content);
    AttrAtBlockUleb(data, pos, end, def, h, debugStr, content, pos + |EncodeU(|content|)|);
  }

  /** A ULEB128 length followed by that many bytes, laid out inside the window, reads back as the length and the bytes. */
  lemma UlebBlockLaidOut(data: seq<byte>, pos: nat, end: nat, content: seq<byte>)
    requires end <= |data| && pos + |EncodeU(|content|)| + |content| < end
    requires At(data, pos, EncodeU(|content|) + content)
    ensures ULeb(data, pos, end) == (|content|, pos + |EncodeU(|content|)|)
    ensures BlockBytes(data, pos + |EncodeU(|content|)|, end, |content|) == content
  {
    AtSplit(data, pos, EncodeU(|content|), content);
    ULebRoundTrip(data, pos, end, |content|);
    BlockOfContent(data, pos + |EncodeU(|content|)|, end, content);
  }

  /** The block forms with a ULEB128 length, once the length, the cursor after it and the copied bytes are known. */
  lemma AttrAtBlockUleb(data: seq<byte>, pos: nat, end: nat, def: AttrDef, h: Header, debugStr: Option<seq<byte>>, content: seq<byte>, k: nat)
    requires end <= |data| && pos < end && k < end
    requires IsBlockWithUleb(def.form)
    requires ULeb(data, pos, end) == (|content|, k)
    requires BlockBytes(data, k, end, |content|) == content
    ensures AttrAt(data, pos, end, def, h, debugStr) == Some((Attr(def.name, def.form, Block(content)), k + |content|))
  {
    assert CaseOf(def.form, h, def.special) == BlockUleb;
  }

  /** An inline string with its terminating NUL: the characters, none for the empty string. */
  lemma InlineStringRoundTrip(data: seq<byte>, pos: nat, end: nat, def: AttrDef, h: Header, debugStr: Option<seq<byte>>, s: seq<byte>)
    requires end <= |data| && pos < end
    requires def.form == C.FORM_string
    requires forall i :: 0 <= i < |s| ==> s[i] != 0
    requires At(data, pos, s + [0])
    ensures AttrAt(data, pos, end, def, h, debugStr) ==
      Some((Attr(def.name, def.form, Str(0, if s == [] then None else Some(Chars(s)))), pos + |s| + 1))
  {
    AtSplit(data, pos, s, [0]);
    AtIndex(data, pos + |s|, [0], 0);
    CStrLenOfName(data, pos, s);
    if s != [] {
      assert data[pos + 0] == s[0];
      assert data[pos..pos + |s|] == s;
    }
  }
}
