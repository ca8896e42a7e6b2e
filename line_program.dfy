/**
 * The line-number state machine of .debug_line (sections 6.2.2 and 6.2.5 of
 * DWARF 4) as parse_opcodes and parse_line_raw run it: a register file that
 * the special, standard and extended opcodes update, and rows
 * (address, file name, line) handed to the address-information store
 * whenever the file register names an entry of the header's file table.
 *
 * Registers are 64-bit words: the address and line arithmetic wraps modulo
 * 2^64. The store renders the line as a signed 64-bit number. The file
 * register minus one is taken as a C `int` before it indexes the file table.
 */
module LineProgram {
  import opened Wrappers
  import opened Bytes
  import opened Leb128
  import opened LineHeader
  import opened AddrInfoStore
  import C = DwarfConstants

  const Word: nat := 0x1_0000_0000_0000_0000
  const HalfWord: int := 0x8000_0000_0000_0000

  /** The register file of the state machine (section 6.2.2 of DWARF 4). */
  datatype Regs = Regs(
    address: nat,
    file: nat,
    line: nat,
    column: nat,
    isStmt: byte,
    basicBlock: byte,
    endSequence: byte,
    prologueEnd: byte,
    epilogueBegin: byte,
    isa: nat,
    discriminator: nat)

  /** set_regs_default: every register but the discriminator goes back to its initial value. */
  function Reset(hdr: LineHeader, s: Regs): Regs
  {
    Regs(0, 1, 1, 0, hdr.defaultIsStmt, 0, 0, 0, 0, 0, s.discriminator)
  }

  /** The `%"PFMT64d` rendering of a 64-bit word: two's complement. */
  function SignedLine(w: int): (r: int)
    ensures -HalfWord <= r < HalfWord
    ensures (r - w) % Word == 0
  {
    var low := w % Word;
    if low >= HalfWord then low - Word else low
  }

  /**
   * add_sdb_addrline as guarded by its callers: a row when `file - 1`, taken
   * as an `int`, indexes the file table.
   */
  function RowOf(hdr: LineHeader, s: Regs): (r: Option<Row>)
    ensures r.Some? ==> 0 <= ToInt32(s.file - 1) < |hdr.files|
    ensures r.Some? ==> r.value.address == s.address && r.value.file == hdr.files[ToInt32(s.file - 1)].name
  {
    var idx := ToInt32(s.file - 1);
    if 0 <= idx < |hdr.files| then Some(Row(s.address, hdr.files[idx].name, SignedLine(s.line))) else None
  }

  function Rows(row: Option<Row>): (r: seq<Row>)
    ensures |r| <= 1
  {
    if row.Some? then [row.value] else []
  }

  /** For a file register below 2^31, a row is written exactly when it is 1 .. the number of files. */
  lemma RowIffFileInRange(hdr: LineHeader, s: Regs)
    requires s.file < 0x8000_0000
    ensures RowOf(hdr, s).Some? <==> 1 <= s.file <= |hdr.files|
    ensures RowOf(hdr, s).Some? ==> RowOf(hdr, s).value == Row(s.address, hdr.files[s.file - 1].name, SignedLine(s.line))
  {
    if s.file == 0 {
      assert ToInt32(-1) == -1;
    } else {
      assert ToInt32(s.file - 1) == s.file - 1;
    }
  }

  /** The `int` conversion wraps: file 2^32 + 1 selects the first entry again. */
  lemma RowFileWraps(hdr: LineHeader, s: Regs)
    requires s.file == 0x1_0000_0001 && |hdr.files| > 0
    ensures RowOf(hdr, s).Some? && RowOf(hdr, s).value.file == hdr.files[0].name
  {
    assert ToInt32(s.file - 1) == 0;
  }

  /* ---------------- one opcode ---------------- */

  /** The registers after one opcode, the row it wrote if any, and the cursor after its operands. */
  datatype Moved = Moved(regs: Regs, row: Option<Row>, next: nat)

  /**
   * parse_spec_opcode: None when line_range is 0 (the decoder returns NULL).
   * Otherwise the address advances by adj / line_range, unscaled, and the line
   * by line_base + adj % line_range; a row is written, then basic_block,
   * prologue_end, epilogue_begin and the discriminator are cleared.
   */
  function Special(hdr: LineHeader, s: Regs, opcode: byte): (r: Option<(Regs, Option<Row>)>)
    requires hdr.opcodeBase <= opcode
    ensures r.None? <==> hdr.lineRange == 0
    ensures r.Some? ==> r.value.0.basicBlock == 0 && r.value.0.prologueEnd == 0 &&
                        r.value.0.epilogueBegin == 0 && r.value.0.discriminator == 0
    ensures r.Some? ==> r.value.0.file == s.file && r.value.0.column == s.column && r.value.0.isStmt == s.isStmt
  {
    if hdr.lineRange == 0 then None
    else
      var adj := opcode - hdr.opcodeBase;
      var moved := s.(address := (s.address + adj / hdr.lineRange) % Word,
                      line := (s.line + hdr.lineBase + adj % hdr.lineRange) % Word);
      Some((moved.(basicBlock := 0, prologueEnd := 0, epilogueBegin := 0, discriminator := 0),
            RowOf(hdr, moved)))
  }

  lemma {:induction false} MulAtLeast(d: int, k: nat)
    requires d > 0 && k >= 1
    ensures d * k >= d
    decreases k
  {
    if k > 1 {
      MulAtLeast(d, k - 1);
      assert d * k == d * (k - 1) + d;
    }
  }

  lemma DivModUnique(d: int, q: nat, m: int)
    requires 0 < d && 0 <= m < d
    ensures (d * q + m) / d == q && (d * q + m) % d == m
  {
    var x := d * q + m;
    var q', m' := x / d, x % d;
    if q' > q {
      MulAtLeast(d, q' - q);
      assert false;
    } else if q' < q {
      MulAtLeast(d, q - q');
      assert false;
    }
  }

  /**
   * The special opcode the standard assigns to a line increment `d` and an
   * operation advance `a` (section 6.2.5.1 of DWARF 4) decodes to exactly
   * that address and line advance.
   */
  lemma SpecialDecodesEncoding(hdr: LineHeader, s: Regs, d: int, a: nat, opcode: byte)
    requires hdr.lineRange > 0
    requires hdr.lineBase <= d < hdr.lineBase + hdr.lineRange
    requires opcode == (d - hdr.lineBase) + hdr.lineRange * a + hdr.opcodeBase
    ensures Special(hdr, s, opcode).Some?
    ensures Special(hdr, s, opcode).value.0.address == (s.address + a) % Word
    ensures Special(hdr, s, opcode).value.0.line == (s.line + d) % Word
  {
    DivModUnique(hdr.lineRange, a, d - hdr.lineBase);
  }

  /** Line base -5, line range 14, opcode base 13: opcode 19 advances the line by one and the address by nothing. */
  lemma SpecialExample(hdr: LineHeader, s: Regs)
    requires hdr.lineBase == -5 && hdr.lineRange == 14 && hdr.opcodeBase == 13
    requires s.address < Word
    ensures Special(hdr, s, 19).Some?
    ensures Special(hdr, s, 19).value.0.address == s.address
    ensures Special(hdr, s, 19).value.0.line == (s.line + 1) % Word
  {
    SpecialDecodesEncoding(hdr, s, 1, 0, 19);
  }

  /** The unscaled address advance of DW_LNS_const_add_pc: that of special opcode 255, 0 without a line range. */
  function ConstAddAdvance(hdr: LineHeader): nat
  {
    if hdr.lineRange > 0 then ((255 - hdr.opcodeBase) % 256) / hdr.lineRange else 0
  }

  /**
   * parse_std_opcode: `opcode` is below opcode_base and not 0; `pos` is the
   * byte after it. An opcode the decoder does not know consumes nothing.
   */
  function Standard(data: seq<byte>, pos: nat, end: nat, hdr: LineHeader, s: Regs, opcode: byte): (r: Moved)
    requires end <= |data|
    ensures pos <= r.next
    ensures r.row.Some? ==> opcode == C.LNS_copy
  {
    if opcode == C.LNS_copy then
      Moved(s.(basicBlock := 0), RowOf(hdr, s), pos)
    else if opcode == C.LNS_advance_pc then
      var (v, n) := ULeb(data, pos, end);
      Moved(s.(address := (s.address + v * hdr.minInstLen) % Word), None, n)
    else if opcode == C.LNS_advance_line then
      var (v, n) := SLeb(data, pos, end);
      Moved(s.(line := (s.line + v) % Word), None, n)
    else if opcode == C.LNS_set_file then
      var (v, n) := ULeb(data, pos, end);
      Moved(s.(file := v), None, n)
    else if opcode == C.LNS_set_column then
      var (v, n) := ULeb(data, pos, end);
      Moved(s.(column := v), None, n)
    else if opcode == C.LNS_negate_stmt then
      Moved(s.(isStmt := if s.isStmt != 0 then 0 else 1), None, pos)
    else if opcode == C.LNS_set_basic_block then
      Moved(s.(basicBlock := 1), None, pos)
    else if opcode == C.LNS_const_add_pc then
      Moved(s.(address := (s.address + ConstAddAdvance(hdr)) % Word), None, pos)
    else if opcode == C.LNS_fixed_advance_pc then
      var (v, n) := ReadFixed(data, pos, end, 2);
      Moved(s.(address := (s.address + v) % Word), None, n)
    else if opcode == C.LNS_set_prologue_end then
      Moved(s.(prologueEnd := 255), None, pos)
    else if opcode == C.LNS_set_epilogue_begin then
      Moved(s.(epilogueBegin := 255), None, pos)
    else if opcode == C.LNS_set_isa then
      var (v, n) := ULeb(data, pos, end);
      Moved(s.(isa := v), None, n)
    else
      Moved(s, None, pos)
  }

  /** DW_LNS_const_add_pc moves the address as special opcode 255 would, and writes no row. */
  lemma ConstAddPcIsSpecial255(data: seq<byte>, pos: nat, end: nat, hdr: LineHeader, s: Regs)
    requires end <= |data| && hdr.lineRange > 0 && hdr.opcodeBase <= 255
    ensures Standard(data, pos, end, hdr, s, C.LNS_const_add_pc).regs.address == Special(hdr, s, 255).value.0.address
    ensures Standard(data, pos, end, hdr, s, C.LNS_const_add_pc).row == None
    ensures Standard(data, pos, end, hdr, s, C.LNS_const_add_pc).next == pos
  {
  }

  /** DW_LNS_negate_stmt twice keeps whether is_stmt is set, and nothing else moves. */
  lemma NegateTwice(data: seq<byte>, pos: nat, end: nat, hdr: LineHeader, s: Regs)
    requires end <= |data|
    ensures var once := Standard(data, pos, end, hdr, s, C.LNS_negate_stmt);
            var twice := Standard(data, once.next, end, hdr, once.regs, C.LNS_negate_stmt);
            (twice.regs.isStmt != 0 <==> s.isStmt != 0) &&
            twice.regs == s.(isStmt := twice.regs.isStmt) && twice.next == pos && twice.row == None
  {
  }

  /** A standard opcode the decoder does not know changes nothing and consumes no operand. */
  lemma UnknownStandardSkipsNothing(data: seq<byte>, pos: nat, end: nat, hdr: LineHeader, s: Regs, opcode: byte)
    requires end <= |data| && (opcode == 0 || opcode > C.LNS_set_isa)
    ensures Standard(data, pos, end, hdr, s, opcode) == Moved(s, None, pos)
  {
  }

  /** DW_LNS_advance_pc over an encoded operand: the address moves by operand * min_inst_length. */
  lemma AdvancePcRoundTrip(data: seq<byte>, pos: nat, end: nat, hdr: LineHeader, s: Regs, v: nat)
    requires end <= |data| && pos + |EncodeU(v)| <= end && At(data, pos, EncodeU(v))
    ensures Standard(data, pos, end, hdr, s, C.LNS_advance_pc).regs == s.(address := (s.address + v * hdr.minInstLen) % Word)
    ensures Standard(data, pos, end, hdr, s, C.LNS_advance_pc).next == pos + |EncodeU(v)|
  {
    ULebRoundTrip(data, pos, end, v);
  }

  /** DW_LNS_advance_line over an encoded operand: the line moves by the signed operand. */
  lemma AdvanceLineRoundTrip(data: seq<byte>, pos: nat, end: nat, hdr: LineHeader, s: Regs, v: int)
    requires end <= |data| && pos + |EncodeS(v)| <= end && At(data, pos, EncodeS(v))
    ensures Standard(data, pos, end, hdr, s, C.LNS_advance_line).regs == s.(line := (s.line + v) % Word)
    ensures Standard(data, pos, end, hdr, s, C.LNS_advance_line).next == pos + |EncodeS(v)|
  {
    SLebRoundTrip(data, pos, end, v);
  }

  /** DW_LNS_fixed_advance_pc adds its raw 16-bit operand, unscaled. */
  lemma FixedAdvanceRoundTrip(data: seq<byte>, pos: nat, end: nat, hdr: LineHeader, s: Regs, v: nat)
    requires end <= |data| && pos + 2 < end && v < 0x1_0000 && data[pos..pos + 2] == EncodeLE(v, 2)
    ensures Standard(data, pos, end, hdr, s, C.LNS_fixed_advance_pc).regs == s.(address := (s.address + v) % Word)
    ensures Standard(data, pos, end, hdr, s, C.LNS_fixed_advance_pc).next == pos + 2
  {
    ReadFixedOfEncoding(data, pos, end, 2, v);
  }

  /** DW_LNE_set_address reads 8 bytes for a 64-bit binary, 4 otherwise (4 when the width is unknown). */
  function AddressWidth(bits: nat): nat
  {
    if bits / 8 == 8 then 8 else 4
  }

  /**
   * DW_LNE_define_file: the name up to its NUL, then up to three ULEB128
   * numbers, each read only while two bytes remain in the window.
   */
  function DefineFileEnd(data: seq<byte>, q: nat, end: nat): (r: nat)
    requires end <= |data| && q <= |data|
    ensures q < r
  {
    var r0 := q + CStrLen(data, q) + 1;
    var r1 := if r0 + 1 < end then ULeb(data, r0, end).1 else r0;
    var r2 := if r1 + 1 < end then ULeb(data, r1, end).1 else r1;
    if r2 + 1 < end then ULeb(data, r2, end).1 else r2
  }

  /**
   * parse_ext_opcode at `pos`, the byte after the 0 escape: the length is
   * read as signed LEB128 and not used further; None (NULL) when no byte is
   * left for the sub-opcode. An unknown sub-opcode consumes only itself.
   */
  function Extended(data: seq<byte>, pos: nat, end: nat, bits: nat, hdr: LineHeader, s: Regs): (r: Option<Moved>)
    requires end <= |data|
    ensures r.None? <==> SLeb(data, pos, end).1 >= end
    ensures r.Some? ==> SLeb(data, pos, end).1 < r.value.next
    ensures r.Some? && r.value.row.Some? ==> data[SLeb(data, pos, end).1] == C.LNE_end_sequence
  {
    var p := SLeb(data, pos, end).1;
    if p >= end then None
    else
      var opcode := data[p];
      var q := p + 1;
      if opcode == C.LNE_end_sequence then
        var t := s.(endSequence := 1);
        Some(Moved(t, RowOf(hdr, t), q))
      else if opcode == C.LNE_set_address then
        var (a, n) := ReadFixed(data, q, end, AddressWidth(bits));
        Some(Moved(s.(address := a), None, n))
      else if opcode == C.LNE_define_file then
        Some(Moved(s, None, DefineFileEnd(data, q, end)))
      else if opcode == C.LNE_set_discriminator then
        var (d, n) := ULeb(data, q, end);
        Some(Moved(s.(discriminator := d), None, n))
      else
        Some(Moved(s, None, q))
  }

  /** The encoding 01 01 of DW_LNE_end_sequence sets end_sequence and writes the current row. */
  lemma EndSequenceEncoding(data: seq<byte>, pos: nat, end: nat, bits: nat, hdr: LineHeader, s: Regs)
    requires end <= |data| && pos + 1 < end && data[pos] == 1 && data[pos + 1] == C.LNE_end_sequence
    ensures Extended(data, pos, end, bits, hdr, s).Some?
    ensures Extended(data, pos, end, bits, hdr, s).value.regs == s.(endSequence := 1)
    ensures Extended(data, pos, end, bits, hdr, s).value.row == RowOf(hdr, s.(endSequence := 1))
    ensures Extended(data, pos, end, bits, hdr, s).value.next == pos + 2
  {
    assert ULeb(data, pos, end) == (1, pos + 1);
  }

  /** DW_LNE_set_address with length 9 and an 8-byte operand on a 64-bit binary loads the operand. */
  lemma SetAddressRoundTrip(data: seq<byte>, pos: nat, end: nat, bits: nat, hdr: LineHeader, s: Regs, a: nat)
    requires end <= |data| && pos + 10 < end && bits == 64 && a < Pow256(8)
    requires data[pos] == 9 && data[pos + 1] == C.LNE_set_address && data[pos + 2..pos + 10] == EncodeLE(a, 8)
    ensures Extended(data, pos, end, bits, hdr, s).Some?
    ensures Extended(data, pos, end, bits, hdr, s).value.regs == s.(address := a)
    ensures Extended(data, pos, end, bits, hdr, s).value.next == pos + 10
  {
    assert ULeb(data, pos, end) == (9, pos + 1);
    ReadFixedOfEncoding(data, pos + 2, end, 8, a);
  }

  /* ---------------- parse_opcodes ---------------- */

  /**
   * How a run of parse_opcodes stops: fewer than two bytes left in the
   * window, after an end_sequence (or an extended opcode whose length byte
   * is 1), or with a NULL cursor after a decoder failed.
   */
  datatype RunEnd = Exhausted(at: nat) | SequenceEnd(at: nat) | NullCursor

  datatype Run = Run(regs: Regs, rows: seq<Row>, end: RunEnd)

  /** One pass of the parse_opcodes loop at `cur`. */
  datatype Step = Go(regs: Regs, row: Option<Row>, next: nat) | Halt(regs: Regs, row: Option<Row>, end: RunEnd)

  function StepAt(data: seq<byte>, cur: nat, wend: nat, bits: nat, hdr: LineHeader, s: Regs): (r: Step)
    requires wend <= |data| && cur + 1 < wend
    ensures r.Go? ==> cur < r.next
    ensures r.Halt? && r.end.SequenceEnd? ==> cur < r.end.at
  {
    var opcode := data[cur];
    if opcode == 0 then
      match Extended(data, cur + 1, wend, bits, hdr, s)
      case None => Halt(Reset(hdr, s), None, NullCursor)
      case Some(m) =>
        if data[cur + 1] == C.LNE_end_sequence then Halt(Reset(hdr, m.regs), m.row, SequenceEnd(m.next))
        else Go(m.regs, m.row, m.next)
    else if opcode >= hdr.opcodeBase then
      match Special(hdr, s, opcode)
      case None => Halt(s, None, NullCursor)
      case Some(t) => Go(t.0, t.1, cur + 1)
    else
      var m := Standard(data, cur + 1, wend, hdr, s, opcode);
      Go(m.regs, m.row, m.next)
  }

  function Then(rows: seq<Row>, r: Run): Run
  {
    Run(r.regs, rows + r.rows, r.end)
  }

  /**
   * The parse_opcodes loop from `cur` to the window end `wend`: opcodes are
   * executed while at least two bytes remain, so the last byte of the window
   * is never taken as an opcode.
   */
  function RunFrom(data: seq<byte>, cur: nat, wend: nat, bits: nat, hdr: LineHeader, s: Regs): (r: Run)
    requires wend <= |data|
    ensures r.end.Exhausted? ==> cur <= r.end.at && wend <= r.end.at + 1
    ensures r.end.SequenceEnd? ==> cur < r.end.at
    ensures cur + 1 < wend && r.end.Exhausted? ==> cur < r.end.at
    decreases wend - cur, 1
  {
    if cur + 1 >= wend then Run(s, [], Exhausted(cur)) else RunAfter(data, cur, wend, bits, hdr, s)
  }

  /** The loop once an opcode is known to be there: that opcode, then the rest. */
  function RunAfter(data: seq<byte>, cur: nat, wend: nat, bits: nat, hdr: LineHeader, s: Regs): (r: Run)
    requires wend <= |data| && cur + 1 < wend
    ensures r.end.Exhausted? ==> cur < r.end.at && wend <= r.end.at + 1
    ensures r.end.SequenceEnd? ==> cur < r.end.at
    decreases wend - cur, 0
  {
    match StepAt(data, cur, wend, bits, hdr, s)
    case Halt(regs, row, e) => Run(regs, Rows(row), e)
    case Go(regs, row, next) => Then(Rows(row), RunFrom(data, next, wend, bits, hdr, regs))
  }

  /** parse_opcodes over `len` bytes at `pos`: nothing at all when `len < 8`. */
  function Opcodes(data: seq<byte>, pos: nat, len: nat, bits: nat, hdr: LineHeader, s: Regs): (r: Run)
    requires len < 8 || pos + len <= |data|
  {
    if len < 8 then Run(s, [], Exhausted(pos)) else RunFrom(data, pos, pos + len, bits, hdr, s)
  }

  /** The value parse_opcodes returns: the bytes moved over, or None for the NULL-derived garbage. */
  function Consumed(pos: nat, r: Run): Option<nat>
  {
    match r.end
    case NullCursor => None
    case Exhausted(at) => if at >= pos then Some(at - pos) else None
    case SequenceEnd(at) => if at >= pos then Some(at - pos) else None
  }

  /** parse_opcodes consumes nothing exactly when its window is shorter than 8 bytes. */
  lemma ConsumedZeroIffShort(data: seq<byte>, pos: nat, len: nat, bits: nat, hdr: LineHeader, s: Regs)
    requires len < 8 || pos + len <= |data|
    ensures Consumed(pos, Opcodes(data, pos, len, bits, hdr, s)) == Some(0) <==> len < 8
    ensures len < 8 ==> Opcodes(data, pos, len, bits, hdr, s).regs == s && Opcodes(data, pos, len, bits, hdr, s).rows == []
  {
  }

  /** A run that stops at an end_sequence leaves every register but the discriminator at its default. */
  lemma {:induction false} SequenceEndResets(data: seq<byte>, cur: nat, wend: nat, bits: nat, hdr: LineHeader, s: Regs)
    requires wend <= |data|
    ensures RunFrom(data, cur, wend, bits, hdr, s).end.SequenceEnd? ==>
      RunFrom(data, cur, wend, bits, hdr, s).regs == Reset(hdr, RunFrom(data, cur, wend, bits, hdr, s).regs)
    decreases wend - cur
  {
    if cur + 1 < wend {
      assert RunFrom(data, cur, wend, bits, hdr, s) == RunAfter(data, cur, wend, bits, hdr, s);
      match StepAt(data, cur, wend, bits, hdr, s)
      case Halt(regs, row, e) =>
      case Go(regs, row, next) => SequenceEndResets(data, next, wend, bits, hdr, regs);
    }
  }

  /** Eight DW_LNS_copy bytes write seven rows: the last byte of the window is not executed. */
  lemma LastByteNotExecuted(data: seq<byte>, pos: nat, bits: nat, hdr: LineHeader, s: Regs)
    requires pos + 8 <= |data| && forall k :: pos <= k < pos + 8 ==> data[k] == C.LNS_copy
    requires hdr.opcodeBase > 1 && s.file == 1 && |hdr.files| >= 1
    ensures |Opcodes(data, pos, 8, bits, hdr, s).rows| == 7
    ensures Opcodes(data, pos, 8, bits, hdr, s).end == Exhausted(pos + 7)
  {
    var t := s.(basicBlock := 0);
    assert RowOf(hdr, s).Some? && RowOf(hdr, t) == RowOf(hdr, s);
    CopiesWriteRows(data, pos, pos + 8, 7, bits, hdr, s);
  }

  lemma {:induction false} CopiesWriteRows(data: seq<byte>, cur: nat, wend: nat, n: nat, bits: nat, hdr: LineHeader, s: Regs)
    requires wend <= |data| && cur + n + 1 == wend
    requires forall k :: cur <= k < wend ==> data[k] == C.LNS_copy
    requires hdr.opcodeBase > 1 && RowOf(hdr, s).Some? && RowOf(hdr, s.(basicBlock := 0)) == RowOf(hdr, s)
    ensures |RunFrom(data, cur, wend, bits, hdr, s).rows| == n
    ensures RunFrom(data, cur, wend, bits, hdr, s).end == Exhausted(wend - 1)
    decreases n
  {
    if n > 0 {
      var t := s.(basicBlock := 0);
      assert StepAt(data, cur, wend, bits, hdr, s) == Go(t, RowOf(hdr, s), cur + 1);
      assert RunFrom(data, cur, wend, bits, hdr, s) == RunAfter(data, cur, wend, bits, hdr, s);
      assert t.(basicBlock := 0) == t;
      CopiesWriteRows(data, cur + 1, wend, n - 1, bits, hdr, t);
    }
  }

  /* ---------------- parse_line_raw ---------------- */

  /**
   * The byte count the decoder gives each parse_opcodes call: what remains
   * of the section from the unit start, or, when that is more than
   * unit_length, the unit with its initial length field.
   */
  function UnitSize(remaining: nat, hdr: LineHeader): nat
  {
    if remaining > hdr.unitLength then hdr.unitLength + (if hdr.is64 then 12 else 4) else remaining
  }

  /** The end of the window parse_opcodes is given, as written: `size` bytes from the cursor. */
  function WindowEndAsWritten(cur: nat, size: nat): nat
  {
    cur + size
  }

  /**
   * The window the model gives parse_opcodes: `size` bytes from the cursor,
   * as written, but cut at the section end, past which the source reads
   * memory outside the section.
   */
  function WindowLen(data: seq<byte>, cur: nat, size: nat): (len: nat)
    ensures cur + len <= |data| || len == 0
    ensures cur + size <= |data| ==> len == size
  {
    if cur + size <= |data| then size else if cur <= |data| then |data| - cur else 0
  }

  /**
   * The first window of a unit whose program ends the section runs past the
   * section end by the size of the unit's header.
   */
  lemma WindowPassesSectionEnd(data: seq<byte>, pos: nat, compDir: Option<string>)
    requires pos <= |data| && LineHeaderAt(data, pos, |data|, compDir).Some?
    requires var hdr := LineHeaderAt(data, pos, |data|, compDir).value.0;
             UnitSize(|data| - pos, hdr) == |data| - pos
    ensures var (hdr, hdrEnd) := LineHeaderAt(data, pos, |data|, compDir).value;
            WindowEndAsWritten(hdrEnd, UnitSize(|data| - pos, hdr)) == |data| + (hdrEnd - pos) > |data|
  {
    HeaderAdvances(data, pos, compDir);
  }

  /**
   * The window the unit size is evidently meant for: what is left of the
   * unit once `bytesRead` of its bytes have been read.
   */
  function IntendedWindowLen(size: nat, bytesRead: nat): nat
  {
    if bytesRead < size then size - bytesRead else 0
  }

  /**
   * For a unit that reaches its do/while, the intended first window ends
   * exactly where the unit ends, inside the section, while the window as
   * written ends past the unit by the header's size.
   */
  lemma OpcodeWindowInside(data: seq<byte>, pos: nat, compDir: Option<string>)
    requires pos <= |data| && LineHeaderAt(data, pos, |data|, compDir).Some?
    requires var (hdr, hdrEnd) := LineHeaderAt(data, pos, |data|, compDir).value;
             var size := UnitSize(|data| - pos, hdr);
             hdrEnd - pos < size <= |data| - pos
    ensures var (hdr, hdrEnd) := LineHeaderAt(data, pos, |data|, compDir).value;
            var size := UnitSize(|data| - pos, hdr);
            && hdrEnd + IntendedWindowLen(size, hdrEnd - pos) == pos + size <= |data|
            && WindowEndAsWritten(hdrEnd, size) == pos + size + (hdrEnd - pos)
  {
    HeaderAdvances(data, pos, compDir);
  }

  /** A header the decoder accepts moves the cursor forward. */
  lemma HeaderAdvances(data: seq<byte>, pos: nat, compDir: Option<string>)
    requires pos <= |data|
    ensures LineHeaderAt(data, pos, |data|, compDir).Some? ==> pos < LineHeaderAt(data, pos, |data|, compDir).value.1
  {
    var lead := LeadAt(data, pos, |data|);
    if lead.next + 8 <= |data| {
      var f := FieldsAt(data, lead.next, |data|, lead.version);
      OpcodeLengthsTable(data, f.next, |data|, f.opcodeBase);
    }
  }

  datatype Outcome = Done | Failed | Stalled

  /** How the do/while over one unit's sequences ends: at a cursor, or with the whole run. */
  datatype PassEnd = Resume(at: nat) | Halted(outcome: Outcome)

  datatype Pass = Pass(rows: seq<Row>, regs: Regs, end: PassEnd)

  /**
   * The do/while of parse_line_raw: parse_opcodes from the cursor over the
   * window, until the bytes read reach the unit size. A call that consumes
   * nothing never lets the loop end (Stalled); a NULL cursor is Failed.
   */
  function SequencesFrom(data: seq<byte>, cur: nat, bytesRead: nat, size: nat, bits: nat, hdr: LineHeader, s: Regs): (r: Pass)
    ensures r.end.Resume? ==> cur < r.end.at
    decreases size - bytesRead
  {
    var len := WindowLen(data, cur, size);
    var run := Opcodes(data, cur, len, bits, hdr, s);
    match Consumed(cur, run)
    case None => Pass(run.rows, run.regs, Halted(Failed))
    case Some(t) =>
      if t == 0 then Pass(run.rows, run.regs, Halted(Stalled))
      else if bytesRead + t < size then
        var rest := SequencesFrom(data, cur + t, bytesRead + t, size, bits, hdr, run.regs);
        Pass(run.rows + rest.rows, rest.regs, rest.end)
      else Pass(run.rows, run.regs, Resume(cur + t))
  }

  datatype LineRun = LineRun(outcome: Outcome, rows: seq<Row>, regs: Regs)

  /** One unit of parse_line_raw: how it ends, and the rows it adds. */
  datatype UnitStep = NextUnit(rows: seq<Row>, regs: Regs, at: nat) | LastUnit(outcome: Outcome, rows: seq<Row>, regs: Regs)

  /**
   * One pass of the unit loop of parse_line_raw at `pos`: a header (a failed
   * one ends the run with Failed), registers reset, then either nothing (a
   * unit whose size is its header), a size check, or the unit's sequences.
   */
  function UnitStepAt(data: seq<byte>, pos: nat, bits: nat, compDir: Option<string>, s: Regs): (r: UnitStep)
    requires pos <= |data|
    ensures r.NextUnit? ==> pos < r.at
  {
    match LineHeaderAt(data, pos, |data|, compDir)
    case None => LastUnit(Failed, [], s)
    case Some((hdr, hdrEnd)) =>
      HeaderAdvances(data, pos, compDir);
      UnitBody(data, pos, hdr, hdrEnd, bits, s)
  }

  /** The unit at `pos` once its header has been read up to `hdrEnd`. */
  function UnitBody(data: seq<byte>, pos: nat, hdr: LineHeader, hdrEnd: nat, bits: nat, s: Regs): (r: UnitStep)
    requires pos < hdrEnd && pos <= |data|
    ensures r.NextUnit? ==> pos < r.at
  {
    var bytesRead := hdrEnd - pos;
    var regs := Reset(hdr, s);
    var size := UnitSize(|data| - pos, hdr);
    if size == bytesRead then NextUnit([], regs, hdrEnd)
    else if size > |data| - pos || hdrEnd > |data| then LastUnit(Failed, [], regs)
    else
      var pass := SequencesFrom(data, hdrEnd, bytesRead, size, bits, hdr, regs);
      match pass.end
      case Halted(o) => LastUnit(o, pass.rows, pass.regs)
      case Resume(next) => NextUnit(pass.rows, pass.regs, next)
  }

  function ThenUnits(rows: seq<Row>, r: LineRun): LineRun
  {
    LineRun(r.outcome, rows + r.rows, r.regs)
  }

  /** The unit loop of parse_line_raw from `pos`, run while the cursor has not passed the section end. */
  function UnitsFrom(data: seq<byte>, pos: nat, bits: nat, compDir: Option<string>, s: Regs): (r: LineRun)
    decreases if pos <= |data| then |data| + 1 - pos else 0, 1
  {
    if pos > |data| then LineRun(Done, [], s) else UnitsAfter(data, pos, bits, compDir, s)
  }

  function UnitsAfter(data: seq<byte>, pos: nat, bits: nat, compDir: Option<string>, s: Regs): (r: LineRun)
    requires pos <= |data|
    decreases |data| + 1 - pos, 0
  {
    match UnitStepAt(data, pos, bits, compDir, s)
    case LastUnit(o, rows, regs) => LineRun(o, rows, regs)
    case NextUnit(rows, regs, at) => ThenUnits(rows, UnitsFrom(data, at, bits, compDir, regs))
  }

  /** The loop runs while the cursor is at most the section end, so a cursor that stops exactly there fails. */
  lemma EndOfSectionFails(data: seq<byte>, pos: nat, bits: nat, compDir: Option<string>, s: Regs)
    requires pos <= |data| < pos + 18
    ensures UnitsFrom(data, pos, bits, compDir, s).outcome == Failed
    ensures UnitsFrom(data, pos, bits, compDir, s).rows == []
  {
    assert UnitsFrom(data, pos, bits, compDir, s) == UnitsAfter(data, pos, bits, compDir, s);
  }

  /* ---------------- the decoder ---------------- */

  /** RBinDwarfSMRegisters, updated in place by the opcode decoders. */
  class Registers {
    var address: nat
    var file: nat
    var line: nat
    var column: nat
    var isStmt: byte
    var basicBlock: byte
    var endSequence: byte
    var prologueEnd: byte
    var epilogueBegin: byte
    var isa: nat
    var discriminator: nat

    function State(): Regs
      reads this
    {
      Regs(address, file, line, column, isStmt, basicBlock, endSequence, prologueEnd, epilogueBegin, isa, discriminator)
    }

    /** Registers whose only defined content is the discriminator left in their storage. */
    constructor (discriminator0: nat)
      ensures State() == Regs(0, 0, 0, 0, 0, 0, 0, 0, 0, 0, discriminator0)
    {
      address, file, line, column := 0, 0, 0, 0;
      isStmt, basicBlock, endSequence, prologueEnd, epilogueBegin := 0, 0, 0, 0, 0;
      isa, discriminator := 0, discriminator0;
    }

    method SetDefault(hdr: LineHeader)
      modifies this
      ensures State() == Reset(hdr, old(State()))
    {
      address := 0;
      file := 1;
      line := 1;
      column := 0;
      isStmt := hdr.defaultIsStmt;
      basicBlock := 0;
      endSequence := 0;
      prologueEnd := 0;
      epilogueBegin := 0;
      isa := 0;
    }

    /** add_sdb_addrline for the current registers, when the file register names a file. */
    method AddLine(hdr: LineHeader, store: AddrInfo)
      modifies store
      ensures store.lineOf == LinesAfter(old(store.lineOf), Rows(RowOf(hdr, State())))
      ensures store.addrOf == AddrsAfter(old(store.addrOf), Rows(RowOf(hdr, State())))
      ensures store.compDir == old(store.compDir)
    {
      var idx := ToInt32(file - 1);
      if 0 <= idx < |hdr.files| {
        store.AddRow(Row(address, hdr.files[idx].name, SignedLine(line)));
      }
    }

    method SpecialOpcode(hdr: LineHeader, opcode: byte, store: AddrInfo) returns (ok: bool)
      requires hdr.opcodeBase <= opcode
      modifies this, store
      ensures ok == Special(hdr, old(State()), opcode).Some?
      ensures !ok ==> State() == old(State()) && store.lineOf == old(store.lineOf) && store.addrOf == old(store.addrOf)
      ensures ok ==> State() == Special(hdr, old(State()), opcode).value.0
      ensures ok ==> store.lineOf == LinesAfter(old(store.lineOf), Rows(Special(hdr, old(State()), opcode).value.1))
      ensures ok ==> store.addrOf == AddrsAfter(old(store.addrOf), Rows(Special(hdr, old(State()), opcode).value.1))
      ensures store.compDir == old(store.compDir)
    {
      if hdr.lineRange == 0 {
        return false;
      }
      var adj := opcode - hdr.opcodeBase;
      ghost var moved := State().(address := (address + adj / hdr.lineRange) % Word,
                                  line := (line + hdr.lineBase + adj % hdr.lineRange) % Word);
      address := (address + adj / hdr.lineRange) % Word;
      line := (line + hdr.lineBase + adj % hdr.lineRange) % Word;
      assert State() == moved;
      AddLine(hdr, store);
      basicBlock := 0;
      prologueEnd := 0;
      epilogueBegin := 0;
      discriminator := 0;
      assert Special(hdr, old(State()), opcode).value == (State(), RowOf(hdr, moved));
      return true;
    }

    method StandardOpcode(data: seq<byte>, pos: nat, end: nat, hdr: LineHeader, opcode: byte, store: AddrInfo) returns (next: nat)
      requires end <= |data|
      modifies this, store
      ensures State() == Standard(data, pos, end, hdr, old(State()), opcode).regs
      ensures next == Standard(data, pos, end, hdr, old(State()), opcode).next
      ensures store.lineOf == LinesAfter(old(store.lineOf), Rows(Standard(data, pos, end, hdr, old(State()), opcode).row))
      ensures store.addrOf == AddrsAfter(old(store.addrOf), Rows(Standard(data, pos, end, hdr, old(State()), opcode).row))
      ensures store.compDir == old(store.compDir)
    {
      next := pos;
      if opcode == C.LNS_copy {
        AddLine(hdr, store);
        basicBlock := 0;
      } else if opcode == C.LNS_advance_pc {
        var v;
        v, next := ULeb(data, pos, end).0, ULeb(data, pos, end).1;
        address := (address + v * hdr.minInstLen) % Word;
      } else if opcode == C.LNS_advance_line {
        var v;
        v, next := SLeb(data, pos, end).0, SLeb(data, pos, end).1;
        line := (line + v) % Word;
      } else if opcode == C.LNS_set_file {
        file, next := ULeb(data, pos, end).0, ULeb(data, pos, end).1;
      } else if opcode == C.LNS_set_column {
        column, next := ULeb(data, pos, end).0, ULeb(data, pos, end).1;
      } else if opcode == C.LNS_negate_stmt {
        isStmt := if isStmt != 0 then 0 else 1;
      } else if opcode == C.LNS_set_basic_block {
        basicBlock := 1;
      } else if opcode == C.LNS_const_add_pc {
        var advance := 0;
        if hdr.lineRange > 0 {
          advance := ((255 - hdr.opcodeBase) % 256) / hdr.lineRange;
        }
        address := (address + advance) % Word;
      } else if opcode == C.LNS_fixed_advance_pc {
        var v;
        v, next := ReadFixed(data, pos, end, 2).0, pos + 2;
        address := (address + v) % Word;
      } else if opcode == C.LNS_set_prologue_end {
        prologueEnd := 255;
      } else if opcode == C.LNS_set_epilogue_begin {
        epilogueBegin := 255;
      } else if opcode == C.LNS_set_isa {
        isa, next := ULeb(data, pos, end).0, ULeb(data, pos, end).1;
      }
    }

    method ExtendedOpcode(data: seq<byte>, pos: nat, end: nat, bits: nat, hdr: LineHeader, store: AddrInfo) returns (next: Option<nat>)
      requires end <= |data|
      modifies this, store
      ensures next.None? <==> Extended(data, pos, end, bits, hdr, old(State())).None?
      ensures next.None? ==> State() == old(State()) && store.lineOf == old(store.lineOf) && store.addrOf == old(store.addrOf)
      ensures next.Some? ==> next.value == Extended(data, pos, end, bits, hdr, old(State())).value.next
      ensures next.Some? ==> State() == Extended(data, pos, end, bits, hdr, old(State())).value.regs
      ensures next.Some? ==> store.lineOf == LinesAfter(old(store.lineOf), Rows(Extended(data, pos, end, bits, hdr, old(State())).value.row))
      ensures next.Some? ==> store.addrOf == AddrsAfter(old(store.addrOf), Rows(Extended(data, pos, end, bits, hdr, old(State())).value.row))
      ensures store.compDir == old(store.compDir)
    {
      var p := SLeb(data, pos, end).1;
      if p >= end {
        return None;
      }
      var opcode := data[p];
      var q := p + 1;
      if opcode == C.LNE_end_sequence {
        endSequence := 1;
        AddLine(hdr, store);
      } else if opcode == C.LNE_set_address {
        address, q := ReadFixed(data, q, end, AddressWidth(bits)).0, q + AddressWidth(bits);
      } else if opcode == C.LNE_define_file {
        q := q + CStrLen(data, q) + 1;
        if q + 1 < end {
          q := ULeb(data, q, end).1;
        }
        if q + 1 < end {
          q := ULeb(data, q, end).1;
        }
        if q + 1 < end {
          q := ULeb(data, q, end).1;
        }
      } else if opcode == C.LNE_set_discriminator {
        discriminator, q := ULeb(data, q, end).0, ULeb(data, q, end).1;
      }
      return Some(q);
    }
  }

  /**
   * parse_opcodes: the opcodes of one sequence in the window of `len` bytes
   * at `pos`. Returns the bytes moved over, or None for the value derived
   * from a NULL cursor.
   */
  method ParseOpcodes(data: seq<byte>, pos: nat, len: nat, bits: nat, hdr: LineHeader, regs: Registers, store: AddrInfo)
    returns (consumed: Option<nat>)
    requires len < 8 || pos + len <= |data|
    modifies regs, store
    ensures consumed == Consumed(pos, Opcodes(data, pos, len, bits, hdr, old(regs.State())))
    ensures regs.State() == Opcodes(data, pos, len, bits, hdr, old(regs.State())).regs
    ensures store.lineOf == LinesAfter(old(store.lineOf), Opcodes(data, pos, len, bits, hdr, old(regs.State())).rows)
    ensures store.addrOf == AddrsAfter(old(store.addrOf), Opcodes(data, pos, len, bits, hdr, old(regs.State())).rows)
    ensures store.compDir == old(store.compDir)
  {
    if len < 8 {
      assert Opcodes(data, pos, len, bits, hdr, regs.State()) == Run(regs.State(), [], Exhausted(pos));
      assert LinesAfter(store.lineOf, []) == store.lineOf && AddrsAfter(store.addrOf, []) == store.addrOf;
      return Some(0);
    }
    ghost var run := Opcodes(data, pos, len, bits, hdr, regs.State());
    assert run == RunFrom(data, pos, pos + len, bits, hdr, regs.State());
    var stop := RunOpcodes(data, pos, pos + len, bits, hdr, regs, store);
    assert stop == run.end && regs.State() == run.regs;
    consumed := match stop
      case NullCursor => None
      case Exhausted(at) => Some(at - pos)
      case SequenceEnd(at) => Some(at - pos);
  }

  /** The loop of parse_opcodes over the window `[pos, wend)`: how it stopped. */
  method RunOpcodes(data: seq<byte>, pos: nat, wend: nat, bits: nat, hdr: LineHeader, regs: Registers, store: AddrInfo)
    returns (stop: RunEnd)
    requires wend <= |data|
    modifies regs, store
    ensures stop == RunFrom(data, pos, wend, bits, hdr, old(regs.State())).end
    ensures regs.State() == RunFrom(data, pos, wend, bits, hdr, old(regs.State())).regs
    ensures store.lineOf == LinesAfter(old(store.lineOf), RunFrom(data, pos, wend, bits, hdr, old(regs.State())).rows)
    ensures store.addrOf == AddrsAfter(old(store.addrOf), RunFrom(data, pos, wend, bits, hdr, old(regs.State())).rows)
    ensures store.compDir == old(store.compDir)
  {
    var cur := pos;
    ghost var seen: seq<Row> := [];
    stop := Exhausted(pos);
    var running := true;
    ghost var s0 := regs.State();
    ThenAssoc([], [], RunFrom(data, pos, wend, bits, hdr, s0));
    while running && cur + 1 < wend
      invariant pos <= cur
      invariant running ==> RunFrom(data, pos, wend, bits, hdr, s0) == Then(seen, RunFrom(data, cur, wend, bits, hdr, regs.State()))
      invariant !running ==> RunFrom(data, pos, wend, bits, hdr, s0) == Run(regs.State(), seen, stop)
      invariant store.lineOf == LinesAfter(old(store.lineOf), seen)
      invariant store.addrOf == AddrsAfter(old(store.addrOf), seen)
      invariant store.compDir == old(store.compDir)
      decreases running, wend - cur
    {
      ghost var step := StepAt(data, cur, wend, bits, hdr, regs.State());
      assert RunFrom(data, cur, wend, bits, hdr, regs.State()) == RunAfter(data, cur, wend, bits, hdr, regs.State());
      AddRows(old(store.lineOf), old(store.addrOf), seen, step.row);
      var next, halt := ExecuteOpcode(data, cur, wend, bits, hdr, regs, store);
      if halt.Some? {
        stop := halt.value;
        running := false;
      } else {
        cur := next;
        ThenAssoc(seen, Rows(step.row), RunFrom(data, cur, wend, bits, hdr, regs.State()));
      }
      seen := seen + Rows(step.row);
    }
    if running {
      stop := Exhausted(cur);
      assert seen + [] == seen;
    }
    assert RunFrom(data, pos, wend, bits, hdr, s0) == Run(regs.State(), seen, stop);
  }

  /** One pass of the parse_opcodes loop: the opcode byte, then the decoder it selects. */
  method ExecuteOpcode(data: seq<byte>, cur: nat, wend: nat, bits: nat, hdr: LineHeader, regs: Registers, store: AddrInfo)
    returns (next: nat, halt: Option<RunEnd>)
    requires wend <= |data| && cur + 1 < wend
    modifies regs, store
    ensures regs.State() == StepAt(data, cur, wend, bits, hdr, old(regs.State())).regs
    ensures halt.None? <==> StepAt(data, cur, wend, bits, hdr, old(regs.State())).Go?
    ensures halt.None? ==> next == StepAt(data, cur, wend, bits, hdr, old(regs.State())).next
    ensures halt.Some? ==> halt.value == StepAt(data, cur, wend, bits, hdr, old(regs.State())).end
    ensures store.lineOf == LinesAfter(old(store.lineOf), Rows(StepAt(data, cur, wend, bits, hdr, old(regs.State())).row))
    ensures store.addrOf == AddrsAfter(old(store.addrOf), Rows(StepAt(data, cur, wend, bits, hdr, old(regs.State())).row))
    ensures store.compDir == old(store.compDir)
  {
    halt := None;
    next := cur + 1;
    var opcode := data[cur];
    if opcode == 0 {
      var ext := data[cur + 1];
      var after := regs.ExtendedOpcode(data, cur + 1, wend, bits, hdr, store);
      if after.None? {
        regs.SetDefault(hdr);
        halt := Some(NullCursor);
      } else if ext == C.LNE_end_sequence {
        regs.SetDefault(hdr);
        halt := Some(SequenceEnd(after.value));
      } else {
        next := after.value;
      }
    } else if opcode >= hdr.opcodeBase {
      var ok := regs.SpecialOpcode(hdr, opcode, store);
      if !ok {
        halt := Some(NullCursor);
      }
    } else {
      next := regs.StandardOpcode(data, cur + 1, wend, hdr, opcode, store);
    }
  }

  lemma AddRows(lineOf: map<nat, LineKey>, addrOf: map<LineKey, nat>, rows: seq<Row>, row: Option<Row>)
    ensures LinesAfter(lineOf, rows + Rows(row)) == LinesAfter(LinesAfter(lineOf, rows), Rows(row))
    ensures AddrsAfter(addrOf, rows + Rows(row)) == AddrsAfter(AddrsAfter(addrOf, rows), Rows(row))
  {
    if row.Some? {
      AfterSnoc(lineOf, addrOf, rows, row.value);
    } else {
      assert rows + [] == rows;
    }
  }

  lemma ThenAssoc(a: seq<Row>, b: seq<Row>, r: Run)
    ensures Then(a, Then(b, r)) == Then(a + b, r)
    ensures Then([], r) == r
  {
    assert a + (b + r.rows) == (a + b) + r.rows;
    assert [] + r.rows == r.rows;
  }

  function ThenPass(rows: seq<Row>, p: Pass): Pass
  {
    Pass(rows + p.rows, p.regs, p.end)
  }

  lemma PassAssoc(a: seq<Row>, b: seq<Row>, p: Pass)
    ensures ThenPass(a, ThenPass(b, p)) == ThenPass(a + b, p)
    ensures ThenPass([], p) == p
  {
    assert a + (b + p.rows) == (a + b) + p.rows;
    assert [] + p.rows == p.rows;
  }

  lemma UnitsAssoc(a: seq<Row>, b: seq<Row>, r: LineRun)
    ensures ThenUnits(a, ThenUnits(b, r)) == ThenUnits(a + b, r)
    ensures ThenUnits([], r) == r
  {
    assert a + (b + r.rows) == (a + b) + r.rows;
    assert [] + r.rows == r.rows;
  }

  /**
   * parse_line_raw: the units of the .debug_line image, one header and its
   * sequences at a time, with the row store and the registers updated in place.
   */
  method ParseLineRaw(data: seq<byte>, bits: nat, regs: Registers, store: AddrInfo) returns (outcome: Outcome)
    modifies regs, store
    ensures outcome == UnitsFrom(data, 0, bits, old(store.compDir), old(regs.State())).outcome
    ensures regs.State() == UnitsFrom(data, 0, bits, old(store.compDir), old(regs.State())).regs
    ensures store.lineOf == LinesAfter(old(store.lineOf), UnitsFrom(data, 0, bits, old(store.compDir), old(regs.State())).rows)
    ensures store.addrOf == AddrsAfter(old(store.addrOf), UnitsFrom(data, 0, bits, old(store.compDir), old(regs.State())).rows)
    ensures store.compDir == old(store.compDir)
  {
    var pos: nat := 0;
    ghost var s0 := regs.State();
    ghost var compDir := store.compDir;
    ghost var seen: seq<Row> := [];
    outcome := Done;
    var running := true;
    UnitsAssoc([], [], UnitsFrom(data, 0, bits, compDir, s0));
    assert LinesAfter(store.lineOf, []) == store.lineOf && AddrsAfter(store.addrOf, []) == store.addrOf;
    while running && pos <= |data|
      invariant store.compDir == compDir
      invariant running ==> outcome == Done
      invariant running ==> UnitsFrom(data, 0, bits, compDir, s0) == ThenUnits(seen, UnitsFrom(data, pos, bits, compDir, regs.State()))
      invariant !running ==> UnitsFrom(data, 0, bits, compDir, s0) == LineRun(outcome, seen, regs.State())
      invariant store.lineOf == LinesAfter(old(store.lineOf), seen)
      invariant store.addrOf == AddrsAfter(old(store.addrOf), seen)
      decreases running, if pos <= |data| then |data| + 1 - pos else 0
    {
      ghost var step := UnitStepAt(data, pos, bits, compDir, regs.State());
      assert UnitsFrom(data, pos, bits, compDir, regs.State()) == UnitsAfter(data, pos, bits, compDir, regs.State());
      var next, halt := ParseUnit(data, pos, bits, regs, store);
      AfterConcat(old(store.lineOf), old(store.addrOf), seen, step.rows);
      if halt.Some? {
        outcome := halt.value;
        running := false;
      } else {
        pos := next;
        UnitsAssoc(seen, step.rows, UnitsFrom(data, pos, bits, compDir, regs.State()));
      }
      seen := seen + step.rows;
    }
    if running {
      assert seen + [] == seen;
    }
  }

  /** One pass of the unit loop of parse_line_raw: the header, then the unit it heads. */
  method ParseUnit(data: seq<byte>, pos: nat, bits: nat, regs: Registers, store: AddrInfo)
    returns (next: nat, halt: Option<Outcome>)
    requires pos <= |data|
    modifies regs, store
    ensures halt.None? <==> UnitStepAt(data, pos, bits, old(store.compDir), old(regs.State())).NextUnit?
    ensures halt.None? ==> next == UnitStepAt(data, pos, bits, old(store.compDir), old(regs.State())).at
    ensures halt.Some? ==> halt.value == UnitStepAt(data, pos, bits, old(store.compDir), old(regs.State())).outcome
    ensures regs.State() == UnitStepAt(data, pos, bits, old(store.compDir), old(regs.State())).regs
    ensures store.lineOf == LinesAfter(old(store.lineOf), UnitStepAt(data, pos, bits, old(store.compDir), old(regs.State())).rows)
    ensures store.addrOf == AddrsAfter(old(store.addrOf), UnitStepAt(data, pos, bits, old(store.compDir), old(regs.State())).rows)
    ensures store.compDir == old(store.compDir)
  {
    var h := ParseLineHeader(data, pos, |data|, store.compDir);
    if h.None? {
      next, halt := pos, Some(Failed);
      assert LinesAfter(store.lineOf, []) == store.lineOf && AddrsAfter(store.addrOf, []) == store.addrOf;
    } else {
      HeaderAdvances(data, pos, store.compDir);
      next, halt := ParseUnitBody(data, pos, h.value.0, h.value.1, bits, regs, store);
    }
  }

  /** The unit after its header: registers reset, the size checks, then its sequences. */
  method ParseUnitBody(data: seq<byte>, pos: nat, hdr: LineHeader, hdrEnd: nat, bits: nat, regs: Registers, store: AddrInfo)
    returns (next: nat, halt: Option<Outcome>)
    requires pos < hdrEnd && pos <= |data|
    modifies regs, store
    ensures halt.None? <==> UnitBody(data, pos, hdr, hdrEnd, bits, old(regs.State())).NextUnit?
    ensures halt.None? ==> next == UnitBody(data, pos, hdr, hdrEnd, bits, old(regs.State())).at
    ensures halt.Some? ==> halt.value == UnitBody(data, pos, hdr, hdrEnd, bits, old(regs.State())).outcome
    ensures regs.State() == UnitBody(data, pos, hdr, hdrEnd, bits, old(regs.State())).regs
    ensures store.lineOf == LinesAfter(old(store.lineOf), UnitBody(data, pos, hdr, hdrEnd, bits, old(regs.State())).rows)
    ensures store.addrOf == AddrsAfter(old(store.addrOf), UnitBody(data, pos, hdr, hdrEnd, bits, old(regs.State())).rows)
    ensures store.compDir == old(store.compDir)
  {
    next, halt := pos, None;
    ghost var u := UnitBody(data, pos, hdr, hdrEnd, bits, regs.State());
    assert LinesAfter(store.lineOf, []) == store.lineOf && AddrsAfter(store.addrOf, []) == store.addrOf;
    var bytesRead := hdrEnd - pos;
    regs.SetDefault(hdr);
    var size := |data| - pos;
    if size > hdr.unitLength {
      size := hdr.unitLength + (if hdr.is64 then 12 else 4);
    }
    assert size == UnitSize(|data| - pos, hdr);
    if size == bytesRead {
      next := hdrEnd;
      assert u == NextUnit([], regs.State(), hdrEnd);
    } else if size > |data| - pos || hdrEnd > |data| {
      halt := Some(Failed);
      assert u == LastUnit(Failed, [], regs.State());
    } else {
      ghost var pass := SequencesFrom(data, hdrEnd, bytesRead, size, bits, hdr, regs.State());
      assert u.rows == pass.rows && u.regs == pass.regs;
      assert pass.end.Halted? ==> u == LastUnit(pass.end.outcome, pass.rows, pass.regs);
      assert pass.end.Resume? ==> u == NextUnit(pass.rows, pass.regs, pass.end.at);
      var end := ParseSequences(data, hdrEnd, bytesRead, size, bits, hdr, regs, store);
      match end
      case Halted(o) => halt := Some(o);
      case Resume(at) => next := at;
    }
  }

  /** The do/while of parse_line_raw over the sequences of one unit. */
  method ParseSequences(data: seq<byte>, cur0: nat, read0: nat, size: nat, bits: nat, hdr: LineHeader, regs: Registers, store: AddrInfo)
    returns (end: PassEnd)
    modifies regs, store
    ensures end == SequencesFrom(data, cur0, read0, size, bits, hdr, old(regs.State())).end
    ensures regs.State() == SequencesFrom(data, cur0, read0, size, bits, hdr, old(regs.State())).regs
    ensures store.lineOf == LinesAfter(old(store.lineOf), SequencesFrom(data, cur0, read0, size, bits, hdr, old(regs.State())).rows)
    ensures store.addrOf == AddrsAfter(old(store.addrOf), SequencesFrom(data, cur0, read0, size, bits, hdr, old(regs.State())).rows)
    ensures store.compDir == old(store.compDir)
  {
    var cur, read := cur0, read0;
    ghost var s0 := regs.State();
    ghost var seen: seq<Row> := [];
    end := Resume(cur0);
    var running := true;
    PassAssoc([], [], SequencesFrom(data, cur0, read0, size, bits, hdr, s0));
    assert LinesAfter(store.lineOf, []) == store.lineOf && AddrsAfter(store.addrOf, []) == store.addrOf;
    while running
      invariant running ==> SequencesFrom(data, cur0, read0, size, bits, hdr, s0) == ThenPass(seen, SequencesFrom(data, cur, read, size, bits, hdr, regs.State()))
      invariant !running ==> SequencesFrom(data, cur0, read0, size, bits, hdr, s0) == Pass(seen, regs.State(), end)
      invariant store.lineOf == LinesAfter(old(store.lineOf), seen)
      invariant store.addrOf == AddrsAfter(old(store.addrOf), seen)
      invariant store.compDir == old(store.compDir)
      decreases running, if read <= size then size - read else 0
    {
      var len := WindowLen(data, cur, size);
      ghost var run := Opcodes(data, cur, len, bits, hdr, regs.State());
      var t := ParseOpcodes(data, cur, len, bits, hdr, regs, store);
      AfterConcat(old(store.lineOf), old(store.addrOf), seen, run.rows);
      if t.None? {
        end := Halted(Failed);
        running := false;
      } else if t.value == 0 {
        end := Halted(Stalled);
        running := false;
      } else {
        read, cur := read + t.value, cur + t.value;
        if read >= size {
          end := Resume(cur);
          running := false;
        } else {
          PassAssoc(seen, run.rows, SequencesFrom(data, cur, read, size, bits, hdr, regs.State()));
        }
      }
      seen := seen + run.rows;
    }
  }
}
