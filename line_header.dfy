/**
 * The header of a line-number program in .debug_line (section 6.2.4 of
 * DWARF 4), as parse_line_header and parse_line_header_source read it:
 * the initial length, the version, the fixed one-byte fields, the table of
 * standard opcode lengths, then, for versions up to 4, the include
 * directories and the file names. A version 5 header is skipped over by its
 * header_length; a version above 5 is rejected.
 *
 * Every read goes through the bounded READ of the decoder: a value when it
 * fits before the end of the section, 0 otherwise, and the cursor always
 * moves by the width.
 */
module LineHeader {
  import opened Wrappers
  import opened Bytes
  import opened Leb128
  import C = DwarfConstants

  /** A directory or file name may be at most this long (r_str_nlen limit). */
  const NameLimit: nat := 0xfff

  function Min(a: nat, b: nat): nat
  {
    if a < b then a else b
  }

  /** One entry of the file table as it sits in the section. */
  datatype RawEntry = RawEntry(name: seq<byte>, dirIndex: nat, modTime: nat, fileLength: nat)

  /** An entry of `hdr->file_names`: the name already joined with its directory. */
  datatype FileEntry = FileEntry(name: string, dirIndex: nat, modTime: nat, fileLength: nat)

  datatype LineHeader = LineHeader(
    unitLength: nat,
    is64: bool,
    version: nat,
    addressSize: nat,
    segmentSelectorSize: nat,
    headerLength: nat,
    minInstLen: nat,
    maxOps: nat,
    defaultIsStmt: byte,
    lineBase: int,
    lineRange: nat,
    opcodeBase: nat,
    opcodeLengths: seq<nat>,
    includeDirs: seq<seq<byte>>,
    files: seq<FileEntry>)

  /* ---------------- directory table ---------------- */

  /** The bound r_str_nlen gets at `pos`: the rest of the section but the last byte, at most 0xfff. */
  function NameBound(pos: nat, end: nat): nat
    requires pos + 1 < end
  {
    Min(end - pos - 1, NameLimit)
  }

  datatype DirStep = LastDir(next: nat) | Dir(name: seq<byte>, next: nat)

  /**
   * One pass of the include-directory loop at `pos`: a name of 1 .. 0xffe
   * bytes is a directory and the cursor moves past its NUL; anything else
   * ends the table one byte further on.
   */
  function DirAt(data: seq<byte>, pos: nat, end: nat): (r: DirStep)
    requires end <= |data| && pos + 1 < end
    ensures r.LastDir? ==> r.next == pos + 1
    ensures r.Dir? ==> pos < r.next <= end && 1 <= |r.name| < NameLimit
  {
    var n := NLen(data, pos, NameBound(pos, end));
    if n < 1 || n >= NameLimit then LastDir(pos + 1)
    else Dir(data[pos..pos + n], pos + n + 1)
  }

  /**
   * The include directories from `pos`: names until an empty one, one too
   * long, or until fewer than two bytes remain. The cursor ends after the
   * terminating byte.
   */
  function DirsFrom(data: seq<byte>, pos: nat, end: nat): (r: (seq<seq<byte>>, nat))
    requires end <= |data|
    ensures pos + 1 < end ==> pos < r.1 <= end
    ensures pos + 1 >= end ==> r == ([], pos)
    ensures forall i :: 0 <= i < |r.0| ==> 1 <= |r.0[i]| < NameLimit
    decreases end - pos
  {
    if pos + 1 >= end then ([], pos)
    else
      match DirAt(data, pos, end)
      case LastDir(q) => ([], q)
      case Dir(d, q) =>
        var (ds, q') := DirsFrom(data, q, end);
        ([d] + ds, q')
  }

  /* ---------------- file table ---------------- */

  datatype EntryStep = TableEnd(next: nat) | Truncated | Entry(entry: RawEntry, next: nat)

  /**
   * One pass of the file-table loop at `pos`: an empty name ends the table;
   * a name, three ULEB128 numbers, with the section end checked after each,
   * make an entry. The name is the whole NUL-terminated string, even where
   * it is longer than the bound the cursor moves by.
   */
  function EntryAt(data: seq<byte>, pos: nat, end: nat): (r: EntryStep)
    requires end <= |data| && pos + 1 < end
    ensures r.TableEnd? ==> r.next == pos + 1
    ensures r.Entry? ==> pos < r.next < end && r.entry.name != []
  {
    var n := NLen(data, pos, NameBound(pos, end));
    if n == 0 then TableEnd(pos + 1)
    else if pos + n + 1 >= end then Truncated
    else
      match NumbersAt(data, pos + n + 1, end)
      case None => Truncated
      case Some(e) => Entry(RawEntry(data[pos..pos + CStrLen(data, pos)], e.dirIndex, e.modTime, e.fileLength), e.next)
  }

  datatype Numbers = Numbers(dirIndex: nat, modTime: nat, fileLength: nat, next: nat)

  /** The three ULEB128 numbers of a file entry, each followed by a check for the section end. */
  function NumbersAt(data: seq<byte>, p: nat, end: nat): (r: Option<Numbers>)
    requires end <= |data| && p < end
    ensures r.Some? ==> p < r.value.next < end
  {
    var (d, p1) := ULeb(data, p, end);
    if p1 >= end then None
    else
      var (t, p2) := ULeb(data, p1, end);
      if p2 >= end then None
      else
        var (l, p3) := ULeb(data, p2, end);
        if p3 >= end then None
        else Some(Numbers(d, t, l, p3))
  }

  datatype Table = Table(entries: seq<RawEntry>, next: nat)

  /** The entries of the file table from `pos`; None when an entry runs into the section end. */
  function EntriesFrom(data: seq<byte>, pos: nat, end: nat): (r: Option<Table>)
    requires end <= |data|
    ensures r.Some? && pos + 1 < end ==> pos < r.value.next < end
    ensures r.Some? && pos + 1 >= end ==> r.value == Table([], pos)
    decreases end - pos
  {
    if pos + 1 >= end then Some(Table([], pos))
    else
      match EntryAt(data, pos, end)
      case TableEnd(q) => Some(Table([], q))
      case Truncated => None
      case Entry(e, q) =>
        match EntriesFrom(data, q, end)
        case None => None
        case Some(t) => Some(Table([e] + t.entries, t.next))
  }

  /** The entries found in front of a table. */
  function Prefix(es: seq<RawEntry>, t: Option<Table>): Option<Table>
  {
    match t
    case None => None
    case Some(t) => Some(Table(es + t.entries, t.next))
  }

  lemma PrefixEmpty(t: Option<Table>)
    ensures Prefix([], t) == t
  {
    if t.Some? {
      assert [] + t.value.entries == t.value.entries;
    }
  }

  lemma PrefixAssoc(a: seq<RawEntry>, b: seq<RawEntry>, t: Option<Table>)
    ensures Prefix(a, Prefix(b, t)) == Prefix(a + b, t)
  {
    if t.Some? {
      assert a + (b + t.value.entries) == (a + b) + t.value.entries;
    }
  }

  /**
   * The directory part of a file name: for a directory index k > 0 the
   * (k-1)-th include directory, placed under the compilation directory as
   * "comp_dir/dir/" when it is relative; for index 0 the compilation
   * directory, or "./" without one. An index past the directory table gives
   * no directory.
   */
  function DirPart(dirs: seq<seq<byte>>, compDir: Option<string>, dirIndex: nat): (r: string)
  {
    if dirIndex > 0 then
      if dirIndex - 1 < |dirs| then
        var dir := Chars(dirs[dirIndex - 1]);
        if (dir == [] || dir[0] != '/') && compDir.Some? then compDir.value + "/" + dir + "/"
        else dir
      else ""
    else if compDir.Some? then compDir.value
    else "./"
  }

  /** The name stored for a file entry: directory part, '/', file name. */
  function FileName(dirs: seq<seq<byte>>, compDir: Option<string>, e: RawEntry): (r: string)
  {
    DirPart(dirs, compDir, e.dirIndex) + "/" + Chars(e.name)
  }

  /** A stored file entry: the raw entry with its full name. */
  function Resolve(dirs: seq<seq<byte>>, compDir: Option<string>, e: RawEntry): FileEntry
  {
    FileEntry(FileName(dirs, compDir, e), e.dirIndex, e.modTime, e.fileLength)
  }

  function Named(dirs: seq<seq<byte>>, compDir: Option<string>, es: seq<RawEntry>): (r: seq<FileEntry>)
    ensures |r| == |es|
    ensures forall i :: 0 <= i < |es| ==> r[i] == Resolve(dirs, compDir, es[i])
  {
    seq(|es|, i requires 0 <= i < |es| => Resolve(dirs, compDir, es[i]))
  }

  datatype Source = Source(dirs: seq<seq<byte>>, files: seq<FileEntry>, next: nat)

  /** parse_line_header_source: the directory table, then the file table. */
  function SourceAt(data: seq<byte>, pos: nat, end: nat, compDir: Option<string>): (r: Option<Source>)
    requires end <= |data|
  {
    var (dirs, p) := DirsFrom(data, pos, end);
    match EntriesFrom(data, p, end)
    case None => None
    case Some(t) => Some(Source(dirs, Named(dirs, compDir, t.entries), t.next))
  }

  /** For a table that starts inside the section, the cursor after both tables stays inside it. */
  lemma SourceEndsInside(data: seq<byte>, pos: nat, end: nat, compDir: Option<string>)
    requires end <= |data| && pos <= end
    ensures SourceAt(data, pos, end, compDir).Some? ==> SourceAt(data, pos, end, compDir).value.next <= end
  {
  }

  /* ---------------- standard opcode lengths ---------------- */

  /** `n` zeroed slots, as calloc leaves them. */
  function Zeros(n: nat): (r: seq<nat>)
    ensures |r| == n && forall k :: 0 <= k < n ==> r[k] == 0
  {
    if n == 0 then [] else [0] + Zeros(n - 1)
  }

  /**
   * The lengths of standard opcodes i .. base-1, one byte each; reading stops
   * when fewer than two bytes remain, and the slots not read keep 0.
   */
  function LengthsFrom(data: seq<byte>, pos: nat, end: nat, i: nat, base: nat): (r: (seq<nat>, nat))
    requires end <= |data| && i <= base
    ensures |r.0| == base - i
    ensures pos <= r.1 && (pos <= end ==> r.1 <= end)
    decreases base - i
  {
    if i == base then ([], pos)
    else if pos + 2 > end then (Zeros(base - i), pos)
    else
      // two bytes left: the one-byte read is inside the section
      var (rest, n) := LengthsFrom(data, pos + 1, end, i + 1, base);
      ([data[pos]] + rest, n)
  }

  /** Slot j of the lengths read from `pos` is the byte at pos + j when two bytes remain there, else 0. */
  lemma {:induction false} LengthsValues(data: seq<byte>, pos: nat, end: nat, i: nat, base: nat)
    requires end <= |data| && i <= base
    ensures forall j :: 0 <= j < base - i && pos + j + 2 <= end ==> LengthsFrom(data, pos, end, i, base).0[j] == data[pos + j]
    ensures forall j :: 0 <= j < base - i && pos + j + 2 > end ==> LengthsFrom(data, pos, end, i, base).0[j] == 0
    decreases base - i
  {
    if i < base && pos + 2 <= end {
      LengthsStep(data, pos, end, i, base);
      LengthsValues(data, pos + 1, end, i + 1, base);
    }
  }

  /** One slot is read per byte while two bytes remain, so the cursor ends after the slots read. */
  lemma {:induction false} LengthsCursor(data: seq<byte>, pos: nat, end: nat, i: nat, base: nat)
    requires end <= |data| && i <= base
    ensures LengthsFrom(data, pos, end, i, base).1 == pos + Min(base - i, if pos + 1 <= end then end - pos - 1 else 0)
    decreases base - i
  {
    if i < base && pos + 2 <= end {
      LengthsCursor(data, pos + 1, end, i + 1, base);
    }
  }

  /**
   * `std_opcode_lengths`: a table of `base` slots whose slot 0 is unused;
   * slot k holds the k-th byte after the fixed fields when two bytes remain
   * at that point. An opcode base of 0 gives no table.
   */
  function OpcodeLengths(data: seq<byte>, pos: nat, end: nat, base: nat): (r: (seq<nat>, nat))
    requires end <= |data|
    ensures |r.0| == base
  {
    if base == 0 then ([], pos)
    else
      var (ls, q) := LengthsFrom(data, pos, end, 1, base);
      ([0] + ls, q)
  }

  lemma OpcodeLengthsTable(data: seq<byte>, pos: nat, end: nat, base: nat)
    requires end <= |data|
    ensures |OpcodeLengths(data, pos, end, base).0| == base
    ensures base > 0 ==> OpcodeLengths(data, pos, end, base).0[0] == 0
    ensures forall k :: 1 <= k < base && pos + k + 1 <= end ==>
      OpcodeLengths(data, pos, end, base).0[k] == data[pos + k - 1]
    ensures forall k :: 1 <= k < base && pos + k + 1 > end ==>
      OpcodeLengths(data, pos, end, base).0[k] == 0
    ensures base > 0 ==> OpcodeLengths(data, pos, end, base).1 == pos + Min(base - 1, if pos + 1 <= end then end - pos - 1 else 0)
  {
    if base > 0 {
      var (ls, q) := LengthsFrom(data, pos, end, 1, base);
      LengthsValues(data, pos, end, 1, base);
      LengthsCursor(data, pos, end, 1, base);
      forall k | 1 <= k < base
        ensures OpcodeLengths(data, pos, end, base).0[k] == ls[k - 1]
      {
      }
    }
  }

  /* ---------------- the header ---------------- */

  /** The fields read before the fixed one-byte fields. */
  datatype Lead = Lead(unitLength: nat, is64: bool, version: nat, addressSize: nat,
                       segmentSelectorSize: nat, headerLength: nat, next: nat)

  function LeadAt(data: seq<byte>, pos: nat, end: nat): (r: Lead)
    requires end <= |data|
    ensures pos + 10 <= r.next
  {
    var (len32, p1) := ReadFixed(data, pos, end, 4);
    var is64 := len32 == C.INIT_LEN_64;
    var (unitLength, p2) := if is64 then ReadFixed(data, p1, end, 8) else (len32, p1);
    var (version, p3) := ReadFixed(data, p2, end, 2);
    var (addressSize, p4) := if version == 5 then ReadFixed(data, p3, end, 1) else (0, p3);
    var (segSize, p5) := if version == 5 then ReadFixed(data, p4, end, 1) else (0, p4);
    var (headerLength, p6) := ReadPiece(is64, data, p5, end);
    Lead(unitLength, is64, version, addressSize, segSize, headerLength, p6)
  }

  /** The one-byte fields from minimum_instruction_length to opcode_base. */
  datatype Fields = Fields(minInstLen: nat, maxOps: nat, defaultIsStmt: byte, lineBase: int,
                           lineRange: nat, opcodeBase: nat, next: nat)

  /** maximum_operations_per_instruction is present from version 4 on. */
  function FieldsAt(data: seq<byte>, p: nat, end: nat, version: nat): (r: Fields)
    requires end <= |data|
    ensures r.next == p + (if version >= 4 then 6 else 5)
    ensures version < 4 ==> r.maxOps == 0
    ensures -128 <= r.lineBase < 128
  {
    var q := if version >= 4 then p + 2 else p + 1;
    Fields(ReadFixed(data, p, end, 1).0,
           if version >= 4 then ReadFixed(data, p + 1, end, 1).0 else 0,
           ReadFixed(data, q, end, 1).0,
           ToInt8(ReadFixed(data, q + 1, end, 1).0),
           ReadFixed(data, q + 2, end, 1).0,
           ReadFixed(data, q + 3, end, 1).0,
           q + 4)
  }

  function HeaderOf(lead: Lead, f: Fields, lengths: seq<nat>): LineHeader
  {
    LineHeader(lead.unitLength, lead.is64, lead.version, lead.addressSize,
      lead.segmentSelectorSize, lead.headerLength, f.minInstLen, f.maxOps, f.defaultIsStmt, f.lineBase,
      f.lineRange, f.opcodeBase, lengths, [], [])
  }

  /**
   * parse_line_header at `pos`: the header and the cursor after it, or None
   * when fewer than 8 bytes follow header_length, when a file entry runs
   * into the section end, or when the version is above 5.
   */
  function LineHeaderAt(data: seq<byte>, pos: nat, end: nat, compDir: Option<string>): (r: Option<(LineHeader, nat)>)
    requires end <= |data|
    ensures r.Some? ==> r.value.0.version <= 5
    ensures r.Some? ==> |r.value.0.opcodeLengths| == r.value.0.opcodeBase
    ensures r.Some? && r.value.0.version == 5 ==>
      r.value.0.files == [] && r.value.1 == LeadAt(data, pos, end).next + r.value.0.headerLength
    ensures r.Some? && r.value.0.version < 4 ==> r.value.0.maxOps == 0
    ensures r.Some? && r.value.0.version < 5 ==> r.value.1 <= end
    ensures pos + 18 > end ==> r.None?
  {
    var lead := LeadAt(data, pos, end);
    var p := lead.next;
    if p + 8 > end then None
    else
      var f := FieldsAt(data, p, end, lead.version);
      var (lengths, q) := OpcodeLengths(data, f.next, end, f.opcodeBase);
      var hdr := HeaderOf(lead, f, lengths);
      if lead.version == 5 then Some((hdr, p + lead.headerLength))
      else if lead.version > 5 then None
      else
        match SourceAt(data, q, end, compDir)
        case None => None
        case Some(s) =>
          SourceEndsInside(data, q, end, compDir);
          Some((hdr.(includeDirs := s.dirs, files := s.files), s.next))
  }

  /* ---------------- the decoder ---------------- */

  /** The body of the file-table loop: one entry, the end of the table, or a truncated entry. */
  method ReadEntry(data: seq<byte>, pos: nat, end: nat) returns (step: EntryStep)
    requires end <= |data| && pos + 1 < end
    ensures step == EntryAt(data, pos, end)
  {
    var n := NLen(data, pos, NameBound(pos, end));
    if n == 0 {
      return TableEnd(pos + 1);
    }
    var cur: nat := pos + n + 1;
    if cur >= end {
      return Truncated;
    }
    var numbers := ReadNumbers(data, cur, end);
    if numbers.None? {
      return Truncated;
    }
    var e := numbers.value;
    return Entry(RawEntry(data[pos..pos + CStrLen(data, pos)], e.dirIndex, e.modTime, e.fileLength), e.next);
  }

  method ReadNumbers(data: seq<byte>, pos: nat, end: nat) returns (r: Option<Numbers>)
    requires end <= |data| && pos < end
    ensures r == NumbersAt(data, pos, end)
  {
    var (dirIndex, c1) := ULeb(data, pos, end);
    if c1 >= end {
      return None;
    }
    var (modTime, c2) := ULeb(data, c1, end);
    if c2 >= end {
      return None;
    }
    var (fileLength, c3) := ULeb(data, c2, end);
    if c3 >= end {
      return None;
    }
    return Some(Numbers(dirIndex, modTime, fileLength, c3));
  }

  /**
   * parse_line_header_source: the include directories go into a growing
   * list; the file table is walked twice, once to count the entries and
   * once to fill an array of that many file entries.
   */
  method ReadSource(data: seq<byte>, pos: nat, end: nat, compDir: Option<string>) returns (r: Option<Source>)
    requires end <= |data|
    ensures r == SourceAt(data, pos, end, compDir)
  {
    var dirs, start := ReadDirs(data, pos, end);
    var count := CountEntries(data, start, end);
    if count.None? {
      return None;
    }
    var files, next := FillEntries(data, start, end, dirs, compDir, count.value);
    return Some(Source(dirs, files, next));
  }

  /** The include-directory loop: names up to the first empty or over-long one. */
  method ReadDirs(data: seq<byte>, pos: nat, end: nat) returns (dirs: seq<seq<byte>>, next: nat)
    requires end <= |data|
    ensures (dirs, next) == DirsFrom(data, pos, end)
  {
    dirs := [];
    var cur: nat := pos;
    DirsPrefixAssoc([], [], DirsFrom(data, pos, end));
    while cur + 1 < end
      invariant DirsFrom(data, pos, end) == DirsPrefix(dirs, DirsFrom(data, cur, end))
      decreases end - cur
    {
      var step := ReadDir(data, cur, end);
      if step.LastDir? {
        DirsPrefixAssoc(dirs, [], ([], step.next));
        return dirs, step.next;
      }
      DirsPrefixAssoc(dirs, [step.name], DirsFrom(data, step.next, end));
      dirs := dirs + [step.name];
      cur := step.next;
    }
    DirsPrefixAssoc(dirs, [], ([], cur));
    return dirs, cur;
  }

  /** The body of the include-directory loop. */
  method ReadDir(data: seq<byte>, pos: nat, end: nat) returns (step: DirStep)
    requires end <= |data| && pos + 1 < end
    ensures step == DirAt(data, pos, end)
  {
    var n := NLen(data, pos, NameBound(pos, end));
    if n < 1 || n >= NameLimit {
      return LastDir(pos + 1);
    }
    return Dir(data[pos..pos + n], pos + n + 1);
  }

  /** Directories already read, in front of those read from the cursor on. */
  function DirsPrefix(ds: seq<seq<byte>>, t: (seq<seq<byte>>, nat)): (seq<seq<byte>>, nat)
  {
    (ds + t.0, t.1)
  }

  lemma DirsPrefixAssoc(a: seq<seq<byte>>, b: seq<seq<byte>>, t: (seq<seq<byte>>, nat))
    ensures DirsPrefix(a, DirsPrefix(b, t)) == DirsPrefix(a + b, t)
    ensures DirsPrefix(a, ([], t.1)) == (a, t.1) && DirsPrefix([], t) == t
  {
    assert a + (b + t.0) == (a + b) + t.0;
    assert a + [] == a;
    assert [] + t.0 == t.0;
  }

  /** The number of entries in a file table, or None when an entry is truncated. */
  function EntryCount(t: Option<Table>): Option<nat>
  {
    match t
    case None => None
    case Some(t) => Some(|t.entries|)
  }

  /** The first pass over the file table: count the entries. */
  method CountEntries(data: seq<byte>, pos: nat, end: nat) returns (count: Option<nat>)
    requires end <= |data|
    ensures count == EntryCount(EntriesFrom(data, pos, end))
  {
    var cur: nat := pos;
    var n := 0;
    ghost var seen: seq<RawEntry> := [];
    PrefixEmpty(EntriesFrom(data, pos, end));
    while cur + 1 < end
      invariant EntriesFrom(data, pos, end) == Prefix(seen, EntriesFrom(data, cur, end))
      invariant n == |seen|
      decreases end - cur
    {
      var step := ReadEntry(data, cur, end);
      if step.TableEnd? {
        assert EntriesFrom(data, cur, end) == Some(Table([], step.next));
        assert seen + [] == seen;
        return Some(n);
      }
      if step.Truncated? {
        return None;
      }
      PrefixAssoc(seen, [step.entry], EntriesFrom(data, step.next, end));
      seen := seen + [step.entry];
      n := n + 1;
      cur := step.next;
    }
    assert seen + [] == seen;
    return Some(n);
  }

  /** The second pass over the file table: the same entries, now stored with their full names. */
  method FillEntries(data: seq<byte>, pos: nat, end: nat, dirs: seq<seq<byte>>, compDir: Option<string>, count: nat)
    returns (files: seq<FileEntry>, next: nat)
    requires end <= |data|
    requires EntryCount(EntriesFrom(data, pos, end)) == Some(count)
    ensures files == Named(dirs, compDir, EntriesFrom(data, pos, end).value.entries)
    ensures next == EntriesFrom(data, pos, end).value.next
  {
    var table := new FileEntry[count](_ => FileEntry([], 0, 0, 0));
    var cur: nat := pos;
    var k := 0;
    ghost var seen: seq<RawEntry> := [];
    PrefixEmpty(EntriesFrom(data, pos, end));
    while cur + 1 < end
      invariant EntriesFrom(data, pos, end) == Prefix(seen, EntriesFrom(data, cur, end))
      invariant k == |seen| <= count
      invariant table[..k] == Named(dirs, compDir, seen)
      decreases end - cur
    {
      var step := ReadEntry(data, cur, end);
      if step.TableEnd? {
        assert EntriesFrom(data, cur, end) == Some(Table([], step.next));
        cur := step.next;
        break;
      }
      if step.Truncated? {
        assert false;
      }
      PrefixAssoc(seen, [step.entry], EntriesFrom(data, step.next, end));
      assert |seen + [step.entry]| <= count;
      table[k] := Resolve(dirs, compDir, step.entry);
      assert table[..k + 1] == table[..k] + [Resolve(dirs, compDir, step.entry)];
      seen := seen + [step.entry];
      k := k + 1;
      cur := step.next;
    }
    assert seen + [] == seen;
    return table[..], cur;
  }

  /**
   * The opcode-length table of parse_line_header: `base` zeroed slots, of
   * which slots 1 .. base-1 are read while two bytes remain.
   */
  method ReadOpcodeLengths(data: seq<byte>, pos: nat, end: nat, base: nat) returns (lengths: seq<nat>, next: nat)
    requires end <= |data|
    ensures (lengths, next) == OpcodeLengths(data, pos, end, base)
  {
    if base == 0 {
      return [], pos;
    }
    var table := new nat[base](_ => 0);
    var cur: nat := pos;
    var i := 1;
    while i < base && cur + 2 <= end
      invariant 1 <= i <= base && cur == pos + i - 1
      invariant i > 1 ==> pos + i <= end
      invariant table[0] == 0
      invariant forall k :: 1 <= k < i ==> table[k] == data[pos + k - 1]
      invariant table[i..] == Zeros(base - i)
      decreases base - i
    {
      table[i] := data[cur];
      cur := cur + 1;
      i := i + 1;
    }
    OpcodeLengthsTable(data, pos, end, base);
    assert forall k :: i <= k < base ==> table[k] == table[i..][k - i];
    assert table[..] == OpcodeLengths(data, pos, end, base).0;
    return table[..], cur;
  }

  /** One slot read: its value is the byte at the cursor. */
  lemma LengthsStep(data: seq<byte>, pos: nat, end: nat, i: nat, base: nat)
    requires end <= |data| && i < base && pos + 2 <= end
    ensures LengthsFrom(data, pos, end, i, base) ==
      ([data[pos]] + LengthsFrom(data, pos + 1, end, i + 1, base).0, LengthsFrom(data, pos + 1, end, i + 1, base).1)
  {
  }

  /** The fields before minimum_instruction_length, read one after the other. */
  method ReadLead(data: seq<byte>, pos: nat, end: nat) returns (lead: Lead)
    requires end <= |data|
    ensures lead == LeadAt(data, pos, end)
  {
    var (unitLength, cur) := ReadFixed(data, pos, end, 4);
    var is64 := false;
    if unitLength == C.INIT_LEN_64 {
      unitLength, cur := ReadFixed(data, cur, end, 8).0, cur + 8;
      is64 := true;
    }
    var version := ReadFixed(data, cur, end, 2).0;
    cur := cur + 2;
    var addressSize, segSize := 0, 0;
    if version == 5 {
      addressSize := ReadFixed(data, cur, end, 1).0;
      segSize := ReadFixed(data, cur + 1, end, 1).0;
      cur := cur + 2;
    }
    var headerLength := ReadPiece(is64, data, cur, end).0;
    cur := cur + (if is64 then 8 else 4);
    return Lead(unitLength, is64, version, addressSize, segSize, headerLength, cur);
  }

  /** parse_line_header, reading field after field with the bounded reads. */
  method ParseLineHeader(data: seq<byte>, pos: nat, end: nat, compDir: Option<string>) returns (r: Option<(LineHeader, nat)>)
    requires end <= |data|
    ensures r == LineHeaderAt(data, pos, end, compDir)
  {
    var lead := ReadLead(data, pos, end);
    if lead.next + 8 > end {
      return None;
    }
    var f := ReadFields(data, lead.next, end, lead.version);
    var lengths, next := ReadOpcodeLengths(data, f.next, end, f.opcodeBase);
    var hdr := HeaderOf(lead, f, lengths);
    if lead.version == 5 {
      return Some((hdr, lead.next + lead.headerLength));
    }
    if lead.version > 5 {
      return None;
    }
    var source := ReadSource(data, next, end, compDir);
    if source.None? {
      return None;
    }
    return Some((hdr.(includeDirs := source.value.dirs, files := source.value.files), source.value.next));
  }

  /** The one-byte fields, read one after the other. */
  method ReadFields(data: seq<byte>, p: nat, end: nat, version: nat) returns (f: Fields)
    requires end <= |data|
    ensures f == FieldsAt(data, p, end, version)
  {
    var minInst := ReadFixed(data, p, end, 1).0;
    var cur := p + 1;
    var maxOps := 0;
    if version >= 4 {
      maxOps := ReadFixed(data, cur, end, 1).0;
      cur := cur + 1;
    }
    var isStmt := ReadFixed(data, cur, end, 1).0;
    var lineBase := ReadFixed(data, cur + 1, end, 1).0;
    var lineRange := ReadFixed(data, cur + 2, end, 1).0;
    var base := ReadFixed(data, cur + 3, end, 1).0;
    return Fields(minInst, maxOps, isStmt, ToInt8(lineBase), lineRange, base, cur + 4);
  }

  /* ---------------- round trips ---------------- */

  /** A name the tables can carry: not empty, shorter than the limit, no NUL. */
  predicate GoodName(s: seq<byte>)
  {
    1 <= |s| < NameLimit && forall i :: 0 <= i < |s| ==> s[i] != 0
  }

  /** The directory table: each name and its NUL, then an empty name. */
  function EncodeDirs(ds: seq<seq<byte>>): (r: seq<byte>)
    ensures |r| >= 1
  {
    if ds == [] then [0] else ds[0] + [0] + EncodeDirs(ds[1..])
  }

  /** A good name followed by NUL is one directory, and the table goes on after the NUL. */
  lemma DirsStep(data: seq<byte>, pos: nat, end: nat, d: seq<byte>)
    requires end <= |data| && GoodName(d)
    requires At(data, pos, d + [0]) && pos + |d| + 1 < end
    ensures DirsFrom(data, pos, end) ==
      ([d] + DirsFrom(data, pos + |d| + 1, end).0, DirsFrom(data, pos + |d| + 1, end).1)
  {
    NLenOfName(data, pos, NameBound(pos, end), d);
  }

  /**
   * Reading the directory table back gives the directories and leaves the
   * cursor after the terminating NUL, provided a byte follows the table.
   */
  lemma {:induction false} DirsRoundTrip(data: seq<byte>, pos: nat, end: nat, ds: seq<seq<byte>>)
    requires end <= |data|
    requires forall i :: 0 <= i < |ds| ==> GoodName(ds[i])
    requires At(data, pos, EncodeDirs(ds)) && pos + |EncodeDirs(ds)| < end
    ensures DirsFrom(data, pos, end).0 == ds
    ensures DirsFrom(data, pos, end).1 == pos + |EncodeDirs(ds)|
    decreases |ds|
  {
    if ds == [] {
      assert data[pos + 0] == EncodeDirs(ds)[0];
    } else {
      var d, rest := ds[0], ds[1..];
      AtSplit(data, pos, d + [0], EncodeDirs(rest));
      DirsRoundTrip(data, pos + |d| + 1, end, rest);
      DirsCons(data, pos, end, d, rest);
    }
  }

  /** The step of DirsRoundTrip: one more directory in front of a table that reads back. */
  lemma DirsCons(data: seq<byte>, pos: nat, end: nat, d: seq<byte>, rest: seq<seq<byte>>)
    requires end <= |data| && GoodName(d)
    requires At(data, pos, d + [0]) && pos + |d| + 1 + |EncodeDirs(rest)| < end
    requires DirsFrom(data, pos + |d| + 1, end) == (rest, pos + |d| + 1 + |EncodeDirs(rest)|)
    ensures DirsFrom(data, pos, end).0 == [d] + rest
    ensures DirsFrom(data, pos, end).1 == pos + |EncodeDirs([d] + rest)|
  {
    DirsStep(data, pos, end, d);
    assert ([d] + rest)[1..] == rest;
  }

  /** One file entry: name, NUL, directory index, time, length. */
  function EncodeEntry(e: RawEntry): (r: seq<byte>)
  {
    e.name + [0] + EncodeU(e.dirIndex) + EncodeU(e.modTime) + EncodeU(e.fileLength)
  }

  /** The file table: the entries, then an empty name. */
  function EncodeEntries(es: seq<RawEntry>): (r: seq<byte>)
    ensures |r| >= 1
  {
    if es == [] then [0] else EncodeEntry(es[0]) + EncodeEntries(es[1..])
  }

  lemma NumbersRoundTrip(data: seq<byte>, p: nat, end: nat, e: RawEntry)
    requires end <= |data|
    requires At(data, p, EncodeU(e.dirIndex) + EncodeU(e.modTime) + EncodeU(e.fileLength))
    requires p + |EncodeU(e.dirIndex) + EncodeU(e.modTime) + EncodeU(e.fileLength)| < end
    ensures NumbersAt(data, p, end) ==
      Some(Numbers(e.dirIndex, e.modTime, e.fileLength, p + |EncodeU(e.dirIndex) + EncodeU(e.modTime) + EncodeU(e.fileLength)|))
  {
    var ud, ut, ul := EncodeU(e.dirIndex), EncodeU(e.modTime), EncodeU(e.fileLength);
    AtSplit(data, p, ud + ut, ul);
    AtSplit(data, p, ud, ut);
    ULebRoundTrip(data, p, end, e.dirIndex);
    ULebRoundTrip(data, p + |ud|, end, e.modTime);
    ULebRoundTrip(data, p + |ud| + |ut|, end, e.fileLength);
  }

  lemma EntryRoundTrip(data: seq<byte>, pos: nat, end: nat, e: RawEntry)
    requires end <= |data| && GoodName(e.name)
    requires At(data, pos, EncodeEntry(e)) && pos + |EncodeEntry(e)| < end
    ensures EntryAt(data, pos, end).Entry?
    ensures EntryAt(data, pos, end).entry == e
    ensures EntryAt(data, pos, end).next == pos + |EncodeEntry(e)|
  {
    EntryLaidOut(data, pos, end, e);
    EntryOfParts(data, pos, end, e, pos + |EncodeEntry(e)|);
  }

  /** The name and the three numbers of an encoded entry read back one by one. */
  lemma EntryLaidOut(data: seq<byte>, pos: nat, end: nat, e: RawEntry)
    requires end <= |data| && GoodName(e.name)
    requires At(data, pos, EncodeEntry(e)) && pos + |EncodeEntry(e)| < end
    ensures pos + 1 < end && 1 <= |e.name| && pos + |e.name| + 1 < end
    ensures NLen(data, pos, NameBound(pos, end)) == |e.name|
    ensures CStrLen(data, pos) == |e.name| && data[pos..pos + |e.name|] == e.name
    ensures NumbersAt(data, pos + |e.name| + 1, end) ==
      Some(Numbers(e.dirIndex, e.modTime, e.fileLength, pos + |EncodeEntry(e)|))
  {
    var nums := EncodeU(e.dirIndex) + EncodeU(e.modTime) + EncodeU(e.fileLength);
    assert EncodeEntry(e) == (e.name + [0]) + nums;
    AtSplit(data, pos, e.name + [0], nums);
    AtSplit(data, pos, e.name, [0]);
    AtSlice(data, pos, e.name);
    NLenOfName(data, pos, NameBound(pos, end), e.name);
    CStrLenOfName(data, pos, e.name);
    NumbersRoundTrip(data, pos + |e.name| + 1, end, e);
  }

  /** The entry step once its name and its three numbers are known. */
  lemma EntryOfParts(data: seq<byte>, pos: nat, end: nat, e: RawEntry, next: nat)
    requires end <= |data| && pos + 1 < end && 1 <= |e.name| && pos + |e.name| + 1 < end
    requires NLen(data, pos, NameBound(pos, end)) == |e.name|
    requires CStrLen(data, pos) == |e.name| && data[pos..pos + |e.name|] == e.name
    requires NumbersAt(data, pos + |e.name| + 1, end) == Some(Numbers(e.dirIndex, e.modTime, e.fileLength, next))
    ensures EntryAt(data, pos, end).Entry?
    ensures EntryAt(data, pos, end).entry == e
    ensures EntryAt(data, pos, end).next == next
  {
  }

  /**
   * Reading the file table back gives the entries and leaves the cursor
   * after the terminating NUL, provided a byte follows the table.
   */
  lemma {:induction false} EntriesRoundTrip(data: seq<byte>, pos: nat, end: nat, es: seq<RawEntry>)
    requires end <= |data|
    requires forall i :: 0 <= i < |es| ==> GoodName(es[i].name)
    requires At(data, pos, EncodeEntries(es)) && pos + |EncodeEntries(es)| < end
    ensures EntriesFrom(data, pos, end).Some?
    ensures EntriesFrom(data, pos, end).value.entries == es
    ensures EntriesFrom(data, pos, end).value.next == pos + |EncodeEntries(es)|
    decreases |es|
  {
    if es == [] {
      assert data[pos + 0] == EncodeEntries(es)[0] == 0;
    } else {
      var e := es[0];
      AtSplit(data, pos, EncodeEntry(e), EncodeEntries(es[1..]));
      EntryRoundTrip(data, pos, end, e);
      EntriesRoundTrip(data, pos + |EncodeEntry(e)|, end, es[1..]);
      assert [e] + es[1..] == es;
    }
  }
}
