# radare2 DWARF decoder and PDB helpers, modelled in Dafny

This project models the DWARF reader of radare2 (`libr/bin/dwarf.c`) and four
small pieces of its PDB reader (`libr/bin/pdb/pdb.c`), and proves properties of
the model.

The DWARF part follows the decoder stage by stage:

- **Bounded reads** (`Bytes`, `Leb128`). A fixed-width little-endian read
  (the `READ*` macros and `dwarf_read_piece`) yields the value only when more
  bytes than its width remain before the window end, yields 0 otherwise, and
  always advances the cursor by its width. ULEB128 and SLEB128 follow
  section 7.6 of DWARF 4.
- **`.debug_abbrev`** (`Abbrev`). `parse_abbrev_raw` produces a table of
  declarations. Each declaration records the offset at which its code began.
  Each definition list ends with its (0, 0) pair, and an `implicit_const`
  definition carries an extra SLEB128 constant.
- **Attribute values** (`AttrValue`). This is the per-form case table of
  `parse_attr_value`, with its sizes, its unit-relative references, its
  `.debug_str` lookups and its failures.
- **`.debug_info`** (`UnitHeader`, `Info`, `OffsetSearch`, `AddrInfoStore`).
  It covers:
  - the 32/64-bit unit header of `info_comp_unit_read_hdr`, for DWARF 4 and 5;
  - the binary search by abbreviation offset;
  - `parse_comp_unit` and `parse_die`, which produce a flat pre-order DIE
    array that includes null entries;
  - the compilation-directory entry of the address store.
- **`.debug_line`** (`LineHeader`, `LineProgram`). It covers:
  - `parse_line_header` and its directory and file tables;
  - the line-number state machine of section 6.2 of DWARF 4: special,
    standard and extended opcodes, `set_regs_default`, `parse_opcodes` and
    `parse_line_raw`.

  The register file is a class whose fields the opcode decoders update in
  place. The rows go into the address store, modelled as two maps with
  `sdb_add` semantics, where the first value written under a key stays.
- **Type reconstruction** (`TypeRecon`). It covers:
  - `find_attr_idx`;
  - `parse_type`, which resolves a type string through `DW_AT_type`
    references;
  - `parse_struct_member` and `parse_enumerator`;
  - the depth-counting walk of `parse_structure_type` and `parse_enum_type`;
  - `r_bin_dwarf_parse_types`. Its result is the list of structures and
    enumerations, instead of printed text.

The PDB part (`PdbRoot`, `PdbFormat`) covers:

- `count_pages` (C truncating division);
- the stream-size and page-list split of `init_pdb7_root_stream`, over the
  already fetched root-stream image;
- `convert_to_state`;
- `build_format_flags`, which writes one slot of a format string in place
  and renames the member.

Where the source is wrong (see Findings), the decoders still follow it as
written. The corrected behaviour is a second variant beside it
(`Info.Variant`, `PdbRoot.Bound`) or a definition of its own, and the lemmas
relate the two.

Each loop of the source is a method with a `while` loop. Each method is proved
equal to a specification function, and the lemmas state the properties of
that function. Integers are unbounded. The places where the source wraps
(64-bit register arithmetic, `(int)` casts, `int8_t`, 32-bit words in the PDB
image) are written out explicitly.

## Model

| member | source | states |
|---|---|---|
| Bytes.ReadFixed | libr/bin/dwarf.c:24-38 | a read of width w always moves the cursor by w, and its value fits in w bytes |
| Bytes.ReadPiece | libr/bin/dwarf.c:372-380 | reads 8 bytes in the 64-bit format and 4 otherwise, and the cursor moves by that width |
| Bytes.ReadFixedOfEncoding | libr/bin/dwarf.c:24-38 | when more than w bytes remain before the window end, reading the little-endian encoding of x gives back x |
| Bytes.ReadFixedShortWindow | libr/bin/dwarf.c:24-38 | when the window holds w bytes or fewer after the cursor, the value read is 0 |
| Bytes.ReadFixedIgnoresTail | libr/bin/dwarf.c:24-38 | a read never depends on bytes at or beyond the window end |
| Bytes.ReadFixedLowByte | libr/bin/dwarf.c:27-38 | a one-byte read is the low byte of a wider read at the same place |
| Bytes.ReadByte | libr/bin/dwarf.c:27-29 | READ8 inside the window gives the byte under the cursor |
| Bytes.ToInt8 | libr/bin/dwarf.c:915 | the `int8_t` line base lies in [-128, 128) and is congruent to the byte modulo 256 |
| Bytes.ToInt32 | libr/bin/dwarf.c:1144 | the `int` conversion lies in the 32-bit signed range and is congruent to the word modulo 2^32 |
| Bytes.ToWord64 | libr/bin/dwarf.c:1930-1932 | a signed value read through the unsigned member is its 64-bit two's complement |
| Bytes.CStrLen | libr/bin/dwarf.c:1936-1939 | the length counted from the cursor never runs past the section end, where the model stops it when no NUL comes first |
| Bytes.CStrLenStops | libr/bin/dwarf.c:1936-1939 | strlen covers only non-NUL bytes and stops before the image end only at a NUL |
| Bytes.NLen | libr/bin/dwarf.c:746-747 | `r_str_nlen` never exceeds its bound |
| Bytes.NLenStops | libr/bin/dwarf.c:746-747 | `r_str_nlen` covers only non-NUL bytes and stops short of its bound only at a NUL |
| Bytes.CString | libr/bin/dwarf.c:1937 | the duplicated string has strlen characters, none of them NUL |
| Leb128.ULeb | libr/bin/dwarf.c:1933-1935 | inside the window the cursor moves forward and stays within the window; at the end it yields (0, pos) |
| Leb128.SLeb | libr/bin/dwarf.c:1930-1932 | the signed read consumes the same bytes as the unsigned one |
| Leb128.ULebBound | libr/bin/dwarf.c:1933-1935 | k bytes decode to a value below 128^k |
| Leb128.SLebBound | libr/bin/dwarf.c:1930-1932 | k bytes decode to a signed value in [-128^k, 128^k) |
| Leb128.EncodeUShape | libr/bin/dwarf.c:1933-1935 | every byte of an encoding but the last has its continuation bit set |
| Leb128.ULebRoundTrip | libr/bin/dwarf.c:1933-1935 | decoding an unsigned encoding gives back the value and consumes exactly the encoding |
| Leb128.SLebRoundTrip | libr/bin/dwarf.c:1930-1932 | decoding a signed encoding gives back the value and consumes exactly the encoding |
| Leb128.ULebIgnoresTail | libr/bin/dwarf.c:1933-1935 | the reader never depends on bytes at or beyond the window end |
| Abbrev.DefsFrom | libr/bin/dwarf.c:2399-2416 | the definition loop never moves the cursor backwards |
| Abbrev.FormAt | libr/bin/dwarf.c:2407-2414 | a pair keeps the attribute code it was read with, and only `implicit_const` carries a constant |
| Abbrev.DeclAt | libr/bin/dwarf.c:2377-2419 | one turn of the outer loop moves forward, and a found declaration has a nonzero code and records the offset where that code began |
| Abbrev.DeclsFrom | libr/bin/dwarf.c:2377-2419 | the declarations lie inside the table, have nonzero codes, and have strictly increasing offsets |
| Abbrev.DefsFromShape | libr/bin/dwarf.c:2399-2416 | every pair before the last names an attribute and a form, and only `implicit_const` pairs carry a constant |
| Abbrev.AbbrevTable | libr/bin/dwarf.c:2362-2421 | there is no table exactly when the section is shorter than 3 bytes |
| Abbrev.AbbrevTableSorted | libr/bin/dwarf.c:2339-2393 | the table is sorted by offset, as the binary search needs, and has no zero code |
| Abbrev.ParseAbbrevRaw | libr/bin/dwarf.c:2362-2421 | the loop builds exactly `AbbrevTable` |
| Abbrev.ReadDefs | libr/bin/dwarf.c:2399-2416 | the do/while builds exactly `DefsFrom` |
| Abbrev.ReadForm | libr/bin/dwarf.c:2407-2412 | reads the form and, for `implicit_const`, its SLEB128 constant, as `FormAt` |
| Abbrev.FormRoundTrip | libr/bin/dwarf.c:2407-2412 | an encoded form, with its constant when it has one, reads back |
| Abbrev.DefsRoundTrip | libr/bin/dwarf.c:2399-2416 | a definition list ending in its (0, 0) pair reads back and ends right after that pair |
| Abbrev.DeclRoundTrip | libr/bin/dwarf.c:2377-2418 | an encoded declaration (code, tag, has-children byte, definitions) reads back with its own offset |
| AttrValue.Word | libr/bin/dwarf.c:483-590 | the union word that `parse_type`, `parse_struct_member` and `parse_enumerator` read: a signed constant, a string, a block or no value gives a word below 2^64 (a string or a block gives 0) |
| AttrValue.ValueAt | libr/bin/dwarf.c:1894-2110 | a decoded value never moves the cursor backwards |
| AttrValue.AttrAt | libr/bin/dwarf.c:1888-1889 | the attribute takes its name and form from its definition |
| AttrValue.ReadBlock | libr/bin/dwarf.c:1947-1986 | the copy loop gives n bytes: the section byte where a bounded read fits, 0 where it does not |
| AttrValue.ParseAttrValue | libr/bin/dwarf.c:1877-2112 | the decoder with its copy loops computes exactly `AttrAt` |
| AttrValue.FixedSizeForms | libr/bin/dwarf.c:1895-2099 | every fixed-size form decodes and takes the size the standard gives it, including 16 bytes for `data16`, 3 skipped bytes for `strx3`/`addrx3`, and 0 for `flag_present`/`implicit_const` |
| AttrValue.LebSizedForms | libr/bin/dwarf.c:1930-2105 | the LEB128 forms end where their operand ends |
| AttrValue.InlineStringSize | libr/bin/dwarf.c:1936-1939 | an inline string ends after its NUL |
| AttrValue.BlockSizedForms | libr/bin/dwarf.c:1940-2043 | a block ends `length` bytes after its length field, and its bytes are the bounded copies |
| AttrValue.AttrFailure | libr/bin/dwarf.c:1886-2109 | the decoder fails exactly when there is no byte left, the form is unknown, `addr` has an address size other than 1, 2, 4 or 8, or a ULEB128 block length reaches the window end |
| AttrValue.AttrAdvances | libr/bin/dwarf.c:1877-2112 | the cursor never moves backwards, and it stays put exactly for `flag_present` and `implicit_const` |
| AttrValue.UnitRelativeReference | libr/bin/dwarf.c:2008-2019 | `ref1` to `ref8` store unit_offset + operand, on 64 bits |
| AttrValue.UnitRelativeUleb | libr/bin/dwarf.c:2020-2024 | `ref_udata` stores unit_offset + operand, on 64 bits |
| AttrValue.SectionOffsets | libr/bin/dwarf.c:1993-2028 | `strp`, `ref_addr` and `sec_offset` take 4 or 8 bytes by the unit's format; `strp` has content exactly when a string table is present and the offset lies inside it |
| AttrValue.DataRoundTrip | libr/bin/dwarf.c:1914-1925 | `data1` to `data8` give back the encoded constant |
| AttrValue.Data16KeepsSecondWord | libr/bin/dwarf.c:1926-1929 | `data16` consumes 16 bytes and keeps the second 8-byte word |
| AttrValue.LebRoundTrip | libr/bin/dwarf.c:1930-1935 | `udata` and `sdata` give back the encoded value |
| AttrValue.Block1RoundTrip | libr/bin/dwarf.c:1940-1951 | `block1` gives back its content |
| AttrValue.UlebBlockRoundTrip | libr/bin/dwarf.c:1977-2043 | `block` and `exprloc` give back their content |
| AttrValue.InlineStringRoundTrip | libr/bin/dwarf.c:1936-1939 | an inline string gives back its characters, and no content for the empty string |
| UnitHeader.ReadInitialLength | libr/bin/dwarf.c:2234-2239 | the length field takes 4 bytes, or 12 after the 0xffffffff escape; a 32-bit length is below the escape |
| UnitHeader.ReadBody | libr/bin/dwarf.c:2240-2257 | `header_size` counts the bytes after the length field up to the first DIE |
| UnitHeader.ReadHeaderWith | libr/bin/dwarf.c:2231-2258 | the header starts at the unit offset and ends length-field + header_size bytes later |
| UnitHeader.ReadHeaderAsWritten | libr/bin/dwarf.c:2231-2258 | the reader as written, with its one-byte `dwo_id`: the header starts at the unit offset and ends length-field + header_size bytes later |
| UnitHeader.ReadHeader | libr/bin/dwarf.c:2231-2258 | the reader with the eight-byte `dwo_id` of section 7.5.1.2 of DWARF 5: starts at the unit offset and ends length-field + header_size bytes later |
| UnitHeader.ReadersAgree | libr/bin/dwarf.c:2231-2258 | the reader as written and the corrected one give the same header and cursor on every unit but a DWARF 5 skeleton or split-compile unit |
| UnitHeader.InitialLengthRoundTrip | libr/bin/dwarf.c:2234-2239 | both initial-length formats read back |
| UnitHeader.BodyRoundTrip | libr/bin/dwarf.c:2240-2257 | an encoded DWARF 4 or 5 header body reads back as the fields its version and unit type carry |
| UnitHeader.HeaderRoundTrip | libr/bin/dwarf.c:2231-2258 | a well-formed header of any unit type reads back and ends where its encoding ends |
| UnitHeader.SkeletonBodyAsWritten | libr/bin/dwarf.c:2246-2247 | on a skeleton or split-compile body the one-byte `dwo_id` keeps only the low byte and ends 7 bytes early |
| UnitHeader.SkeletonHeaderAsWrittenShort | libr/bin/dwarf.c:2246-2247 | on a well-formed skeleton header the reader as written stops 7 bytes short of the first DIE |
| Info.DieDefs | libr/bin/dwarf.c:2130 | `parse_die` decodes the definitions of a declaration in order, all but the last (the (0, 0) terminator); a declaration with none gives none |
| Info.AttrsFrom | libr/bin/dwarf.c:2130-2149 | at most one attribute per definition, each with its definition's name and form; a run that completes has one per definition and has not moved the cursor back |
| Info.CompDirUntouched | libr/bin/dwarf.c:2138-2147 | without a string-valued `comp_dir` attribute the store keeps its entry |
| Info.CompDirIsLast | libr/bin/dwarf.c:2138-2147 | the store holds the last `comp_dir` string seen |
| Info.CompDirAppend | libr/bin/dwarf.c:2138-2147 | showing two runs of attributes one after the other is showing their concatenation |
| Info.ParseDie | libr/bin/dwarf.c:2127-2152 | the loop decodes exactly `AttrsFrom` and updates only the `comp_dir` entry of the store |
| Info.DecodeAttr | libr/bin/dwarf.c:2133-2148 | one turn decodes one attribute, or ends the run on failure |
| Info.ShowToStore | libr/bin/dwarf.c:2138-2147 | a string-valued `comp_dir` attribute replaces the store's entry, and nothing else changes |
| Info.DieAt | libr/bin/dwarf.c:2174-2219 | a null entry records its offset; a DIE records its offset; the cursor moves forward |
| Info.DiesFrom | libr/bin/dwarf.c:2174-2219 | the DIE loop never moves the cursor backwards |
| Info.DieOffsetsIncrease | libr/bin/dwarf.c:2181-2182 | within a unit the DIE offsets lie in the window and strictly increase |
| Info.DieFollowsDecl | libr/bin/dwarf.c:2187-2216 | code 0 gives a null DIE; code k gives the tag, children flag and attribute names and forms of declaration `first + k - 1` |
| Info.DieFailure | libr/bin/dwarf.c:2187-2216 | a DIE fails exactly when its code exceeds the number of declarations, or, for a nonzero code with bytes left in the window, its index is past the table or one of its attributes fails |
| Info.ParseEntry | libr/bin/dwarf.c:2174-2219 | one turn of the DIE loop is `DieAt`, and only `comp_dir` changes in the store |
| Info.ParseCompUnit | libr/bin/dwarf.c:2167-2221 | the DIE loop computes `DiesFrom` over the unit's window |
| Info.DeclOffsets | libr/bin/dwarf.c:2338-2339 | the binary-search keys are the declarations' offsets |
| Info.WindowInsideSection | libr/bin/dwarf.c:2327-2329 | with the unit-end check, a unit's DIE window is the rest of the unit, lies inside the section, and is not cut at the section end |
| Info.UnitLengthCheckAsWritten | libr/bin/dwarf.c:2327-2329 | the length check as written accepts a 12-byte section whose unit ends at byte 16, so the DIE window runs 4 bytes past the section |
| Info.UnitDies | libr/bin/dwarf.c:2172-2174 | for any header, including one whose unit runs past the section, the DIE run over the window (cut at the section end) never ends before the end of the header |
| Info.UnitAt | libr/bin/dwarf.c:2320-2352 | one unit read with the variant's header reader and length check (as written: the one-byte `dwo_id` and `length > len`); a decoded unit records the offset it starts at, and the cursor moves forward |
| Info.VariantsAgree | libr/bin/dwarf.c:2231-2258 | away from DWARF 5 skeleton and split-compile units, a unit that ends inside the section decodes the same as written and corrected |
| Info.UnitDiesInside | libr/bin/dwarf.c:2167-2221 | as written or corrected, a unit's DIEs lie after its header and before both the unit end and the section end, in increasing order; with the corrected check the unit itself ends inside the section |
| Info.UnitsInOrder | libr/bin/dwarf.c:2307-2353 | as written or corrected, unit offsets strictly increase inside the section and every unit's DIEs lie inside it and inside the section |
| Info.ParseInfoRaw | libr/bin/dwarf.c:2289-2360 | the unit loop computes `DebugInfo` as written (None when any unit fails), and only `comp_dir` changes in the store |
| Info.ParseUnit | libr/bin/dwarf.c:2320-2352 | one turn reads the header with the one-byte `dwo_id`, checks `length > len`, finds the declarations by binary search and decodes the DIEs: `UnitAt` as written |
| OffsetSearch.IndexOf | libr/bin/dwarf.c:322-333 | the first position holding the key, or none when no position holds it |
| OffsetSearch.IndexOfUnique | libr/bin/dwarf.c:322-333 | with strictly increasing keys, a position holding the key is the one found |
| OffsetSearch.BinarySearch | libr/bin/dwarf.c:2338-2344 | the binary search finds exactly `IndexOf` |
| AddrInfoStore.AddNew | libr/bin/dwarf.c:1010-1011 | `sdb_add` keeps an existing value, adds a new key, and leaves the other keys alone |
| AddrInfoStore.FirstRowWins | libr/bin/dwarf.c:1008-1011 | an address gets an entry exactly when some row has it, and the entry is the file and line of the first such row |
| AddrInfoStore.AddrInfo.constructor | libr/bin/dwarf.c:977-1013 | the store starts empty |
| AddrInfoStore.AddrInfo.SetCompDir | libr/bin/dwarf.c:2146 | sets `DW_AT_comp_dir` and nothing else |
| AddrInfoStore.AddrInfo.AddRow | libr/bin/dwarf.c:1008-1011 | the two `sdb_add` calls of one row |
| AddrInfoStore.AfterSnoc | libr/bin/dwarf.c:1008-1011 | adding the rows one at a time is adding them all |
| AddrInfoStore.AfterConcat | libr/bin/dwarf.c:1008-1011 | adding two runs of rows in turn is adding their concatenation |
| LineHeader.DirAt | libr/bin/dwarf.c:745-761 | an empty or over-long name ends the table one byte on; a directory has 1 to 0xffe bytes |
| LineHeader.DirsFrom | libr/bin/dwarf.c:745-761 | the directory loop stays in the section and keeps only names of 1 to 0xffe bytes |
| LineHeader.EntryAt | libr/bin/dwarf.c:773-802 | an empty name ends the table one byte on; an entry has a name and ends before the section end |
| LineHeader.NumbersAt | libr/bin/dwarf.c:788-802 | the three numbers end before the section end |
| LineHeader.EntriesFrom | libr/bin/dwarf.c:773-802 | the file table ends inside the section, or fails |
| LineHeader.Named | libr/bin/dwarf.c:804-826 | every entry is stored with its full name, in table order |
| LineHeader.SourceEndsInside | libr/bin/dwarf.c:736-854 | both tables together end inside the section |
| LineHeader.Zeros | libr/bin/dwarf.c:935 | calloc leaves every slot 0 |
| LineHeader.LengthsFrom | libr/bin/dwarf.c:941-949 | one slot per opcode, and the cursor stays in the section |
| LineHeader.LengthsValues | libr/bin/dwarf.c:941-949 | a slot holds its byte while two bytes remain, and 0 after the loop breaks |
| LineHeader.LengthsCursor | libr/bin/dwarf.c:941-949 | the cursor moves one byte per slot read |
| LineHeader.OpcodeLengths | libr/bin/dwarf.c:934-955 | the table has `opcode_base` slots |
| LineHeader.OpcodeLengthsTable | libr/bin/dwarf.c:934-955 | slot 0 is 0; slot k holds the (k-1)-th byte while it fits, else 0 |
| LineHeader.LeadAt | libr/bin/dwarf.c:888-903 | the fields before `header_length` and the field itself take at least 10 bytes |
| LineHeader.FieldsAt | libr/bin/dwarf.c:910-917 | `max_ops` is read only from version 4 on; the line base is a signed byte |
| LineHeader.LineHeaderAt | libr/bin/dwarf.c:859-975 | the version is at most 5 (above 5 the source-table stub returns NULL); the opcode-length table has `opcode_base` slots; a v5 header has no file table and ends `header_length` bytes after that field; below v5 the header ends inside the section; fewer than 18 bytes always fail |
| LineHeader.ReadEntry | libr/bin/dwarf.c:773-802 | one turn of the file-table loop, as `EntryAt` |
| LineHeader.ReadNumbers | libr/bin/dwarf.c:788-802 | the three ULEB128 numbers and their checks, as `NumbersAt` |
| LineHeader.ReadSource | libr/bin/dwarf.c:736-854 | both tables, as `SourceAt` |
| LineHeader.ReadDirs | libr/bin/dwarf.c:745-761 | the directory loop computes `DirsFrom` |
| LineHeader.ReadDir | libr/bin/dwarf.c:746-760 | one turn of the directory loop, as `DirAt` |
| LineHeader.CountEntries | libr/bin/dwarf.c:772-844 | the first pass counts the entries of `EntriesFrom` |
| LineHeader.FillEntries | libr/bin/dwarf.c:772-845 | the second pass stores the same entries, named, and ends at the same place |
| LineHeader.ReadOpcodeLengths | libr/bin/dwarf.c:934-955 | the opcode-length loop computes `OpcodeLengths` |
| LineHeader.ReadLead | libr/bin/dwarf.c:888-903 | the leading fields, as `LeadAt` |
| LineHeader.ReadFields | libr/bin/dwarf.c:910-917 | the one-byte fields, as `FieldsAt` |
| LineHeader.ParseLineHeader | libr/bin/dwarf.c:882-975 | the header reader computes `LineHeaderAt` |
| LineHeader.DirsRoundTrip | libr/bin/dwarf.c:745-761 | an encoded directory table reads back and ends after its empty name |
| LineHeader.NumbersRoundTrip | libr/bin/dwarf.c:788-802 | three encoded numbers read back |
| LineHeader.EntryRoundTrip | libr/bin/dwarf.c:773-802 | an encoded file entry reads back |
| LineHeader.EntriesRoundTrip | libr/bin/dwarf.c:773-834 | an encoded file table reads back and ends after its empty name |
| LineProgram.SignedLine | libr/bin/dwarf.c:1008 | the `PFMT64d` rendering of the line is its 64-bit two's complement |
| LineProgram.RowOf | libr/bin/dwarf.c:1186-1193 | a row is written only for a file index inside the table, with the current address and that file's name |
| LineProgram.RowIffFileInRange | libr/bin/dwarf.c:1186-1193 | for a file register below 2^31, a row is written exactly when 1 <= file <= `file_names_count` |
| LineProgram.RowFileWraps | libr/bin/dwarf.c:1187 | the `int` conversion wraps: file 2^32 + 1 selects the first entry |
| LineProgram.Special | libr/bin/dwarf.c:1113-1157 | fails exactly when `line_range` is 0; otherwise clears basic_block, prologue_end, epilogue_begin and discriminator and keeps file, column and is_stmt |
| LineProgram.SpecialDecodesEncoding | libr/bin/dwarf.c:1129-1137 | the special opcode for line advance d and address advance a moves the line by d and the address by a |
| LineProgram.SpecialExample | libr/bin/dwarf.c:1129-1137 | line base -5, range 14, opcode base 13: opcode 19 adds 0 to the address and 1 to the line |
| LineProgram.Standard | libr/bin/dwarf.c:1159-1284 | only `copy` writes a row, and the cursor never moves back |
| LineProgram.ConstAddPcIsSpecial255 | libr/bin/dwarf.c:1238-1250 | `const_add_pc` moves the address as special opcode 255 would, unscaled, consumes nothing and writes no row |
| LineProgram.NegateTwice | libr/bin/dwarf.c:1226-1231 | `negate_stmt` twice restores whether is_stmt is set and changes nothing else |
| LineProgram.UnknownStandardSkipsNothing | libr/bin/dwarf.c:1277-1281 | an unknown standard opcode changes nothing and consumes no operand |
| LineProgram.AdvancePcRoundTrip | libr/bin/dwarf.c:1197-1204 | `advance_pc` adds operand × `min_inst_len` |
| LineProgram.AdvanceLineRoundTrip | libr/bin/dwarf.c:1205-1211 | `advance_line` adds the signed operand |
| LineProgram.FixedAdvanceRoundTrip | libr/bin/dwarf.c:1251-1257 | `fixed_advance_pc` adds the raw 16-bit operand |
| LineProgram.DefineFileEnd | libr/bin/dwarf.c:1074-1094 | `define_file` moves the cursor past the name |
| LineProgram.Extended | libr/bin/dwarf.c:1015-1111 | fails exactly when the length runs to the window end; only `end_sequence` writes a row |
| LineProgram.EndSequenceEncoding | libr/bin/dwarf.c:1048-1062 | the bytes 01 01 set end_sequence, write the current row and consume 2 bytes |
| LineProgram.SetAddressRoundTrip | libr/bin/dwarf.c:1028-1073 | on a 64-bit binary `set_address` loads its 8-byte operand |
| LineProgram.StepAt | libr/bin/dwarf.c:1312-1328 | a pass of the loop moves forward |
| LineProgram.RunFrom | libr/bin/dwarf.c:1312-1328 | the loop ends at an end_sequence, or with fewer than 2 bytes left |
| LineProgram.ConsumedZeroIffShort | libr/bin/dwarf.c:1306-1332 | `parse_opcodes` consumes nothing exactly when its window is shorter than 8 bytes, and then changes nothing |
| LineProgram.SequenceEndResets | libr/bin/dwarf.c:1286-1320 | a run that stops at an end_sequence leaves every register but the discriminator at its default |
| LineProgram.LastByteNotExecuted | libr/bin/dwarf.c:1312 | eight `copy` bytes write seven rows: the last byte of a window is left undecoded |
| LineProgram.CopiesWriteRows | libr/bin/dwarf.c:1182-1196 | n + 1 `copy` bytes write n rows |
| LineProgram.WindowLen | libr/bin/dwarf.c:1376-1395 | the window given to `parse_opcodes` never reaches past the section, and is the source's `buf_size` bytes from the cursor whenever those fit |
| LineProgram.WindowPassesSectionEnd | libr/bin/dwarf.c:1376-1395 | as written, the first window of the last unit runs past the section end by the unit's header size |
| LineProgram.OpcodeWindowInside | libr/bin/dwarf.c:1376-1395 | for a unit that reaches its do/while, the intended window of `buf_size - bytes_read` bytes ends exactly at the unit end, inside the section, while the window as written ends past it by the header size |
| LineProgram.HeaderAdvances | libr/bin/dwarf.c:1361-1369 | an accepted header moves the cursor forward |
| LineProgram.SequencesFrom | libr/bin/dwarf.c:1393-1398 | each `parse_opcodes` call gets `buf_size` bytes from the current cursor (cut at the section end); when the do/while hands back a cursor, it lies past the one it started at |
| LineProgram.UnitStepAt | libr/bin/dwarf.c:1353-1401 | one unit moves the cursor forward |
| LineProgram.UnitBody | libr/bin/dwarf.c:1370-1398 | the unit after its header moves the cursor forward |
| LineProgram.EndOfSectionFails | libr/bin/dwarf.c:1353-1402 | the loop runs while the cursor is at most the section end, so with fewer than 18 bytes left (none included) it fails in the header, adds no row and never reaches `return true` |
| LineProgram.Registers.constructor | libr/bin/dwarf.c:1371 | uninitialised registers: every register 0 except the discriminator, which keeps whatever its storage held |
| LineProgram.Registers.SetDefault | libr/bin/dwarf.c:1286-1297 | address 0, file 1, line 1, column 0, is_stmt = default_is_stmt, flags false, isa 0; the discriminator is untouched |
| LineProgram.Registers.AddLine | libr/bin/dwarf.c:1186-1193 | `add_sdb_addrline` for the current registers when the file index is in range |
| LineProgram.Registers.SpecialOpcode | libr/bin/dwarf.c:1113-1157 | updates the registers and the store in place as `Special` says |
| LineProgram.Registers.StandardOpcode | libr/bin/dwarf.c:1159-1284 | updates the registers and the store in place as `Standard` says |
| LineProgram.Registers.ExtendedOpcode | libr/bin/dwarf.c:1015-1111 | updates the registers and the store in place as `Extended` says, and changes nothing on failure |
| LineProgram.ParseOpcodes | libr/bin/dwarf.c:1300-1333 | the registers, the rows and the returned count are those of `Opcodes` |
| LineProgram.RunOpcodes | libr/bin/dwarf.c:1312-1328 | the loop computes `RunFrom` |
| LineProgram.ExecuteOpcode | libr/bin/dwarf.c:1313-1327 | one pass of the loop is `StepAt` |
| LineProgram.ParseLineRaw | libr/bin/dwarf.c:1335-1403 | the unit loop computes `UnitsFrom` over the registers and the store |
| LineProgram.ParseUnit | libr/bin/dwarf.c:1353-1401 | one pass of the unit loop is `UnitStepAt` |
| LineProgram.ParseUnitBody | libr/bin/dwarf.c:1370-1400 | the unit after its header is `UnitBody` |
| LineProgram.ParseSequences | libr/bin/dwarf.c:1393-1398 | the do/while computes `SequencesFrom` |
| TypeRecon.AttrIndex | libr/bin/dwarf.c:454-462 | the result is -1 or an index of the attributes |
| TypeRecon.AttrIndexIsFirst | libr/bin/dwarf.c:454-462 | the index found holds the name and none before it does; -1 exactly when no attribute has the name |
| TypeRecon.FindAttrIdx | libr/bin/dwarf.c:454-462 | the loop computes `AttrIndex` |
| TypeRecon.Offsets | libr/bin/dwarf.c:334-345 | the bsearch keys are the DIE offsets |
| TypeRecon.DieIndex | libr/bin/dwarf.c:466-471 | a DIE found has the offset; none found means no DIE has it |
| TypeRecon.DieLookup | libr/bin/dwarf.c:466-467 | with increasing offsets, every DIE is found by its own offset |
| TypeRecon.FindDie | libr/bin/dwarf.c:466-467 | the binary search finds exactly `DieIndex` |
| TypeRecon.NamedTypeGivesName | libr/bin/dwarf.c:476-496 | a base, structure, enumeration or typedef DIE gives its first name |
| TypeRecon.WrapperAppendsSuffix | libr/bin/dwarf.c:481-505 | a pointer gives its target's string + " *", a subroutine its target's string + " ()" |
| TypeRecon.UnknownOffsetKeepsBuffer | libr/bin/dwarf.c:466-471 | an offset with no DIE leaves the string unchanged |
| TypeRecon.OtherTagKeepsBuffer | libr/bin/dwarf.c:506-507 | any other tag leaves the string unchanged |
| TypeRecon.PointerToPointerToInt | libr/bin/dwarf.c:476-488 | a pointer to a pointer to `int` reads "int * *" |
| TypeRecon.LastNameWins | libr/bin/dwarf.c:522-527 | a member is named by its last `DW_AT_name` |
| TypeRecon.LastLocationWins | libr/bin/dwarf.c:533-542 | a member's offset is its last `DW_AT_data_member_location` |
| TypeRecon.NoTypeAttrNoType | libr/bin/dwarf.c:517-532 | without `DW_AT_type` a member has no type |
| TypeRecon.OneTypeAttr | libr/bin/dwarf.c:529-532 | a single `DW_AT_type` gives the resolved string of its target |
| TypeRecon.ParseStructMember | libr/bin/dwarf.c:512-570 | the attribute loop computes `MemberOf` |
| TypeRecon.CaseValue | libr/bin/dwarf.c:582-596 | an enumerator's value is its last `DW_AT_const_value`, 0 without one |
| TypeRecon.ParseEnumerator | libr/bin/dwarf.c:573-609 | the attribute loop computes `CaseOf` |
| TypeRecon.ChildrenFrom | libr/bin/dwarf.c:632-650 | the children found lie in the array and have the tag looked for |
| TypeRecon.ChildrenFromIff | libr/bin/dwarf.c:632-650 | a DIE is collected exactly when it has the tag, lies at depth 1, and the depth has not dropped to 0 before it |
| TypeRecon.DirectChildren | libr/bin/dwarf.c:629-699 | the same, from the DIE after the root |
| TypeRecon.NestedMemberSkipped | libr/bin/dwarf.c:629-650 | in a structure holding a nested union, the member inside the union is skipped and nothing after the structure's closing null DIE is collected |
| TypeRecon.ParseStructureType | libr/bin/dwarf.c:612-656 | the depth-counting loop computes `TypeAt` for a structure |
| TypeRecon.ParseEnumType | libr/bin/dwarf.c:657-705 | the depth-counting loop computes `TypeAt` for an enumeration: its shown name and size, and its direct enumerators in order |
| TypeRecon.EnumNameNeedsSize | libr/bin/dwarf.c:665-671 | an enumeration shows its name and its `DW_AT_byte_size` word only when it has both attributes, and neither otherwise |
| TypeRecon.RootsExactly | libr/bin/dwarf.c:723-733 | the roots are exactly the structure and enumeration DIEs, in array order |
| TypeRecon.TypesOf | libr/bin/dwarf.c:707-721 | one type per root |
| TypeRecon.TypesUpToStep | libr/bin/dwarf.c:726-731 | the loop adds a type exactly at a structure or enumeration DIE |
| TypeRecon.ParseUnitTypes | libr/bin/dwarf.c:726-731 | the DIE loop of one unit computes `UnitTypes` |
| TypeRecon.ParseRootType | libr/bin/dwarf.c:707-721 | the dispatch on the root's tag gives `TypeAt` |
| TypeRecon.ParseTypes | libr/bin/dwarf.c:723-733 | the unit loop computes `AllTypes` |
| PdbRoot.CountPagesIsCeiling | libr/bin/pdb/pdb.c:88-97 | for length >= 0, the count is the ceiling of length / page_size when page_size > 0, and 0 otherwise |
| PdbRoot.NegativeSizeCount | libr/bin/pdb/pdb.c:88-97 | truncating division: a negative size gives a negative or zero count |
| PdbRoot.Word32At | libr/bin/pdb/pdb.c:130-157 | a little-endian 32-bit word of the image: at most 0xffffffff |
| PdbRoot.Words | libr/bin/pdb/pdb.c:194 | n consecutive 32-bit words |
| PdbRoot.WordAt | libr/bin/pdb/pdb.c:194 | a word memcpy copies is a 32-bit value, and is the image's word wherever it lies inside the image |
| PdbRoot.Copied | libr/bin/pdb/pdb.c:194 | the n words memcpy copies, in order; inside the image they are exactly `Words` |
| PdbRoot.SizeAt | libr/bin/pdb/pdb.c:156-163 | a stream size is read as a 32-bit signed `int`, so it lies in [-2^31, 2^31) |
| PdbRoot.Sizes | libr/bin/pdb/pdb.c:149-163 | one size per stream, the i-th being the size the loop reads for stream i |
| PdbRoot.CopyFitsInside | libr/bin/pdb/pdb.c:136-194 | the corrected bound admits exactly the copies that stay inside the image |
| PdbRoot.CopyFitsAsWrittenOverrun | libr/bin/pdb/pdb.c:136-194 | the bound as written admits exactly the copies that end at most 8 bytes past the image |
| PdbRoot.CopyOverrunAsWritten | libr/bin/pdb/pdb.c:136-194 | the bound as written lets a 16-byte image copy its page list from bytes 8 to 24 |
| PdbRoot.OverrunSplit | libr/bin/pdb/pdb.c:130-215 | on that image the split as written succeeds, its one stream getting four page numbers read past the image, while the corrected split fails |
| PdbRoot.RootStreamSplit | libr/bin/pdb/pdb.c:130-215 | with either bound, on success: at least one stream and the count word as the count, one record per stream with `count_pages(size)` page numbers, all copied consecutively from right after the size table; they end at most 8 bytes past the image as written, and inside it with the corrected bound |
| PdbRoot.UnusedStreamIsEmpty | libr/bin/pdb/pdb.c:159-211 | with either bound, a stream of size 0xffffffff gets an empty record |
| PdbRoot.NoStreamsFails | libr/bin/pdb/pdb.c:136-147 | with either bound, a stream count below 1 fails |
| PdbRoot.NegativeCountFails | libr/bin/pdb/pdb.c:168-194 | with either bound, a stream with a negative page count makes the split fail, whatever the streams before it |
| PdbRoot.ReadSizes | libr/bin/pdb/pdb.c:149-163 | the size loop fills a fresh array with `Sizes` |
| PdbRoot.SplitPages | libr/bin/pdb/pdb.c:168-215 | the page-list loop, with the bound as written, computes `StreamsFrom` |
| PdbRoot.InitRootStream | libr/bin/pdb/pdb.c:130-215 | the whole split computes `RootStreamOf` with the bound as written |
| PdbFormat.ContainsFromIff | libr/bin/pdb/pdb.c:631 | `strstr` finds the keyword exactly when it occurs in the word |
| PdbFormat.StateFromFirst | libr/bin/pdb/pdb.c:631-667 | the state is that of the first keyword in the list that occurs in the word |
| PdbFormat.StateFromNone | libr/bin/pdb/pdb.c:628-669 | `eStateMax` exactly when no keyword occurs |
| PdbFormat.ConvertToStateIsFirstKeyword | libr/bin/pdb/pdb.c:628-670 | the state of the first matching keyword, in the fixed order, and `eStateMax` exactly when none matches |
| PdbFormat.MemberBeforePointer | libr/bin/pdb/pdb.c:631-634 | "member*" is a member word, not a pointer |
| PdbFormat.WordLen | libr/bin/pdb/pdb.c:679 | a token runs to the first space |
| PdbFormat.TokensAreWords | libr/bin/pdb/pdb.c:679-795 | `strtok` tokens are non-empty and hold no space |
| PdbFormat.Qualified | libr/bin/pdb/pdb.c:703-772 | "(T)name" is T in parentheses followed by the name |
| PdbFormat.Renamed | libr/bin/pdb/pdb.c:691-775 | a type word always writes its flag to the slot |
| PdbFormat.States | libr/bin/pdb/pdb.c:681 | one state per word |
| PdbFormat.PointerIsSticky | libr/bin/pdb/pdb.c:685-750 | once the slot holds 'p', a pointer, unsigned, short, char, long, modifier or enum word returns 1 and leaves 'p' |
| PdbFormat.IgnoredWordsSkipped | libr/bin/pdb/pdb.c:683-787 | "member" words and the words "to", "nesttype", "mfunction", "proc" and "arglist" change nothing |
| PdbFormat.PointerSurvives | libr/bin/pdb/pdb.c:685-787 | 'p' survives any skipped words followed by such a word |
| PdbFormat.SingleWordResults | libr/bin/pdb/pdb.c:714-780 | with a slot other than 'p': char gives 'b' after 'u' and 'c' otherwise, short 'w', long 'i'; whatever the slot: void, array and onemethod give 'p'; each returns 1 with the name unchanged |
| PdbFormat.NamedTypeRenames | libr/bin/pdb/pdb.c:691-775 | struct/union set '?' and rename the member "(T)name" with T and name filtered; enum (slot not 'p') sets 'E' and bitfield 'B', renaming to "(T)name" unfiltered; T is the next word and each returns 1 |
| PdbFormat.UnknownWordFails | libr/bin/pdb/pdb.c:781-792 | any other word, "double" included, sets 'A' and returns 0 |
| PdbFormat.OutOfWordsSucceeds | libr/bin/pdb/pdb.c:798 | running out of words returns 1 |
| PdbFormat.ResultIsZeroOrOne | libr/bin/pdb/pdb.c:674-799 | the result is 0 or 1, and 0 only with 'A' or a type word missing its name, the name then unchanged |
| PdbFormat.UnsignedThen | libr/bin/pdb/pdb.c:708-732 | "unsigned" then "char" gives 'b', "unsigned" then "short" gives 'w' |
| PdbFormat.BuildFormatFlags | libr/bin/pdb/pdb.c:674-799 | the result, the slot and the new name are those of `FormatFlags`, and every other slot of the format string is unchanged |
| PdbFormat.FormatWord | libr/bin/pdb/pdb.c:682-793 | one word is `WordStep`, written to the slot only |

## Left out

- Section acquisition and buffer I/O (`getsection`, `r_bin_dwarf_parse_*`, `r_buf_read_at`, and in the PDB reader `pdb7_parse`, `stream_file_*` and the reading of the root stream). The decoders take the section bytes as a sequence, and the split takes the root-stream image.
- Printing: the `R_MODE_PRINT` branches, the name tables, `print_*` and `eprintf`. The model follows the non-printing mode, where an unknown extended opcode is skipped rather than returning NULL.
- `parse_aranges_raw` and the row rebuild from the Sdb: the first only prints, and its alignment depends on the buffer's memory address; the second depends on Sdb iteration order and string parsing that are not part of this model.
- Sdb and `RList`/`RVector` internals. The address store is two maps plus a `comp_dir` entry. The include-directory Sdb local to `parse_line_header` is the header's list of directories. Keys are values, not rendered strings.
- Memory allocation and its failures (`calloc`, `R_NEW`, the `expand_*` reallocation): sequences grow without bound.
- The bits of the binary (`o->info->bits`), and `r_name_filter`, are parameters.
- Integers are unbounded except where the source's width is written out. A ULEB128 value is not truncated to 64 bits.
- `DW_LNE_define_file` only moves the cursor: the `strlen` of its name runs to the first NUL of the section, and the extended opcode's length field is read but not used, as in the source.
- `max_ops_per_inst` and the discriminator are read and stored but drive nothing, as in the source.
- `strx3` and `addrx3` skip 3 bytes and set no value, as in the source.
- Undefined behaviour of the source is replaced by a defined choice:
  - `parse_type` with no `DW_AT_type` on a pointer or subroutine appends only the suffix;
  - a base type with no name leaves the string unchanged;
  - the recursion carries fuel equal to the number of DIEs, so cyclic references end;
  - the 4128-byte type buffer is a string of any length.
- `Info.UnitAt`: a unit whose DIE window runs past the section (the length check as written allows it) has its window cut at the section end; the source reads the memory beyond it.
- `LineProgram.WindowLen`: the window given to `parse_opcodes` is cut at the section end, where the source's window (dwarf.c:1395) runs past the section and reads memory beyond it.
- `Bytes.CStrLen`: the `strlen` of an inline `DW_FORM_string` stops at the section end when no NUL precedes it; the source's `strlen` (dwarf.c:1937-1938) is unbounded.
- `Info.DieDefs`: a declaration with no definitions, which `parse_abbrev_raw` produces when the section ends after the has-children byte (dwarf.c:2403-2405), gives no attributes; in the source `abbrev->count - 1` then wraps (dwarf.c:2130) and the loop reads past `defs`.
- `AttrValue.Word`: the word that `value->data` and `value->constant` read (dwarf.c:541, 591) is the union member the value was stored in, and 0 for a string or a block. The union's layout is not part of this model, and dwarf.c:1890-1892 stores `string.offset` and `block.length` in the same union, so what the source reads there for a string or block form is an assumption.
- `PdbRoot.WordAt`: a page-list copy that the bound as written lets run past the image reads 0 for the bytes beyond it, where the source's `memcpy` reads memory outside the image.
- `LineProgram.ParseSequences`: a `parse_opcodes` call that consumes nothing ends the do/while with a `Stalled` outcome, where the source would loop forever.
- `PdbFormat.BuildFormatFlags`: a struct, union, enum or bitfield word with no word after it returns 0 with the slot written and the name unchanged, where the source calls `strlen` on NULL.
- `PdbRoot.InitRootStream`:
  - an image shorter than 4 bytes is excluded by a precondition;
  - the 32-bit overflow of `num_streams * 4` and of `num_pages * 4` is not modelled;
  - a negative page count fails, where the source would pass it to `calloc`.
- The DIE array's `capacity` bookkeeping and the warning at dwarf.c:2331-2334 have no effect on the result and are not modelled.

## Findings

| source | as written | input that shows it | evidently intended | confidence | as-written member | corrected member |
|---|---|---|---|---|---|---|
| libr/bin/dwarf.c:2246-2247 | `dwo_id` of a skeleton or split-compile unit is read with READ8 (one byte) | any DWARF 5 skeleton header: the reader stops 7 bytes short and keeps only the low byte of `dwo_id` | read the 8-byte `dwo_id` of section 7.5.1.2 of DWARF 5 | not executed | UnitHeader.SkeletonHeaderAsWrittenShort | UnitHeader.HeaderRoundTrip |
| libr/bin/dwarf.c:2327-2329 | the unit length is compared with the whole section length, ignoring where the unit starts | a 12-byte section whose unit claims length 12 (version 4): the DIE window ends at byte 16 | the unit must end inside the section: offset + length field + length <= section size | not executed | Info.UnitLengthCheckAsWritten | Info.WindowInsideSection |
| libr/bin/dwarf.c:1376-1395 | `parse_opcodes` gets `buf_size` bytes counted from the cursor after the header, though `buf_size` counts from the unit start | the last unit of a section whose length runs to the section end: the window passes the end by the header size | a window of the `buf_size - bytes_read` bytes left of the unit, which ends at the unit end, inside the section | not executed | LineProgram.WindowPassesSectionEnd | LineProgram.OpcodeWindowInside |
| libr/bin/pdb/pdb.c:136-194 | page lists are bounded by `data_size - (num_streams*4 - 4)`, measured from the start of the lists, 4 + 4·num_streams bytes into the image | a 16-byte image with one stream of size 16 and 4-byte pages: the split succeeds and its copy reads bytes 8 to 24 | the lists must end inside the image: 4 + 4·num_streams + pos + size <= data_size | not executed | PdbRoot.OverrunSplit | PdbRoot.CopyFitsInside |
