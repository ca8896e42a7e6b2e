/**
 * The numeric codes of the DWARF standard that the decoder switches on:
 * attribute forms (section 7.5.4 of DWARF 4, section 7.5.5 of DWARF 5),
 * tags and attribute names (section 7.5 of DWARF 4), unit types (section
 * 7.5.1 of DWARF 5) and line-number opcodes (section 6.2.5 of DWARF 4).
 */
module DwarfConstants {

  // Attribute forms.
  const FORM_addr: nat := 0x01
  const FORM_block2: nat := 0x03
  const FORM_block4: nat := 0x04
  const FORM_data2: nat := 0x05
  const FORM_data4: nat := 0x06
  const FORM_data8: nat := 0x07
  const FORM_string: nat := 0x08
  const FORM_block: nat := 0x09
  const FORM_block1: nat := 0x0a
  const FORM_data1: nat := 0x0b
  const FORM_flag: nat := 0x0c
  const FORM_sdata: nat := 0x0d
  const FORM_strp: nat := 0x0e
  const FORM_udata: nat := 0x0f
  const FORM_ref_addr: nat := 0x10
  const FORM_ref1: nat := 0x11
  const FORM_ref2: nat := 0x12
  const FORM_ref4: nat := 0x13
  const FORM_ref8: nat := 0x14
  const FORM_ref_udata: nat := 0x15
  const FORM_indirect: nat := 0x16
  const FORM_sec_offset: nat := 0x17
  const FORM_exprloc: nat := 0x18
  const FORM_flag_present: nat := 0x19
  const FORM_strx: nat := 0x1a
  const FORM_addrx: nat := 0x1b
  const FORM_ref_sup4: nat := 0x1c
  const FORM_strp_sup: nat := 0x1d
  const FORM_data16: nat := 0x1e
  const FORM_line_ptr: nat := 0x1f
  const FORM_ref_sig8: nat := 0x20
  const FORM_implicit_const: nat := 0x21
  const FORM_loclistx: nat := 0x22
  const FORM_rnglistx: nat := 0x23
  const FORM_ref_sup8: nat := 0x24
  const FORM_strx1: nat := 0x25
  const FORM_strx2: nat := 0x26
  const FORM_strx3: nat := 0x27
  const FORM_strx4: nat := 0x28
  const FORM_addrx1: nat := 0x29
  const FORM_addrx2: nat := 0x2a
  const FORM_addrx3: nat := 0x2b
  const FORM_addrx4: nat := 0x2c

  // Tags.
  const TAG_enumeration_type: nat := 0x04
  const TAG_member: nat := 0x0d
  const TAG_pointer_type: nat := 0x0f
  const TAG_structure_type: nat := 0x13
  const TAG_subroutine_type: nat := 0x15
  const TAG_typedef: nat := 0x16
  const TAG_union_type: nat := 0x17
  const TAG_base_type: nat := 0x24
  const TAG_enumerator: nat := 0x28

  // Attribute names.
  const AT_name: nat := 0x03
  const AT_byte_size: nat := 0x0b
  const AT_comp_dir: nat := 0x1b
  const AT_const_value: nat := 0x1c
  const AT_data_member_location: nat := 0x38
  const AT_type: nat := 0x49

  // Unit types (DWARF 5).
  const UT_type: nat := 0x02
  const UT_skeleton: nat := 0x04
  const UT_split_compile: nat := 0x05
  const UT_split_type: nat := 0x06

  // Standard line-number opcodes.
  const LNS_copy: nat := 1
  const LNS_advance_pc: nat := 2
  const LNS_advance_line: nat := 3
  const LNS_set_file: nat := 4
  const LNS_set_column: nat := 5
  const LNS_negate_stmt: nat := 6
  const LNS_set_basic_block: nat := 7
  const LNS_const_add_pc: nat := 8
  const LNS_fixed_advance_pc: nat := 9
  const LNS_set_prologue_end: nat := 10
  const LNS_set_epilogue_begin: nat := 11
  const LNS_set_isa: nat := 12

  // Extended line-number opcodes.
  const LNE_end_sequence: nat := 1
  const LNE_set_address: nat := 2
  const LNE_define_file: nat := 3
  const LNE_set_discriminator: nat := 4

  /** The initial-length value that announces the 64-bit format (section 7.4 of DWARF 4). */
  const INIT_LEN_64: nat := 0xffff_ffff
}
