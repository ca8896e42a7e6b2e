/**
 * Type reconstruction over the DIE arrays of the decoded units
 * (r_bin_dwarf_parse_types and its helpers in libr/bin/dwarf.c). Structure
 * and enumeration DIEs are the roots; their direct members and enumerators
 * are found by counting nesting depth through the flat pre-order array; a
 * member's type string is resolved by following DW_AT_type references.
 */
module TypeRecon {
  import opened Wrappers
  import opened Bytes
  import opened AttrValue
  import opened OffsetSearch
  import I = Info
  import C = DwarfConstants

  /* ---------------- attribute lookup ---------------- */

  /** find_attr_idx: the index of the first attribute with the name, -1 when there is none. */
  function AttrIndex(attrs: seq<Attr>, name: nat): (r: int)
    ensures -1 <= r < |attrs|
  {
    if |attrs| == 0 then -1
    else if attrs[0].name == name then 0
    else
      var r := AttrIndex(attrs[1..], name);
      if r == -1 then -1 else r + 1
  }

  /** The index is the first attribute with the name; -1 exactly when no attribute has it. */
  lemma {:induction false} AttrIndexIsFirst(attrs: seq<Attr>, name: nat)
    ensures AttrIndex(attrs, name) >= 0 ==>
      attrs[AttrIndex(attrs, name)].name == name && forall k :: 0 <= k < AttrIndex(attrs, name) ==> attrs[k].name != name
    ensures AttrIndex(attrs, name) == -1 <==> forall k :: 0 <= k < |attrs| ==> attrs[k].name != name
  {
    if |attrs| > 0 && attrs[0].name != name {
      AttrIndexIsFirst(attrs[1..], name);
      forall k | 1 <= k < |attrs| ensures attrs[k] == attrs[1..][k - 1] {
      }
    }
  }

  /** The loop of find_attr_idx. */
  method FindAttrIdx(attrs: seq<Attr>, name: nat) returns (r: int)
    ensures r == AttrIndex(attrs, name)
  {
    var i := 0;
    while i < |attrs|
      invariant i <= |attrs|
      invariant forall k :: 0 <= k < i ==> attrs[k].name != name
    {
      if attrs[i].name == name {
        AttrIndexIsFirst(attrs, name);
        return i;
      }
      i := i + 1;
    }
    AttrIndexIsFirst(attrs, name);
    return -1;
  }

  /** `attr_values[i].string.content`: the characters of a string value, None for a NULL content or another member. */
  function StringOf(a: Attr): Option<string>
  {
    if a.value.Str? then a.value.content else None
  }

  /** The name of a DIE as its first DW_AT_name gives it. */
  function NameOf(d: I.Die): Option<string>
  {
    var i := AttrIndex(d.attrs, C.AT_name);
    if i >= 0 then StringOf(d.attrs[i]) else None
  }

  /* ---------------- parse_type ---------------- */

  function Offsets(dies: seq<I.Die>): (r: seq<nat>)
    ensures |r| == |dies|
    ensures forall k :: 0 <= k < |dies| ==> r[k] == dies[k].offset
  {
    seq(|dies|, k requires 0 <= k < |dies| => dies[k].offset)
  }

  /** The DIE the `bsearch` with die_tag_cmp finds for an offset. */
  function DieIndex(dies: seq<I.Die>, offset: nat): (r: Option<nat>)
    ensures r.Some? ==> r.value < |dies| && dies[r.value].offset == offset
    ensures r.None? ==> forall k :: 0 <= k < |dies| ==> dies[k].offset != offset
  {
    IndexOf(Offsets(dies), offset)
  }

  /** In a unit's DIE array, whose offsets increase, the search finds exactly the DIE at that offset. */
  lemma DieLookup(dies: seq<I.Die>, k: nat)
    requires I.OffsetsIncrease(dies) && k < |dies|
    ensures DieIndex(dies, dies[k].offset) == Some(k)
  {
    IndexOfUnique(Offsets(dies), dies[k].offset, k);
  }

  /** The binary search itself agrees with DieIndex on a unit's DIE array. */
  method FindDie(dies: seq<I.Die>, offset: nat) returns (r: Option<nat>)
    requires I.OffsetsIncrease(dies)
    ensures r == DieIndex(dies, offset)
  {
    r := BinarySearch(Offsets(dies), offset);
  }

  predicate IsNamedType(tag: nat)
  {
    tag == C.TAG_base_type || tag == C.TAG_structure_type || tag == C.TAG_enumeration_type || tag == C.TAG_typedef
  }

  /** The text a pointer or subroutine type appends to the string of its target. */
  function Suffix(tag: nat): string
  {
    if tag == C.TAG_pointer_type then " *" else " ()"
  }

  /**
   * parse_type: the type string written into `buf` for the DIE at `offset`.
   * A named type gives its name; a pointer or subroutine type gives its
   * target's string followed by its suffix; any other tag, an offset not in
   * the array, or a name that is missing leaves the buffer as it was. `fuel`
   * bounds the chain of references.
   */
  function ParseType(dies: seq<I.Die>, offset: nat, buf: string, fuel: nat): (r: string)
    decreases fuel
  {
    match DieIndex(dies, offset)
    case None => buf
    case Some(k) =>
      var d := dies[k];
      if IsNamedType(d.tag) then
        var name := NameOf(d);
        if name.Some? then name.value else buf
      else if d.tag == C.TAG_pointer_type || d.tag == C.TAG_subroutine_type then
        var i := AttrIndex(d.attrs, C.AT_type);
        if fuel == 0 then buf
        else if i < 0 then buf + Suffix(d.tag)
        else ParseType(dies, Word(d.attrs[i].value), buf, fuel - 1) + Suffix(d.tag)
      else buf
  }

  /** A named type at an offset of the array gives its first name, whatever was in the buffer. */
  lemma NamedTypeGivesName(dies: seq<I.Die>, k: nat, i: nat, buf: string, fuel: nat, o: nat, s: string)
    requires I.OffsetsIncrease(dies) && k < |dies| && IsNamedType(dies[k].tag)
    requires i < |dies[k].attrs| && dies[k].attrs[i] == Attr(C.AT_name, dies[k].attrs[i].form, Str(o, Some(s)))
    requires forall j :: 0 <= j < i ==> dies[k].attrs[j].name != C.AT_name
    ensures ParseType(dies, dies[k].offset, buf, fuel) == s
  {
    DieLookup(dies, k);
    AttrIndexIsFirst(dies[k].attrs, C.AT_name);
  }

  /** A pointer (subroutine) type is its target's string followed by " *" (" ()"). */
  lemma WrapperAppendsSuffix(dies: seq<I.Die>, k: nat, i: nat, buf: string, fuel: nat)
    requires I.OffsetsIncrease(dies) && k < |dies| && 0 < fuel
    requires dies[k].tag == C.TAG_pointer_type || dies[k].tag == C.TAG_subroutine_type
    requires i < |dies[k].attrs| && dies[k].attrs[i].name == C.AT_type
    requires forall j :: 0 <= j < i ==> dies[k].attrs[j].name != C.AT_type
    ensures dies[k].tag == C.TAG_pointer_type ==>
      ParseType(dies, dies[k].offset, buf, fuel) == ParseType(dies, Word(dies[k].attrs[i].value), buf, fuel - 1) + " *"
    ensures dies[k].tag == C.TAG_subroutine_type ==>
      ParseType(dies, dies[k].offset, buf, fuel) == ParseType(dies, Word(dies[k].attrs[i].value), buf, fuel - 1) + " ()"
  {
    DieLookup(dies, k);
    AttrIndexIsFirst(dies[k].attrs, C.AT_type);
  }

  /** An offset that no DIE of the array has leaves the buffer unchanged. */
  lemma UnknownOffsetKeepsBuffer(dies: seq<I.Die>, offset: nat, buf: string, fuel: nat)
    requires forall k :: 0 <= k < |dies| ==> dies[k].offset != offset
    ensures ParseType(dies, offset, buf, fuel) == buf
  {
  }

  /** A DIE of any other tag leaves the buffer unchanged. */
  lemma OtherTagKeepsBuffer(dies: seq<I.Die>, k: nat, buf: string, fuel: nat)
    requires I.OffsetsIncrease(dies) && k < |dies|
    requires !IsNamedType(dies[k].tag) && dies[k].tag != C.TAG_pointer_type && dies[k].tag != C.TAG_subroutine_type
    ensures ParseType(dies, dies[k].offset, buf, fuel) == buf
  {
    DieLookup(dies, k);
  }

  /** `int **` : a base type "int" at 0x10, a pointer to it at 0x20, a pointer to that at 0x30. */
  lemma PointerToPointerToInt()
    ensures
      var int_ := I.Die(0x10, 1, C.TAG_base_type, 0, [Attr(C.AT_name, C.FORM_string, Str(0, Some("int")))]);
      var p1 := I.Die(0x20, 2, C.TAG_pointer_type, 0, [Attr(C.AT_type, C.FORM_ref4, Reference(0x10))]);
      var p2 := I.Die(0x30, 2, C.TAG_pointer_type, 0, [Attr(C.AT_type, C.FORM_ref4, Reference(0x20))]);
      ParseType([int_, p1, p2], 0x30, "", 3) == "int * *"
  {
    var int_ := I.Die(0x10, 1, C.TAG_base_type, 0, [Attr(C.AT_name, C.FORM_string, Str(0, Some("int")))]);
    var p1 := I.Die(0x20, 2, C.TAG_pointer_type, 0, [Attr(C.AT_type, C.FORM_ref4, Reference(0x10))]);
    var p2 := I.Die(0x30, 2, C.TAG_pointer_type, 0, [Attr(C.AT_type, C.FORM_ref4, Reference(0x20))]);
    var dies := [int_, p1, p2];
    assert I.OffsetsIncrease(dies);
    NamedTypeGivesName(dies, 0, 0, "", 1, 0, "int");
    WrapperAppendsSuffix(dies, 1, 0, "", 2);
    WrapperAppendsSuffix(dies, 2, 0, "", 3);
  }

  /* ---------------- parse_struct_member and parse_enumerator ---------------- */

  /** RAnalStructMember: name and type strings (NULL when never set) and the offset as an `int`. */
  datatype StructMember = StructMember(name: Option<string>, typ: Option<string>, offset: int)

  /** The locals of parse_struct_member's attribute loop: the type buffer starts empty. */
  datatype MemberScan = MemberScan(name: Option<string>, typ: Option<string>, buf: string, location: nat)

  function MemberAttr(dies: seq<I.Die>, s: MemberScan, a: Attr): MemberScan
  {
    if a.name == C.AT_name then s.(name := StringOf(a))
    else if a.name == C.AT_type then
      var b := ParseType(dies, Word(a.value), s.buf, |dies|);
      s.(buf := b, typ := Some(b))
    else if a.name == C.AT_data_member_location then s.(location := Word(a.value))
    else s
  }

  /** The attribute loop of parse_struct_member over `attrs`, in order. */
  function ScanMember(dies: seq<I.Die>, attrs: seq<Attr>): MemberScan
  {
    if attrs == [] then MemberScan(None, None, "", 0)
    else MemberAttr(dies, ScanMember(dies, attrs[..|attrs| - 1]), attrs[|attrs| - 1])
  }

  function MemberOf(dies: seq<I.Die>, d: I.Die): StructMember
  {
    var s := ScanMember(dies, d.attrs);
    StructMember(s.name, s.typ, ToInt32(s.location))
  }

  /** The member's name is the content of its last DW_AT_name. */
  lemma {:induction false} LastNameWins(dies: seq<I.Die>, attrs: seq<Attr>, i: nat)
    requires i < |attrs| && attrs[i].name == C.AT_name
    requires forall j :: i < j < |attrs| ==> attrs[j].name != C.AT_name
    ensures ScanMember(dies, attrs).name == StringOf(attrs[i])
    decreases |attrs|
  {
    if i < |attrs| - 1 {
      var init := attrs[..|attrs| - 1];
      LastNameWins(dies, init, i);
    }
  }

  /** The member's offset is the word of its last DW_AT_data_member_location, truncated to `int`. */
  lemma {:induction false} LastLocationWins(dies: seq<I.Die>, attrs: seq<Attr>, i: nat)
    requires i < |attrs| && attrs[i].name == C.AT_data_member_location
    requires forall j :: i < j < |attrs| ==> attrs[j].name != C.AT_data_member_location
    ensures ScanMember(dies, attrs).location == Word(attrs[i].value)
    decreases |attrs|
  {
    if i < |attrs| - 1 {
      var init := attrs[..|attrs| - 1];
      LastLocationWins(dies, init, i);
    }
  }

  /** Without a DW_AT_type the member has no type string and the buffer stays empty. */
  lemma {:induction false} NoTypeAttrNoType(dies: seq<I.Die>, attrs: seq<Attr>)
    requires forall j :: 0 <= j < |attrs| ==> attrs[j].name != C.AT_type
    ensures ScanMember(dies, attrs).typ == None && ScanMember(dies, attrs).buf == ""
    decreases |attrs|
  {
    if attrs != [] {
      NoTypeAttrNoType(dies, attrs[..|attrs| - 1]);
    }
  }

  /** With one DW_AT_type the member's type is the string parse_type gives its reference from an empty buffer. */
  lemma {:induction false} OneTypeAttr(dies: seq<I.Die>, attrs: seq<Attr>, i: nat)
    requires i < |attrs| && attrs[i].name == C.AT_type
    requires forall j :: 0 <= j < |attrs| && j != i ==> attrs[j].name != C.AT_type
    ensures ScanMember(dies, attrs).typ == Some(ParseType(dies, Word(attrs[i].value), "", |dies|))
    decreases |attrs|
  {
    var init := attrs[..|attrs| - 1];
    if i < |attrs| - 1 {
      OneTypeAttr(dies, init, i);
    } else {
      NoTypeAttrNoType(dies, init);
    }
  }

  /** The attribute loop of parse_struct_member. */
  method ParseStructMember(dies: seq<I.Die>, idx: nat) returns (m: StructMember)
    requires idx < |dies|
    ensures m == MemberOf(dies, dies[idx])
  {
    var attrs := dies[idx].attrs;
    var name: Option<string> := None;
    var typ: Option<string> := None;
    var buf: string := "";
    var location: nat := 0;
    var i := 0;
    while i < |attrs|
      invariant i <= |attrs|
      invariant MemberScan(name, typ, buf, location) == ScanMember(dies, attrs[..i])
    {
      assert attrs[..i + 1][..i] == attrs[..i];
      var a := attrs[i];
      if a.name == C.AT_name {
        name := StringOf(a);
      } else if a.name == C.AT_type {
        buf := ParseType(dies, Word(a.value), buf, |dies|);
        typ := Some(buf);
      } else if a.name == C.AT_data_member_location {
        location := Word(a.value);
      }
      i := i + 1;
    }
    assert attrs[..i] == attrs;
    m := StructMember(name, typ, ToInt32(location));
  }

  /** RAnalEnumCase: the name and the constant as an `int`. */
  datatype EnumCase = EnumCase(name: Option<string>, value: int)

  /** The locals of parse_enumerator's attribute loop: the value starts as 0. */
  datatype CaseScan = CaseScan(name: Option<string>, constant: nat)

  function CaseAttr(s: CaseScan, a: Attr): CaseScan
  {
    if a.name == C.AT_name then s.(name := StringOf(a))
    else if a.name == C.AT_const_value then s.(constant := Word(a.value))
    else s
  }

  function ScanCase(attrs: seq<Attr>): CaseScan
  {
    if attrs == [] then CaseScan(None, 0)
    else CaseAttr(ScanCase(attrs[..|attrs| - 1]), attrs[|attrs| - 1])
  }

  function CaseOf(d: I.Die): EnumCase
  {
    var s := ScanCase(d.attrs);
    EnumCase(s.name, ToInt32(s.constant))
  }

  /** The enumerator's value is the word of its last DW_AT_const_value truncated to `int`; 0 when it has none. */
  lemma {:induction false} CaseValue(attrs: seq<Attr>, i: int)
    requires -1 <= i < |attrs|
    requires i >= 0 ==> attrs[i].name == C.AT_const_value
    requires forall j :: i < j < |attrs| ==> attrs[j].name != C.AT_const_value
    ensures i >= 0 ==> ScanCase(attrs).constant == Word(attrs[i].value)
    ensures i == -1 ==> ScanCase(attrs).constant == 0
    decreases |attrs|
  {
    if |attrs| > 0 && i < |attrs| - 1 {
      CaseValue(attrs[..|attrs| - 1], i);
    }
  }

  /** The attribute loop of parse_enumerator. */
  method ParseEnumerator(dies: seq<I.Die>, idx: nat) returns (c: EnumCase)
    requires idx < |dies|
    ensures c == CaseOf(dies[idx])
  {
    var attrs := dies[idx].attrs;
    var name: Option<string> := None;
    var constant: nat := 0;
    var i := 0;
    while i < |attrs|
      invariant i <= |attrs|
      invariant CaseScan(name, constant) == ScanCase(attrs[..i])
    {
      assert attrs[..i + 1][..i] == attrs[..i];
      if attrs[i].name == C.AT_name {
        name := StringOf(attrs[i]);
      } else if attrs[i].name == C.AT_const_value {
        constant := Word(attrs[i].value);
      }
      i := i + 1;
    }
    assert attrs[..i] == attrs;
    c := EnumCase(name, ToInt32(constant));
  }

  /* ---------------- the depth walk ---------------- */

  /** The nesting depth after one DIE: up for a DIE with children, down for a null DIE. */
  function NextDepth(d: I.Die, depth: int): int
  {
    depth + (if d.hasChildren != 0 then 1 else 0) - (if d.code == 0 then 1 else 0)
  }

  /**
   * The children loop of parse_structure_type and parse_enum_type from index
   * `j` at depth `depth`: the indices of the DIEs with `tag` met at depth 1,
   * until the depth falls to 0 or the array ends.
   */
  function ChildrenFrom(dies: seq<I.Die>, j: nat, depth: int, tag: nat): (r: seq<nat>)
    ensures forall n :: 0 <= n < |r| ==> j <= r[n] < |dies| && dies[r[n]].tag == tag
    decreases |dies| - j
  {
    if depth <= 0 || j >= |dies| then []
    else
      var here := if depth == 1 && dies[j].tag == tag then [j] else [];
      here + ChildrenFrom(dies, j + 1, NextDepth(dies[j], depth), tag)
  }

  /** The depth in front of index `j` when the walk starts at `start` with depth 1. */
  function Depth(dies: seq<I.Die>, start: nat, j: nat): int
    requires start <= j <= |dies|
    decreases j - start
  {
    if j == start then 1 else NextDepth(dies[j - 1], Depth(dies, start, j - 1))
  }

  /** The walk has not stopped before reaching index `j`. */
  predicate Open(dies: seq<I.Die>, start: nat, j: nat)
    requires start <= j <= |dies|
  {
    forall p :: start <= p <= j ==> Depth(dies, start, p) > 0
  }

  lemma {:induction false} ChildrenFromIff(dies: seq<I.Die>, start: nat, j: nat, tag: nat, k: nat)
    requires start <= j <= |dies| && Open(dies, start, j)
    ensures k in ChildrenFrom(dies, j, Depth(dies, start, j), tag) <==>
      j <= k < |dies| && dies[k].tag == tag && Depth(dies, start, k) == 1 && Open(dies, start, k)
    decreases |dies| - j
  {
    if j < |dies| {
      var depth := Depth(dies, start, j);
      var next := Depth(dies, start, j + 1);
      assert next == NextDepth(dies[j], depth);
      var here := if depth == 1 && dies[j].tag == tag then [j] else [];
      assert ChildrenFrom(dies, j, depth, tag) == here + ChildrenFrom(dies, j + 1, next, tag);
      if next > 0 {
        assert Open(dies, start, j + 1);
        ChildrenFromIff(dies, start, j + 1, tag, k);
      } else if k > j && k < |dies| {
        assert Depth(dies, start, j + 1) <= 0;
        assert !Open(dies, start, k);
      }
    }
  }

  /**
   * A DIE after the root at `idx` is collected exactly when it has the tag,
   * sits at depth 1 and no earlier DIE closed the root's children.
   */
  lemma DirectChildren(dies: seq<I.Die>, idx: nat, tag: nat, k: nat)
    requires idx < |dies|
    ensures k in ChildrenFrom(dies, idx + 1, 1, tag) <==>
      idx < k < |dies| && dies[k].tag == tag && Depth(dies, idx + 1, k) == 1 && Open(dies, idx + 1, k)
  {
    ChildrenFromIff(dies, idx + 1, idx + 1, tag, k);
  }

  /** A structure whose member list holds a nested union: only the direct members, and nothing after the closing null DIE. */
  lemma NestedMemberSkipped()
    ensures
      var s := I.Die(0, 1, C.TAG_structure_type, 1, []);
      var m := I.Die(1, 2, C.TAG_member, 0, []);
      var u := I.Die(2, 3, C.TAG_union_type, 1, []);
      var z := I.NullDie(3);
      ChildrenFrom([s, m, u, m, z, m, z, m], 1, 1, C.TAG_member) == [1, 5]
  {
    var s := I.Die(0, 1, C.TAG_structure_type, 1, []);
    var m := I.Die(1, 2, C.TAG_member, 0, []);
    var u := I.Die(2, 3, C.TAG_union_type, 1, []);
    var z := I.NullDie(3);
    var ds := [s, m, u, m, z, m, z, m];
    assert ChildrenFrom(ds, 7, 0, C.TAG_member) == [];
    assert ChildrenFrom(ds, 6, 1, C.TAG_member) == [];
    assert ChildrenFrom(ds, 5, 1, C.TAG_member) == [5];
    assert ChildrenFrom(ds, 4, 2, C.TAG_member) == [5];
    assert ChildrenFrom(ds, 3, 2, C.TAG_member) == [5];
    assert ChildrenFrom(ds, 2, 1, C.TAG_member) == [5];
  }

  lemma ChildrenStep(dies: seq<I.Die>, j: nat, depth: int, tag: nat)
    requires 0 < depth && j < |dies|
    ensures ChildrenFrom(dies, j, depth, tag) ==
      (if depth == 1 && dies[j].tag == tag then [j] else []) + ChildrenFrom(dies, j + 1, NextDepth(dies[j], depth), tag)
  {
  }

  lemma IndexAssoc(a: seq<nat>, b: seq<nat>, c: seq<nat>)
    ensures a + (b + c) == (a + b) + c
    ensures a + [] == a && [] + c == c
  {
  }

  function MembersOf(dies: seq<I.Die>, ks: seq<nat>): seq<StructMember>
    requires forall n :: 0 <= n < |ks| ==> ks[n] < |dies|
  {
    if ks == [] then [] else MembersOf(dies, ks[..|ks| - 1]) + [MemberOf(dies, dies[ks[|ks| - 1]])]
  }

  function CasesOf(dies: seq<I.Die>, ks: seq<nat>): seq<EnumCase>
    requires forall n :: 0 <= n < |ks| ==> ks[n] < |dies|
  {
    if ks == [] then [] else CasesOf(dies, ks[..|ks| - 1]) + [CaseOf(dies[ks[|ks| - 1]])]
  }

  lemma MembersSnoc(dies: seq<I.Die>, ks: seq<nat>, k: nat)
    requires forall n :: 0 <= n < |ks| ==> ks[n] < |dies|
    requires k < |dies|
    ensures MembersOf(dies, ks + [k]) == MembersOf(dies, ks) + [MemberOf(dies, dies[k])]
    ensures CasesOf(dies, ks + [k]) == CasesOf(dies, ks) + [CaseOf(dies[k])]
  {
    assert (ks + [k])[..|ks|] == ks;
  }

  /** A reconstructed type (RAnalBaseType of kind struct or enum). */
  datatype BaseType =
    | Struct(name: Option<string>, members: seq<StructMember>)
    | Enum(name: Option<string>, size: Option<nat>, cases: seq<EnumCase>)

  /**
   * What parse_enum_type shows of an enumeration: its name and the size
   * word of its DW_AT_byte_size when it has both attributes, and no name
   * otherwise.
   */
  function EnumHeading(d: I.Die): (Option<string>, Option<nat>)
  {
    var n := AttrIndex(d.attrs, C.AT_name);
    var b := AttrIndex(d.attrs, C.AT_byte_size);
    if n >= 0 && b >= 0 then (StringOf(d.attrs[n]), Some(Word(d.attrs[b].value))) else (None, None)
  }

  predicate IsTypeRoot(tag: nat)
  {
    tag == C.TAG_structure_type || tag == C.TAG_enumeration_type
  }

  /** The type the root at `idx` gives: the name shown for it, and its direct members or enumerators in DIE order. */
  function TypeAt(dies: seq<I.Die>, idx: nat): (r: BaseType)
    requires idx < |dies| && IsTypeRoot(dies[idx].tag)
  {
    var d := dies[idx];
    if d.tag == C.TAG_structure_type then
      Struct(NameOf(d), if d.hasChildren != 0 then MembersOf(dies, ChildrenFrom(dies, idx + 1, 1, C.TAG_member)) else [])
    else
      var (name, size) := EnumHeading(d);
      Enum(name, size, if d.hasChildren != 0 then CasesOf(dies, ChildrenFrom(dies, idx + 1, 1, C.TAG_enumerator)) else [])
  }

  /**
   * An enumeration keeps its name only together with a DW_AT_byte_size,
   * whose first occurrence gives the size; without either it has neither.
   */
  lemma EnumNameNeedsSize(dies: seq<I.Die>, idx: nat)
    requires idx < |dies| && dies[idx].tag == C.TAG_enumeration_type
    ensures var t := TypeAt(dies, idx);
      var d := dies[idx];
      var b := AttrIndex(d.attrs, C.AT_byte_size);
      && t.Enum?
      && (AttrIndex(d.attrs, C.AT_name) >= 0 && b >= 0 ==> t.name == NameOf(d) && t.size == Some(Word(d.attrs[b].value)))
      && (AttrIndex(d.attrs, C.AT_name) < 0 || b < 0 ==> t.name == None && t.size == None)
  {
  }

  /** parse_structure_type: the root's name and its direct members, in order. */
  method ParseStructureType(dies: seq<I.Die>, idx: nat) returns (t: BaseType)
    requires idx < |dies| && dies[idx].tag == C.TAG_structure_type
    ensures t == TypeAt(dies, idx)
  {
    var nameIdx := FindAttrIdx(dies[idx].attrs, C.AT_name);
    var name := if nameIdx >= 0 then StringOf(dies[idx].attrs[nameIdx]) else None;
    var members: seq<StructMember> := [];
    if dies[idx].hasChildren != 0 {
      var depth := 1;
      var j := idx + 1;
      ghost var ks: seq<nat> := [];
      while depth > 0 && j < |dies|
        invariant idx < j
        invariant forall n :: 0 <= n < |ks| ==> ks[n] < |dies|
        invariant ks + ChildrenFrom(dies, j, depth, C.TAG_member) == ChildrenFrom(dies, idx + 1, 1, C.TAG_member)
        invariant members == MembersOf(dies, ks)
        decreases |dies| - j
      {
        ChildrenStep(dies, j, depth, C.TAG_member);
        ghost var rest := ChildrenFrom(dies, j + 1, NextDepth(dies[j], depth), C.TAG_member);
        if depth == 1 && dies[j].tag == C.TAG_member {
          IndexAssoc(ks, [j], rest);
          var m := ParseStructMember(dies, j);
          MembersSnoc(dies, ks, j);
          members := members + [m];
          ks := ks + [j];
        } else {
          IndexAssoc(ks, [], rest);
        }
        depth := NextDepth(dies[j], depth);
        j := j + 1;
      }
      assert ks + [] == ks;
    }
    t := Struct(name, members);
  }

  /** parse_enum_type: the root's name and size as shown, and its direct enumerators, in order. */
  method ParseEnumType(dies: seq<I.Die>, idx: nat) returns (t: BaseType)
    requires idx < |dies| && dies[idx].tag == C.TAG_enumeration_type
    ensures t == TypeAt(dies, idx)
  {
    var nameIdx := FindAttrIdx(dies[idx].attrs, C.AT_name);
    var sizeIdx := FindAttrIdx(dies[idx].attrs, C.AT_byte_size);
    var name, size := None, None;
    if nameIdx >= 0 && sizeIdx >= 0 {
      name, size := StringOf(dies[idx].attrs[nameIdx]), Some(Word(dies[idx].attrs[sizeIdx].value));
    }
    var cases: seq<EnumCase> := [];
    if dies[idx].hasChildren != 0 {
      var depth := 1;
      var j := idx + 1;
      ghost var ks: seq<nat> := [];
      while depth > 0 && j < |dies|
        invariant idx < j
        invariant forall n :: 0 <= n < |ks| ==> ks[n] < |dies|
        invariant ks + ChildrenFrom(dies, j, depth, C.TAG_enumerator) == ChildrenFrom(dies, idx + 1, 1, C.TAG_enumerator)
        invariant cases == CasesOf(dies, ks)
        decreases |dies| - j
      {
        ChildrenStep(dies, j, depth, C.TAG_enumerator);
        ghost var rest := ChildrenFrom(dies, j + 1, NextDepth(dies[j], depth), C.TAG_enumerator);
        if depth == 1 && dies[j].tag == C.TAG_enumerator {
          IndexAssoc(ks, [j], rest);
          var c := ParseEnumerator(dies, j);
          MembersSnoc(dies, ks, j);
          cases := cases + [c];
          ks := ks + [j];
        } else {
          IndexAssoc(ks, [], rest);
        }
        depth := NextDepth(dies[j], depth);
        j := j + 1;
      }
      assert ks + [] == ks;
    }
    t := Enum(name, size, cases);
  }

  /* ---------------- r_bin_dwarf_parse_types ---------------- */

  /** The indices below `j` of the structure and enumeration roots. */
  function Roots(dies: seq<I.Die>, j: nat): (r: seq<nat>)
    requires j <= |dies|
  {
    if j == 0 then []
    else Roots(dies, j - 1) + (if IsTypeRoot(dies[j - 1].tag) then [j - 1] else [])
  }

  /** The roots below `j` are exactly the structure and enumeration DIEs there, in increasing order. */
  lemma {:induction false} RootsExactly(dies: seq<I.Die>, j: nat)
    requires j <= |dies|
    ensures forall n :: 0 <= n < |Roots(dies, j)| ==> Roots(dies, j)[n] < j && IsTypeRoot(dies[Roots(dies, j)[n]].tag)
    ensures forall k: nat :: k in Roots(dies, j) <==> k < j && IsTypeRoot(dies[k].tag)
    ensures forall n, m :: 0 <= n < m < |Roots(dies, j)| ==> Roots(dies, j)[n] < Roots(dies, j)[m]
  {
    if j > 0 {
      RootsExactly(dies, j - 1);
    }
  }

  /** The types of the roots `ks`, one for one. */
  function TypesOf(dies: seq<I.Die>, ks: seq<nat>): (r: seq<BaseType>)
    requires forall n :: 0 <= n < |ks| ==> ks[n] < |dies| && IsTypeRoot(dies[ks[n]].tag)
    ensures |r| == |ks|
  {
    seq(|ks|, n requires 0 <= n < |ks| => TypeAt(dies, ks[n]))
  }

  /** The types of the roots below index `j`, in DIE order. */
  function TypesUpTo(dies: seq<I.Die>, j: nat): seq<BaseType>
    requires j <= |dies|
  {
    RootsExactly(dies, j);
    TypesOf(dies, Roots(dies, j))
  }

  /**
   * The inner loop of r_bin_dwarf_parse_types, one DIE further: a structure
   * or enumeration root adds its type at the end, any other DIE adds nothing.
   */
  lemma TypesUpToStep(dies: seq<I.Die>, j: nat)
    requires j < |dies|
    ensures TypesUpTo(dies, j + 1) == TypesUpTo(dies, j) + (if IsTypeRoot(dies[j].tag) then [TypeAt(dies, j)] else [])
  {
    RootsExactly(dies, j);
    RootsExactly(dies, j + 1);
    var ks := Roots(dies, j);
    assert Roots(dies, j + 1)[..|ks|] == ks;
  }

  /** The types of one unit: one per structure or enumeration DIE, in DIE order. */
  function UnitTypes(dies: seq<I.Die>): seq<BaseType>
  {
    TypesUpTo(dies, |dies|)
  }

  /** The types of all units, unit after unit. */
  function AllTypes(units: seq<I.Unit>): seq<BaseType>
  {
    if units == [] then [] else AllTypes(units[..|units| - 1]) + UnitTypes(units[|units| - 1].dies)
  }

  /** The inner loop of r_bin_dwarf_parse_types over the DIEs of one unit. */
  method ParseUnitTypes(dies: seq<I.Die>) returns (types: seq<BaseType>)
    ensures types == UnitTypes(dies)
  {
    types := [];
    var j := 0;
    while j < |dies|
      invariant j <= |dies|
      invariant types == TypesUpTo(dies, j)
    {
      TypesUpToStep(dies, j);
      if IsTypeRoot(dies[j].tag) {
        var t := ParseRootType(dies, j);
        types := types + [t];
      } else {
        assert types + [] == types;
      }
      j := j + 1;
    }
  }

  /** parse_types: a structure root or an enumeration root. */
  method ParseRootType(dies: seq<I.Die>, idx: nat) returns (t: BaseType)
    requires idx < |dies| && IsTypeRoot(dies[idx].tag)
    ensures t == TypeAt(dies, idx)
  {
    if dies[idx].tag == C.TAG_structure_type {
      t := ParseStructureType(dies, idx);
    } else {
      t := ParseEnumType(dies, idx);
    }
  }

  /** r_bin_dwarf_parse_types: every unit's types, unit after unit. */
  method ParseTypes(units: seq<I.Unit>) returns (types: seq<BaseType>)
    ensures types == AllTypes(units)
  {
    types := [];
    var i := 0;
    while i < |units|
      invariant i <= |units|
      invariant types == AllTypes(units[..i])
    {
      assert units[..i + 1][..i] == units[..i];
      var t := ParseUnitTypes(units[i].dies);
      types := types + t;
      i := i + 1;
    }
    assert units[..i] == units;
  }
}
