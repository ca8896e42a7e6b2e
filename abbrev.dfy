/**
 * The .debug_abbrev decoder (parse_abbrev_raw): a table of abbreviation
 * declarations (section 7.5.3 of DWARF 4). Each declaration is a ULEB128 code,
 * a ULEB128 tag, a has-children byte and a list of (attribute, form) pairs
 * closed by a pair of zeros; an `implicit_const` form carries one extra
 * SLEB128 value in the table itself.
 */
module Abbrev {
  import opened Wrappers
  import opened Bytes
  import opened Leb128
  import C = DwarfConstants

  /** One (attribute, form) pair; `special` is the implicit constant, 0 for other forms. */
  datatype AttrDef = AttrDef(name: nat, form: nat, special: int)

  /** One declaration, with the section offset at which its code began. */
  datatype Decl = Decl(code: nat, tag: nat, offset: nat, hasChildren: byte, defs: seq<AttrDef>)

  /** What one turn of the outer loop does: skip a zero code, give up, or append a declaration. */
  datatype DeclStep = Skip(next: nat) | Stop | Found(decl: Decl, next: nat)

  /**
   * The definition list that starts at `pos`: pairs are read until one whose
   * attribute or form is 0 (that pair is kept), or until the attribute code
   * leaves no byte before the end.
   */
  function DefsFrom(data: seq<byte>, pos: nat, end: nat): (r: (seq<AttrDef>, nat))
    requires end <= |data|
    ensures pos <= r.1
    decreases end - pos
  {
    var (code, p1) := ULeb(data, pos, end);
    if p1 >= end then ([], p1)
    else
      var (d, p3) := FormAt(data, p1, end, code);
      if d.name != 0 && d.form != 0 then
        var (rest, n) := DefsFrom(data, p3, end);
        ([d] + rest, n)
      else
        ([d], p3)
  }

  /** The form of the pair whose attribute code was `code`, and its implicit constant if it has one. */
  function FormAt(data: seq<byte>, pos: nat, end: nat, code: nat): (r: (AttrDef, nat))
    requires end <= |data|
    ensures r.0.name == code && pos <= r.1
    ensures r.0.form != C.FORM_implicit_const ==> r.0.special == 0
  {
    var (form, p2) := ULeb(data, pos, end);
    var (special, p3) := if form == C.FORM_implicit_const then SLeb(data, p2, end) else (0, p2);
    (AttrDef(code, form, special), p3)
  }

  /** One turn of the outer loop of parse_abbrev_raw, starting at `pos` in a table of `|data|` bytes. */
  function DeclAt(data: seq<byte>, pos: nat): (r: DeclStep)
    requires pos < |data|
    ensures r.Skip? ==> pos < r.next
    ensures r.Found? ==> pos < r.next && r.decl.offset == pos && r.decl.code != 0
  {
    var len := |data|;
    var (code, p1) := ULeb(data, pos, len);
    if code == 0 || p1 >= len then Skip(p1)
    else
      var (tag, p2) := ULeb(data, p1, len);
      if p2 >= len then Stop
      else
        var (hc, p3) := ReadFixed(data, p2, len, 1);
        var (defs, p4) := DefsFrom(data, p3, len);
        Found(Decl(code, tag, pos, hc, defs), p4)
  }

  /** The declarations found from `pos` on, in table order. */
  function DeclsFrom(data: seq<byte>, pos: nat): (r: seq<Decl>)
    ensures forall i :: 0 <= i < |r| ==> pos <= r[i].offset < |data| && r[i].code != 0
    ensures forall i, j :: 0 <= i < j < |r| ==> r[i].offset < r[j].offset
    decreases |data| - pos
  {
    if pos + 1 >= |data| then []
    else
      match DeclAt(data, pos)
      case Skip(n) => DeclsFrom(data, n)
      case Stop => []
      case Found(d, n) => [d] + DeclsFrom(data, n)
  }

  /**
   * Every pair the loop reads but the last names an attribute and a form, and
   * only an `implicit_const` pair carries a constant.
   */
  lemma {:induction false} DefsFromShape(data: seq<byte>, pos: nat, end: nat)
    requires end <= |data|
    ensures PairsNamed(DefsFrom(data, pos, end).0)
    ensures ConstsOnlyImplicit(DefsFrom(data, pos, end).0)
    decreases end - pos
  {
    var (code, p1) := ULeb(data, pos, end);
    if p1 < end {
      var (d, p3) := FormAt(data, p1, end, code);
      DefsStep(data, pos, end, d, p1, p3);
      if d.name != 0 && d.form != 0 {
        DefsFromShape(data, p3, end);
        var rest := DefsFrom(data, p3, end).0;
        var defs := DefsFrom(data, pos, end).0;
        assert defs == [d] + rest;
        forall i | 1 <= i < |defs|
          ensures defs[i] == rest[i - 1]
        {
        }
      }
    }
  }

  /** parse_abbrev_raw: no table for fewer than 3 bytes, else every declaration found. */
  function AbbrevTable(data: seq<byte>): (r: Option<seq<Decl>>)
    ensures r.None? <==> |data| < 3
  {
    if |data| < 3 then None else Some(DeclsFrom(data, 0))
  }

  /** The offsets are strictly increasing, which is what a binary search by offset needs. */
  predicate SortedByOffset(decls: seq<Decl>)
  {
    forall i, j :: 0 <= i < j < |decls| ==> decls[i].offset < decls[j].offset
  }

  lemma AbbrevTableSorted(data: seq<byte>)
    requires AbbrevTable(data).Some?
    ensures SortedByOffset(AbbrevTable(data).value)
    ensures forall d :: d in AbbrevTable(data).value ==> d.code != 0 && d.offset < |data|
  {
  }

  /**
   * parse_abbrev_raw as the decoder runs it: a cursor loop that appends one
   * declaration per non-zero code, with an inner loop over the definitions.
   */
  method ParseAbbrevRaw(data: seq<byte>) returns (r: Option<seq<Decl>>)
    ensures r == AbbrevTable(data)
  {
    var len := |data|;
    if len < 3 {
      return None;
    }
    var decls: seq<Decl> := [];
    var pos: nat := 0;
    while pos + 1 < len
      invariant decls + DeclsFrom(data, pos) == DeclsFrom(data, 0)
      decreases len - pos
    {
      var offset := pos;
      var code, p1 := ULeb(data, pos, len).0, ULeb(data, pos, len).1;
      if code == 0 || p1 >= len {
        pos := p1;
        continue;
      }
      var tag, p2 := ULeb(data, p1, len).0, ULeb(data, p1, len).1;
      if p2 >= len {
        assert DeclAt(data, pos) == Stop;
        assert DeclsFrom(data, pos) == [];
        assert decls + [] == decls;
        return Some(decls);
      }
      var hc, p3 := ReadFixed(data, p2, len, 1).0, ReadFixed(data, p2, len, 1).1;
      var defs, p := ReadDefs(data, p3, len);
      var d := Decl(code, tag, offset, hc, defs);
      assert DeclAt(data, offset) == Found(d, p);
      decls := decls + [d];
      pos := p;
    }
    assert DeclsFrom(data, pos) == [];
    assert decls + [] == decls;
    return Some(decls);
  }

  /** The do/while loop over (attribute, form) pairs. */
  method ReadDefs(data: seq<byte>, start: nat, end: nat) returns (defs: seq<AttrDef>, next: nat)
    requires end <= |data|
    ensures (defs, next) == DefsFrom(data, start, end)
  {
    defs := [];
    var pos := start;
    var more := true;
    while more
      invariant more ==> defs + DefsFrom(data, pos, end).0 == DefsFrom(data, start, end).0
      invariant more ==> DefsFrom(data, pos, end).1 == DefsFrom(data, start, end).1
      invariant !more ==> (defs, pos) == DefsFrom(data, start, end)
      decreases (if more then 1 else 0) + (if pos < end then end - pos else 0)
    {
      var code, p1 := ULeb(data, pos, end).0, ULeb(data, pos, end).1;
      if p1 >= end {
        assert DefsFrom(data, pos, end) == ([], p1);
        assert defs + [] == defs;
        pos := p1;
        more := false;
      } else {
        var d, p3 := ReadForm(data, p1, end, code);
        DefsStep(data, pos, end, d, p1, p3);
        defs := defs + [d];
        pos := p3;
        more := d.name != 0 && d.form != 0;
      }
    }
    next := pos;
  }

  /** The form of one pair, then its implicit constant when the form calls for one. */
  method ReadForm(data: seq<byte>, pos: nat, end: nat, code: nat) returns (d: AttrDef, next: nat)
    requires end <= |data|
    ensures (d, next) == FormAt(data, pos, end, code)
  {
    var form, p2 := ULeb(data, pos, end).0, ULeb(data, pos, end).1;
    var special := 0;
    next := p2;
    if form == C.FORM_implicit_const {
      special, next := SLeb(data, p2, end).0, SLeb(data, p2, end).1;
    }
    d := AttrDef(code, form, special);
  }

  // ---------------------------------------------------------------------
  // Encoding: the inverse of the decoder on well-formed declarations.

  /** The form of a pair and, for `implicit_const`, its constant. */
  function EncodeForm(d: AttrDef): (r: seq<byte>)
    ensures |r| >= 1
  {
    EncodeU(d.form) + (if d.form == C.FORM_implicit_const then EncodeS(d.special) else [])
  }

  function EncodeDef(d: AttrDef): (r: seq<byte>)
    ensures |r| >= 2
  {
    EncodeU(d.name) + EncodeForm(d)
  }

  function EncodeDefs(defs: seq<AttrDef>): (r: seq<byte>)
  {
    if defs == [] then [] else EncodeDef(defs[0]) + EncodeDefs(defs[1..])
  }

  /** Every pair but the last names an attribute and a form; the last is the (0, 0) terminator. */
  predicate WellFormedDefs(defs: seq<AttrDef>)
  {
    && |defs| >= 1
    && defs[|defs| - 1] == AttrDef(0, 0, 0)
    && PairsNamed(defs)
    && ConstsOnlyImplicit(defs)
  }

  /** Every pair but the last names an attribute and a form. */
  predicate PairsNamed(defs: seq<AttrDef>)
  {
    forall i :: 0 <= i < |defs| - 1 ==> defs[i].name != 0 && defs[i].form != 0
  }

  /** Only an `implicit_const` pair carries a constant. */
  predicate ConstsOnlyImplicit(defs: seq<AttrDef>)
  {
    forall i :: 0 <= i < |defs| ==> (defs[i].form != C.FORM_implicit_const ==> defs[i].special == 0)
  }

  function EncodeDecl(d: Decl): (r: seq<byte>)
  {
    EncodeU(d.code) + EncodeU(d.tag) + [d.hasChildren] + EncodeDefs(d.defs)
  }

  lemma EncodeDefsNonEmpty(defs: seq<AttrDef>)
    requires defs != []
    ensures |EncodeDefs(defs)| >= 2
  {
  }

  /** A well-formed definition list decodes back to itself and ends right after its terminator. */
  lemma {:induction false} DefsRoundTrip(data: seq<byte>, pos: nat, end: nat, defs: seq<AttrDef>)
    requires WellFormedDefs(defs)
    requires end <= |data| && pos + |EncodeDefs(defs)| <= end
    requires At(data, pos, EncodeDefs(defs))
    ensures DefsFrom(data, pos, end) == (defs, pos + |EncodeDefs(defs)|)
    decreases |defs|
  {
    var d := defs[0];
    var p3 := pos + |EncodeDef(d)|;
    DefsHead(data, pos, end, defs);
    if |defs| == 1 {
      assert defs == [d];
    } else {
      WellFormedTail(defs);
      DefsRoundTrip(data, p3, end, defs[1..]);
      DefsCons(data, pos, end, defs, p3);
    }
  }

  /** The step of DefsRoundTrip: a continuing first pair followed by the decoded rest of the list. */
  lemma DefsCons(data: seq<byte>, pos: nat, end: nat, defs: seq<AttrDef>, p3: nat)
    requires |defs| > 1 && end <= |data|
    requires p3 == pos + |EncodeDef(defs[0])|
    requires |EncodeDefs(defs)| == |EncodeDef(defs[0])| + |EncodeDefs(defs[1..])|
    requires DefsFrom(data, pos, end) == ([defs[0]] + DefsFrom(data, p3, end).0, DefsFrom(data, p3, end).1)
    requires DefsFrom(data, p3, end) == (defs[1..], p3 + |EncodeDefs(defs[1..])|)
    ensures DefsFrom(data, pos, end) == (defs, pos + |EncodeDefs(defs)|)
  {
    assert defs == [defs[0]] + defs[1..];
  }

  lemma WellFormedTail(defs: seq<AttrDef>)
    requires WellFormedDefs(defs) && |defs| > 1
    ensures WellFormedDefs(defs[1..])
    ensures defs[0].name != 0 && defs[0].form != 0
  {
    assert forall i :: 0 <= i < |defs[1..]| ==> defs[1..][i] == defs[i + 1];
  }

  /** The first pair of an encoded list decodes to itself, and the rest of the encoding follows it. */
  lemma DefsHead(data: seq<byte>, pos: nat, end: nat, defs: seq<AttrDef>)
    requires defs != [] && (defs[0].form != C.FORM_implicit_const ==> defs[0].special == 0)
    requires end <= |data| && pos + |EncodeDefs(defs)| <= end
    requires At(data, pos, EncodeDefs(defs))
    ensures defs[0].name == 0 || defs[0].form == 0 ==>
      DefsFrom(data, pos, end) == ([defs[0]], pos + |EncodeDef(defs[0])|)
    ensures defs[0].name != 0 && defs[0].form != 0 ==>
      var next := DefsFrom(data, pos + |EncodeDef(defs[0])|, end);
      DefsFrom(data, pos, end) == ([defs[0]] + next.0, next.1)
    ensures |EncodeDefs(defs)| == |EncodeDef(defs[0])| + |EncodeDefs(defs[1..])|
    ensures At(data, pos + |EncodeDef(defs[0])|, EncodeDefs(defs[1..]))
  {
    var d := defs[0];
    HeadLayout(data, pos, defs);
    ULebRoundTrip(data, pos, end, d.name);
    FormRoundTrip(data, pos + |EncodeU(d.name)|, end, d);
    DefsStep(data, pos, end, d, pos + |EncodeU(d.name)|, pos + |EncodeDef(d)|);
  }

  /** Where the attribute code, the rest of the first pair and the remaining pairs sit. */
  lemma HeadLayout(data: seq<byte>, pos: nat, defs: seq<AttrDef>)
    requires defs != []
    requires At(data, pos, EncodeDefs(defs))
    ensures |EncodeDefs(defs)| == |EncodeDef(defs[0])| + |EncodeDefs(defs[1..])|
    ensures At(data, pos, EncodeU(defs[0].name))
    ensures At(data, pos + |EncodeU(defs[0].name)|, EncodeForm(defs[0]))
    ensures At(data, pos + |EncodeDef(defs[0])|, EncodeDefs(defs[1..]))
  {
    var d := defs[0];
    var en, ef := EncodeU(d.name), EncodeForm(d);
    var tail := EncodeDefs(defs[1..]);
    assert EncodeDefs(defs) == en + (ef + tail);
    AtSplit(data, pos, en, ef + tail);
    AtSplit(data, pos + |en|, ef, tail);
  }

  /** One pair of the definition loop: a terminator ends the list, any other pair continues it. */
  lemma DefsStep(data: seq<byte>, pos: nat, end: nat, d: AttrDef, p1: nat, p3: nat)
    requires end <= |data|
    requires ULeb(data, pos, end) == (d.name, p1) && p1 < end
    requires FormAt(data, p1, end, d.name) == (d, p3)
    ensures d.name == 0 || d.form == 0 ==> DefsFrom(data, pos, end) == ([d], p3)
    ensures d.name != 0 && d.form != 0 ==>
      DefsFrom(data, pos, end) == ([d] + DefsFrom(data, p3, end).0, DefsFrom(data, p3, end).1)
  {
  }

  lemma FormRoundTrip(data: seq<byte>, pos: nat, end: nat, d: AttrDef)
    requires d.form != C.FORM_implicit_const ==> d.special == 0
    requires end <= |data| && pos + |EncodeForm(d)| <= end
    requires At(data, pos, EncodeForm(d))
    ensures FormAt(data, pos, end, d.name) == (d, pos + |EncodeForm(d)|)
  {
    var ef := EncodeU(d.form);
    var es := if d.form == C.FORM_implicit_const then EncodeS(d.special) else [];
    AtSplit(data, pos, ef, es);
    ULebRoundTrip(data, pos, end, d.form);
    if d.form == C.FORM_implicit_const {
      SLebRoundTrip(data, pos + |ef|, end, d.special);
    }
  }

  /**
   * A well-formed declaration encoded at `pos` decodes back to itself, with
   * `pos` recorded as its offset, and the cursor lands right after it.
   */
  lemma DeclRoundTrip(data: seq<byte>, pos: nat, d: Decl)
    requires d.code != 0 && d.offset == pos && WellFormedDefs(d.defs)
    requires At(data, pos, EncodeDecl(d))
    ensures DeclAt(data, pos) == Found(d, pos + |EncodeDecl(d)|)
  {
    var p1 := pos + |EncodeU(d.code)|;
    var p2 := p1 + |EncodeU(d.tag)|;
    DeclLayout(data, pos, d);
    CodeAndTag(data, pos, p1, d.code, d.tag);
    DeclBody(data, p2, d.hasChildren, d.defs);
  }

  /** The has-children byte and the definitions of a declaration read back, up to the end of the definitions. */
  lemma DeclBody(data: seq<byte>, p2: nat, hasChildren: byte, defs: seq<AttrDef>)
    requires WellFormedDefs(defs)
    requires p2 + 1 + |EncodeDefs(defs)| <= |data| && |EncodeDefs(defs)| >= 2
    requires data[p2] == hasChildren
    requires At(data, p2 + 1, EncodeDefs(defs))
    ensures p2 + 1 < |data|
    ensures ReadFixed(data, p2, |data|, 1) == (hasChildren, p2 + 1)
    ensures DefsFrom(data, p2 + 1, |data|) == (defs, p2 + 1 + |EncodeDefs(defs)|)
  {
    ReadByte(data, p2, |data|);
    DefsRoundTrip(data, p2 + 1, |data|, defs);
  }

  /** Two ULEB128 numbers laid out one after the other read back in turn. */
  lemma CodeAndTag(data: seq<byte>, pos: nat, p1: nat, code: nat, tag: nat)
    requires p1 == pos + |EncodeU(code)| && p1 + |EncodeU(tag)| <= |data|
    requires At(data, pos, EncodeU(code)) && At(data, p1, EncodeU(tag))
    ensures ULeb(data, pos, |data|) == (code, p1)
    ensures ULeb(data, p1, |data|) == (tag, p1 + |EncodeU(tag)|)
  {
    ULebRoundTrip(data, pos, |data|, code);
    ULebRoundTrip(data, p1, |data|, tag);
  }

  /** Where the code, the tag, the has-children byte and the definitions of an encoded declaration sit. */
  lemma DeclLayout(data: seq<byte>, pos: nat, d: Decl)
    requires d.defs != []
    requires At(data, pos, EncodeDecl(d))
    ensures |EncodeDecl(d)| == |EncodeU(d.code)| + |EncodeU(d.tag)| + 1 + |EncodeDefs(d.defs)|
    ensures |EncodeDefs(d.defs)| >= 2
    ensures At(data, pos, EncodeU(d.code))
    ensures At(data, pos + |EncodeU(d.code)|, EncodeU(d.tag))
    ensures data[pos + |EncodeU(d.code)| + |EncodeU(d.tag)|] == d.hasChildren
    ensures At(data, pos + |EncodeU(d.code)| + |EncodeU(d.tag)| + 1, EncodeDefs(d.defs))
  {
    var ec, et := EncodeU(d.code), EncodeU(d.tag);
    var ed := EncodeDefs(d.defs);
    var p1 := pos + |ec|;
    var p2 := p1 + |et|;
    EncodeDefsNonEmpty(d.defs);
    assert EncodeDecl(d) == ec + (et + ([d.hasChildren] + ed));
    AtSplit(data, pos, ec, et + ([d.hasChildren] + ed));
    AtSplit(data, p1, et, [d.hasChildren] + ed);
    AtSplit(data, p2, [d.hasChildren], ed);
    assert data[p2 + 0] == [d.hasChildren][0];
  }
}
