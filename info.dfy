/**
 * The .debug_info decoder: parse_die, parse_comp_unit and parse_info_raw.
 * Each unit is a header followed by a flat, pre-order array of DIEs that
 * keeps the null entries closing each sibling list. A DIE's abbreviation
 * code k selects declaration `first + k - 1` of the abbreviation table,
 * where `first` is the index of the declaration at the unit's abbreviation
 * offset, found by binary search.
 *
 * Every attribute decoded is also shown to the address-information store,
 * which keeps the last `DW_AT_comp_dir` string; this happens before a later
 * failure is known, so the store keeps what a failing parse saw.
 */
module Info {
  import opened Wrappers
  import opened Bytes
  import opened Leb128
  import C = DwarfConstants
  import opened Abbrev
  import opened UnitHeader
  import opened AttrValue
  import opened OffsetSearch
  import opened AddrInfoStore

  /** A debugging information entry; a null entry has code, tag and attributes all empty. */
  datatype Die = Die(offset: nat, code: nat, tag: nat, hasChildren: byte, attrs: seq<Attr>)

  datatype Unit = Unit(header: Header, dies: seq<Die>)

  // ---------------------------------------------------------------------
  // parse_die

  /** The attributes decoded in order; `next` is None when one of them failed, and `attrs` are those before it. */
  datatype AttrRun = AttrRun(attrs: seq<Attr>, next: Option<nat>)

  /** parse_die decodes `count - 1` attributes: the list read from the table ends with its (0, 0) pair. */
  function DieDefs(defs: seq<AttrDef>): (r: seq<AttrDef>)
    ensures |r| == if defs == [] then 0 else |defs| - 1
    ensures forall i :: 0 <= i < |r| ==> r[i] == defs[i]
  {
    if defs == [] then [] else defs[..|defs| - 1]
  }

  /** The attributes of definitions `defs` decoded from `pos` on. */
  function AttrsFrom(data: seq<byte>, pos: nat, end: nat, defs: seq<AttrDef>, h: Header, debugStr: Option<seq<byte>>): (r: AttrRun)
    requires end <= |data|
    ensures |r.attrs| <= |defs|
    ensures r.next.Some? ==> |r.attrs| == |defs| && pos <= r.next.value
    ensures forall i :: 0 <= i < |r.attrs| ==> r.attrs[i].name == defs[i].name && r.attrs[i].form == defs[i].form
    decreases |defs|, 1
  {
    if defs == [] then AttrRun([], Some(pos)) else FirstThenRest(data, pos, end, defs, h, debugStr)
  }

  /** The first definition's attribute, then the others from where it ends. */
  function FirstThenRest(data: seq<byte>, pos: nat, end: nat, defs: seq<AttrDef>, h: Header, debugStr: Option<seq<byte>>): (r: AttrRun)
    requires end <= |data| && defs != []
    ensures |r.attrs| <= |defs|
    ensures r.next.Some? ==> |r.attrs| == |defs| && pos <= r.next.value
    ensures forall i :: 0 <= i < |r.attrs| ==> r.attrs[i].name == defs[i].name && r.attrs[i].form == defs[i].form
    decreases |defs|, 0
  {
    match AttrAt(data, pos, end, defs[0], h, debugStr)
    case None => AttrRun([], None)
    case Some((a, n)) =>
      AttrAdvances(data, pos, end, defs[0], h, debugStr);
      var rest := AttrsFrom(data, n, end, defs[1..], h, debugStr);
      AttrRun([a] + rest.attrs, rest.next)
  }

  /** An attribute that names the compilation directory with a string the decoder holds. */
  predicate IsCompDir(a: Attr)
  {
    a.name == C.AT_comp_dir && (a.form == C.FORM_strp || a.form == C.FORM_string) && a.value.Str? && a.value.content.Some?
  }

  /** The compilation directory the store holds after seeing `attrs` in order. */
  function CompDirAfter(cd: Option<string>, attrs: seq<Attr>): Option<string>
    decreases |attrs|
  {
    if attrs == [] then cd
    else
      var last := attrs[|attrs| - 1];
      if IsCompDir(last) then last.value.content else CompDirAfter(cd, attrs[..|attrs| - 1])
  }

  /** The store keeps what it held when no compilation directory is seen. */
  lemma {:induction false} CompDirUntouched(cd: Option<string>, attrs: seq<Attr>)
    requires forall i :: 0 <= i < |attrs| ==> !IsCompDir(attrs[i])
    ensures CompDirAfter(cd, attrs) == cd
    decreases |attrs|
  {
    if attrs != [] {
      var init := attrs[..|attrs| - 1];
      assert forall i :: 0 <= i < |init| ==> init[i] == attrs[i];
      CompDirUntouched(cd, init);
    }
  }

  /** The store holds the last compilation directory seen. */
  lemma {:induction false} CompDirIsLast(cd: Option<string>, attrs: seq<Attr>, i: nat)
    requires i < |attrs| && IsCompDir(attrs[i])
    requires forall j :: i < j < |attrs| ==> !IsCompDir(attrs[j])
    ensures CompDirAfter(cd, attrs) == attrs[i].value.content
    decreases |attrs|
  {
    if i < |attrs| - 1 {
      var init := attrs[..|attrs| - 1];
      assert forall j :: 0 <= j < |init| ==> init[j] == attrs[j];
      CompDirIsLast(cd, init, i);
    }
  }

  lemma CompDirAppend(cd: Option<string>, xs: seq<Attr>, ys: seq<Attr>)
    ensures CompDirAfter(cd, xs + ys) == CompDirAfter(CompDirAfter(cd, xs), ys)
    decreases |ys|
  {
    if ys == [] {
      assert xs + ys == xs;
    } else {
      assert (xs + ys)[..|xs + ys| - 1] == xs + ys[..|ys| - 1];
      CompDirAppend(cd, xs, ys[..|ys| - 1]);
    }
  }

  /** A run that follows the attributes `attrs` already decoded. */
  function After(attrs: seq<Attr>, run: AttrRun): AttrRun
  {
    AttrRun(attrs + run.attrs, run.next)
  }

  lemma AfterAssoc(xs: seq<Attr>, ys: seq<Attr>, run: AttrRun)
    ensures After(xs, After(ys, run)) == After(xs + ys, run)
  {
    assert xs + (ys + run.attrs) == (xs + ys) + run.attrs;
  }

  /** One attribute of the run at definition `i`. */
  lemma AttrsStep(data: seq<byte>, p: nat, end: nat, defs: seq<AttrDef>, i: nat, h: Header, debugStr: Option<seq<byte>>)
    requires end <= |data| && i < |defs|
    ensures AttrsFrom(data, p, end, defs[i..], h, debugStr) ==
      match AttrAt(data, p, end, defs[i], h, debugStr)
      case None => AttrRun([], None)
      case Some((a, n)) => After([a], AttrsFrom(data, n, end, defs[i + 1..], h, debugStr))
  {
    assert defs[i..][0] == defs[i];
    assert defs[i..][1..] == defs[i + 1..];
  }

  /**
   * parse_die: decodes the attributes one by one, handing each comp_dir
   * string to the store. After a failed attribute the source goes on
   * calling parse_attr_value with a null cursor, which returns at once
   * and leaves the store alone, so stopping at the failure is the same.
   */
  method ParseDie(data: seq<byte>, pos: nat, end: nat, defs: seq<AttrDef>, h: Header, debugStr: Option<seq<byte>>, store: AddrInfo)
    returns (attrs: seq<Attr>, next: Option<nat>)
    requires end <= |data|
    modifies store
    ensures AttrRun(attrs, next) == AttrsFrom(data, pos, end, defs, h, debugStr)
    ensures store.compDir == CompDirAfter(old(store.compDir), attrs)
    ensures store.lineOf == old(store.lineOf) && store.addrOf == old(store.addrOf)
  {
    attrs := [];
    var p := pos;
    var i := 0;
    assert defs[0..] == defs;
    assert After([], AttrsFrom(data, pos, end, defs, h, debugStr)) == AttrsFrom(data, pos, end, defs, h, debugStr);
    while i < |defs|
      invariant i <= |defs|
      invariant AttrsFrom(data, pos, end, defs, h, debugStr) == After(attrs, AttrsFrom(data, p, end, defs[i..], h, debugStr))
      invariant store.compDir == CompDirAfter(old(store.compDir), attrs)
      invariant store.lineOf == old(store.lineOf) && store.addrOf == old(store.addrOf)
    {
      var r := DecodeAttr(data, p, end, defs, i, h, debugStr, store);
      if r.None? {
        assert attrs + [] == attrs;
        return attrs, None;
      }
      var (a, n) := r.value;
      AfterAssoc(attrs, [a], AttrsFrom(data, n, end, defs[i + 1..], h, debugStr));
      CompDirAppend(old(store.compDir), attrs, [a]);
      attrs := attrs + [a];
      p := n;
      i := i + 1;
    }
    assert defs[i..] == [];
    assert attrs + [] == attrs;
    next := Some(p);
  }

  /** One turn of the loop of parse_die: the attribute of definition `i`, shown to the store. */
  method DecodeAttr(data: seq<byte>, p: nat, end: nat, defs: seq<AttrDef>, i: nat, h: Header, debugStr: Option<seq<byte>>, store: AddrInfo)
    returns (r: Option<(Attr, nat)>)
    requires end <= |data| && i < |defs|
    modifies store
    ensures r.None? ==> AttrsFrom(data, p, end, defs[i..], h, debugStr) == AttrRun([], None)
    ensures r.Some? ==> AttrsFrom(data, p, end, defs[i..], h, debugStr) == After([r.value.0], AttrsFrom(data, r.value.1, end, defs[i + 1..], h, debugStr))
    ensures store.compDir == if r.None? then old(store.compDir) else CompDirAfter(old(store.compDir), [r.value.0])
    ensures store.lineOf == old(store.lineOf) && store.addrOf == old(store.addrOf)
  {
    r := ParseAttrValue(data, p, end, defs[i], h, debugStr);
    AttrsStep(data, p, end, defs, i, h, debugStr);
    if r.Some? {
      ShowToStore(store, r.value.0);
    }
  }

  /** The store's part in parse_die: a comp_dir string replaces the one it held. */
  method ShowToStore(store: AddrInfo, a: Attr)
    modifies store
    ensures store.compDir == CompDirAfter(old(store.compDir), [a])
    ensures store.lineOf == old(store.lineOf) && store.addrOf == old(store.addrOf)
  {
    assert [a][..0] == [];
    if IsCompDir(a) {
      store.SetCompDir(a.value.content.value);
    }
  }

  // ---------------------------------------------------------------------
  // parse_comp_unit

  /** What one turn of the DIE loop does. */
  datatype DieStep =
    | DieFail(seen: seq<Attr>)      // give up, after the store saw `seen`
    | DieLast(die: Die, next: nat)  // the code reached the end of the window: keep the entry and stop
    | DieNext(die: Die, next: nat)  // keep the entry and go on

  /** The attributes the store saw during one turn. */
  function Seen(step: DieStep): seq<Attr>
  {
    match step
    case DieFail(seen) => seen
    case DieLast(d, _) => d.attrs
    case DieNext(d, _) => d.attrs
  }

  function NullDie(offset: nat): Die
  {
    Die(offset, 0, 0, 0, [])
  }

  /**
   * The DIE at `pos` of the window `[pos, end)` of a unit whose declarations
   * start at index `first` of `decls`. Its offset is its position in the
   * section: the source adds the header size, the unit offset and the
   * length field to the position in the window.
   */
  function DieAt(data: seq<byte>, pos: nat, end: nat, h: Header, decls: seq<Decl>, first: nat, debugStr: Option<seq<byte>>): (r: DieStep)
    requires end <= |data| && pos < end
    ensures r.DieLast? ==> r.die == NullDie(pos) && pos < r.next
    ensures r.DieNext? ==> r.die.offset == pos && pos < r.next
  {
    var (code, p1) := ULeb(data, pos, end);
    if code > |decls| then DieFail([])
    else if p1 >= end then DieLast(NullDie(pos), p1)
    else if code == 0 then DieNext(NullDie(pos), p1)
    else if |decls| < first + code then DieFail([])
    else
      var decl := decls[first + code - 1];
      DieOf(pos, code, decl, AttrsFrom(data, p1, end, DieDefs(decl.defs), h, debugStr))
  }

  /** The DIE with abbreviation `code` at `pos` once its attributes are read, or the failure they ended in. */
  function DieOf(pos: nat, code: nat, decl: Decl, run: AttrRun): (r: DieStep)
    ensures r.DieNext? ==> r.die.offset == pos && run.next == Some(r.next)
  {
    if run.next.None? then DieFail(run.attrs)
    else DieNext(Die(pos, code, decl.tag, decl.hasChildren, run.attrs), run.next.value)
  }

  /** The DIEs of a window, the attributes the store saw, and the cursor after the loop (None on failure). */
  datatype DiesRun = DiesRun(dies: seq<Die>, seen: seq<Attr>, next: Option<nat>)

  function Then(dies: seq<Die>, seen: seq<Attr>, rest: DiesRun): DiesRun
  {
    DiesRun(dies + rest.dies, seen + rest.seen, rest.next)
  }

  lemma ThenAssoc(dies: seq<Die>, seen: seq<Attr>, dies': seq<Die>, seen': seq<Attr>, rest: DiesRun)
    ensures Then(dies, seen, Then(dies', seen', rest)) == Then(dies + dies', seen + seen', rest)
  {
    assert dies + (dies' + rest.dies) == (dies + dies') + rest.dies;
    assert seen + (seen' + rest.seen) == (seen + seen') + rest.seen;
  }

  function DiesFrom(data: seq<byte>, pos: nat, end: nat, h: Header, decls: seq<Decl>, first: nat, debugStr: Option<seq<byte>>): (r: DiesRun)
    requires end <= |data|
    ensures r.next.Some? ==> pos <= r.next.value
    decreases end - pos, 1
  {
    if pos >= end then DiesRun([], [], Some(pos)) else DieThenRest(data, pos, end, h, decls, first, debugStr)
  }

  /** The DIE at `pos`, then the DIEs after it. */
  function DieThenRest(data: seq<byte>, pos: nat, end: nat, h: Header, decls: seq<Decl>, first: nat, debugStr: Option<seq<byte>>): (r: DiesRun)
    requires end <= |data| && pos < end
    ensures r.next.Some? ==> pos <= r.next.value
    decreases end - pos, 0
  {
    match DieAt(data, pos, end, h, decls, first, debugStr)
    case DieFail(seen) => DiesRun([], seen, None)
    case DieLast(d, n) => DiesRun([d], [], Some(n))
    case DieNext(d, n) => Then([d], d.attrs, DiesFrom(data, n, end, h, decls, first, debugStr))
  }

  /** The DIE offsets lie in `[lo, hi)`. */
  predicate OffsetsWithin(ds: seq<Die>, lo: nat, hi: nat)
  {
    forall i :: 0 <= i < |ds| ==> lo <= ds[i].offset < hi
  }

  /** The DIE offsets strictly increase. */
  predicate OffsetsIncrease(ds: seq<Die>)
  {
    forall i, j :: 0 <= i < j < |ds| ==> ds[i].offset < ds[j].offset
  }

  lemma ConsOffsets(d: Die, rest: seq<Die>, lo: nat, lo': nat, hi: nat)
    requires lo <= d.offset < lo' && d.offset < hi
    requires OffsetsWithin(rest, lo', hi) && OffsetsIncrease(rest)
    ensures OffsetsWithin([d] + rest, lo, hi) && OffsetsIncrease([d] + rest)
  {
    var ds := [d] + rest;
    forall i | 1 <= i < |ds| ensures ds[i] == rest[i - 1] {
    }
  }

  /** Within a unit's window the DIE offsets lie in the window and strictly increase. */
  lemma {:induction false} DieOffsetsIncrease(data: seq<byte>, pos: nat, end: nat, h: Header, decls: seq<Decl>, first: nat, debugStr: Option<seq<byte>>)
    requires end <= |data|
    ensures var ds := DiesFrom(data, pos, end, h, decls, first, debugStr).dies;
      OffsetsWithin(ds, pos, end) && OffsetsIncrease(ds)
    decreases end - pos
  {
    if pos < end {
      DiesStep(data, pos, end, h, decls, first, debugStr);
      var step := DieAt(data, pos, end, h, decls, first, debugStr);
      if step.DieNext? {
        DieOffsetsIncrease(data, step.next, end, h, decls, first, debugStr);
        ConsOffsets(step.die, DiesFrom(data, step.next, end, h, decls, first, debugStr).dies, pos, step.next, end);
      }
    }
  }

  /**
   * A DIE with a non-zero code carries the tag and children flag of its
   * declaration and one attribute per definition but the last, in order;
   * a zero code gives a null entry.
   */
  lemma DieFollowsDecl(data: seq<byte>, pos: nat, end: nat, h: Header, decls: seq<Decl>, first: nat, debugStr: Option<seq<byte>>)
    requires end <= |data| && pos < end
    requires DieAt(data, pos, end, h, decls, first, debugStr).DieNext?
    ensures var d := DieAt(data, pos, end, h, decls, first, debugStr).die;
      var code := ULeb(data, pos, end).0;
      d.code == code &&
      (code == 0 ==> d == NullDie(pos)) &&
      (code != 0 ==>
        var decl := decls[first + code - 1];
        && first + code <= |decls|
        && d.tag == decl.tag && d.hasChildren == decl.hasChildren
        && |d.attrs| == |DieDefs(decl.defs)|
        && forall i :: 0 <= i < |d.attrs| ==> d.attrs[i].name == decl.defs[i].name && d.attrs[i].form == decl.defs[i].form)
  {
  }

  /** When a DIE makes the unit fail. */
  lemma DieFailure(data: seq<byte>, pos: nat, end: nat, h: Header, decls: seq<Decl>, first: nat, debugStr: Option<seq<byte>>)
    requires end <= |data| && pos < end
    ensures var (code, p1) := ULeb(data, pos, end);
      DieAt(data, pos, end, h, decls, first, debugStr).DieFail? <==>
        || code > |decls|
        || (p1 < end && code != 0 && |decls| < first + code)
        || (p1 < end && code != 0 && first + code <= |decls| &&
            AttrsFrom(data, p1, end, DieDefs(decls[first + code - 1].defs), h, debugStr).next.None?)
  {
  }

  /** One turn of the loop of parse_comp_unit. */
  method ParseEntry(data: seq<byte>, p: nat, end: nat, h: Header, decls: seq<Decl>, first: nat,
                    debugStr: Option<seq<byte>>, store: AddrInfo)
    returns (step: DieStep)
    requires end <= |data| && p < end
    modifies store
    ensures step == DieAt(data, p, end, h, decls, first, debugStr)
    ensures store.compDir == CompDirAfter(old(store.compDir), Seen(step))
    ensures store.lineOf == old(store.lineOf) && store.addrOf == old(store.addrOf)
  {
    var (code, p1) := ULeb(data, p, end);
    if code > |decls| {
      step := DieFail([]);
    } else if p1 >= end {
      step := DieLast(NullDie(p), p1);
    } else if code == 0 {
      step := DieNext(NullDie(p), p1);
    } else if |decls| < first + code {
      step := DieFail([]);
    } else {
      var decl := decls[first + code - 1];
      var attrs, n := ParseDie(data, p1, end, DieDefs(decl.defs), h, debugStr, store);
      step := DieOf(p, code, decl, AttrRun(attrs, n));
    }
  }

  /** DiesFrom at a position inside the window takes one step. */
  lemma DiesStep(data: seq<byte>, p: nat, end: nat, h: Header, decls: seq<Decl>, first: nat, debugStr: Option<seq<byte>>)
    requires end <= |data| && p < end
    ensures DiesFrom(data, p, end, h, decls, first, debugStr) ==
      match DieAt(data, p, end, h, decls, first, debugStr)
      case DieFail(seen) => DiesRun([], seen, None)
      case DieLast(d, n) => DiesRun([d], [], Some(n))
      case DieNext(d, n) => Then([d], d.attrs, DiesFrom(data, n, end, h, decls, first, debugStr))
  {
  }

  /** parse_comp_unit over the window `[start, end)`. */
  method ParseCompUnit(data: seq<byte>, start: nat, end: nat, h: Header, decls: seq<Decl>, first: nat,
                       debugStr: Option<seq<byte>>, store: AddrInfo)
    returns (dies: seq<Die>, next: Option<nat>)
    requires end <= |data|
    modifies store
    ensures var run := DiesFrom(data, start, end, h, decls, first, debugStr);
      run.next == next && (next.Some? ==> run.dies == dies) &&
      store.compDir == CompDirAfter(old(store.compDir), run.seen)
    ensures store.lineOf == old(store.lineOf) && store.addrOf == old(store.addrOf)
  {
    dies := [];
    var seen: seq<Attr> := [];
    var p := start;
    assert Then([], [], DiesFrom(data, start, end, h, decls, first, debugStr)) == DiesFrom(data, start, end, h, decls, first, debugStr);
    while p < end
      invariant DiesFrom(data, start, end, h, decls, first, debugStr) == Then(dies, seen, DiesFrom(data, p, end, h, decls, first, debugStr))
      invariant store.compDir == CompDirAfter(old(store.compDir), seen)
      invariant store.lineOf == old(store.lineOf) && store.addrOf == old(store.addrOf)
      decreases end - p
    {
      var step := ParseEntry(data, p, end, h, decls, first, debugStr, store);
      DiesStep(data, p, end, h, decls, first, debugStr);
      CompDirAppend(old(store.compDir), seen, Seen(step));
      match step
      case DieFail(s) =>
        return dies, None;
      case DieLast(d, n) =>
        assert seen + [] == seen && d.attrs == [];
        return dies + [d], Some(n);
      case DieNext(d, n) =>
        ThenAssoc(dies, seen, [d], d.attrs, DiesFrom(data, n, end, h, decls, first, debugStr));
        dies := dies + [d];
        seen := seen + d.attrs;
        p := n;
    }
    assert dies + [] == dies;
    assert seen + [] == seen;
    next := Some(p);
  }

  // ---------------------------------------------------------------------
  // parse_info_raw

  /** The offsets of the declarations, the keys of the binary search. */
  function DeclOffsets(decls: seq<Decl>): (r: seq<nat>)
    ensures |r| == |decls| && forall i :: 0 <= i < |decls| ==> r[i] == decls[i].offset
  {
    seq(|decls|, i requires 0 <= i < |decls| => decls[i].offset)
  }

  /** The end of a unit's DIE window: `length - header_size` bytes after its header, or an empty window. */
  function DieWindowEnd(h: Header, start: nat): nat
  {
    if h.length >= h.headerSize then start + h.length - h.headerSize else start
  }

  /** The check as written: the unit length is compared with the whole section. */
  predicate UnitFitsAsWritten(h: Header, len: nat)
  {
    h.length <= len
  }

  /** The check the length is evidently meant for: the unit ends inside the section. */
  predicate UnitFits(h: Header, len: nat)
  {
    UnitEnd(h) <= len
  }

  /** Where a unit ends: its length counts the bytes after the length field. */
  function UnitEnd(h: Header): nat
  {
    h.unitOffset + LengthFieldSize(h.is64) + h.length
  }

  /**
   * The decoder as written, with the one-byte `dwo_id` read and the length
   * compared with the whole section, or with both corrected.
   */
  datatype Variant = AsWritten | Corrected

  /** The unit header the variant reads at `pos`, and the cursor after it. */
  function HeaderAt(v: Variant, data: seq<byte>, pos: nat): (r: (Header, nat))
    ensures r.0.unitOffset == pos
    ensures r.1 == pos + LengthFieldSize(r.0.is64) + r.0.headerSize
  {
    if v == AsWritten then ReadHeaderAsWritten(data, pos) else ReadHeader(data, pos)
  }

  /** The length check the variant runs. */
  predicate Accepted(v: Variant, h: Header, len: nat)
  {
    if v == AsWritten then UnitFitsAsWritten(h, len) else UnitFits(h, len)
  }

  /**
   * The window the DIE loop reads, cut at the end of the section: past it
   * the source reads memory outside the section, which the model does not have.
   */
  function DieWindow(h: Header, start: nat, size: nat): nat
  {
    if DieWindowEnd(h, start) <= size then DieWindowEnd(h, start) else size
  }

  /** With the corrected check, a unit's DIE window is the rest of the unit, inside the section, and is not cut. */
  lemma WindowInsideSection(data: seq<byte>, pos: nat)
    requires UnitFits(ReadHeader(data, pos).0, |data|)
    ensures var (h, start) := ReadHeader(data, pos);
      h.length >= h.headerSize ==> start <= DieWindowEnd(h, start) == UnitEnd(h) == DieWindow(h, start, |data|) <= |data|
  {
    var (h, start) := ReadHeader(data, pos);
    assert h.unitOffset == pos;
  }

  /**
   * The DIEs of a unit whose header ends at `start`. A length shorter than
   * the header leaves an empty window: the end computed on unsigned 64-bit
   * numbers then lies before the start.
   */
  function UnitDies(data: seq<byte>, h: Header, start: nat, decls: seq<Decl>, first: nat, debugStr: Option<seq<byte>>): (r: DiesRun)
    ensures r.next.Some? ==> start <= r.next.value
  {
    if h.length < h.headerSize then DiesRun([], [], Some(start))
    else DiesFrom(data, start, DieWindow(h, start, |data|), h, decls, first, debugStr)
  }

  /**
   * With the check as written, a 12-byte section whose unit claims 12 bytes
   * after its length field passes, and its DIE window runs 4 bytes past the
   * end of the section.
   */
  lemma UnitLengthCheckAsWritten(data: seq<byte>)
    requires |data| == 12 && data[..6] == [12, 0, 0, 0, 4, 0]
    ensures var (h, start) := HeaderAt(AsWritten, data, 0);
      Accepted(AsWritten, h, |data|) && !UnitFits(h, |data|) && DieWindowEnd(h, start) == 16
  {
    assert data[0..4] == [12, 0, 0, 0] by {
      assert data[0..4] == data[..6][0..4];
    }
    assert LE([12, 0, 0, 0]) == 12 by {
      assert [12, 0, 0, 0][1..] == [0, 0, 0];
      assert [0, 0, 0][1..] == [0, 0];
      assert [0, 0][1..] == [0];
      assert [0][1..] == [];
    }
    assert data[4..6] == [4, 0] by {
      assert data[4..6] == data[..6][4..6];
    }
    assert LE([4, 0]) == 4 by {
      assert [4, 0][1..] == [0];
      assert [0][1..] == [];
    }
  }

  /** What one turn of the unit loop does. */
  datatype UnitStep =
    | UnitFail(seen: seq<Attr>)                    // give up, after the store saw `seen`
    | UnitNext(unit: Unit, seen: seq<Attr>, next: nat)

  /** The unit at `pos`: its header, its declarations, its DIEs. */
  function UnitAt(data: seq<byte>, pos: nat, decls: seq<Decl>, debugStr: Option<seq<byte>>, v: Variant): (r: UnitStep)
    ensures r.UnitNext? ==> r.unit.header.unitOffset == pos && pos < r.next
  {
    var (h, start) := HeaderAt(v, data, pos);
    if !Accepted(v, h, |data|) then UnitFail([])
    else
      match IndexOf(DeclOffsets(decls), h.abbrevOffset)
      case None => UnitFail([])
      case Some(first) =>
        var run := UnitDies(data, h, start, decls, first, debugStr);
        if run.next.None? then UnitFail(run.seen) else UnitNext(Unit(h, run.dies), run.seen, run.next.value)
  }

  /** The units decoded from `pos` on, the attributes the store saw, and whether the parse succeeded. */
  datatype UnitsRun = UnitsRun(units: seq<Unit>, seen: seq<Attr>, ok: bool)

  function UnitsFrom(data: seq<byte>, pos: nat, decls: seq<Decl>, debugStr: Option<seq<byte>>, v: Variant): (r: UnitsRun)
    decreases |data| - pos, 1
  {
    if pos >= |data| then UnitsRun([], [], true) else UnitThenRest(data, pos, decls, debugStr, v)
  }

  /** The unit at `pos`, then the units after it. */
  function UnitThenRest(data: seq<byte>, pos: nat, decls: seq<Decl>, debugStr: Option<seq<byte>>, v: Variant): (r: UnitsRun)
    requires pos < |data|
    decreases |data| - pos, 0
  {
    match UnitAt(data, pos, decls, debugStr, v)
    case UnitFail(seen) => UnitsRun([], seen, false)
    case UnitNext(u, seen, n) =>
      var rest := UnitsFrom(data, n, decls, debugStr, v);
      UnitsRun([u] + rest.units, seen + rest.seen, rest.ok)
  }

  /** parse_info_raw: the units of the section, or None when any of them fails. */
  function DebugInfo(data: seq<byte>, decls: seq<Decl>, debugStr: Option<seq<byte>>, v: Variant): (r: Option<seq<Unit>>)
  {
    var run := UnitsFrom(data, 0, decls, debugStr, v);
    if run.ok then Some(run.units) else None
  }

  /**
   * Away from DWARF 5 skeleton and split-compile units, and for units that
   * end inside the section, the decoder as written and the corrected one
   * decode the same unit.
   */
  lemma VariantsAgree(data: seq<byte>, pos: nat, decls: seq<Decl>, debugStr: Option<seq<byte>>)
    requires var h := ReadHeader(data, pos).0; !(h.version == 5 && IsSkeleton(h.unitType)) && UnitFits(h, |data|)
    ensures UnitAt(data, pos, decls, debugStr, AsWritten) == UnitAt(data, pos, decls, debugStr, Corrected)
  {
    ReadersAgree(data, pos);
    var h := ReadHeader(data, pos).0;
    assert h.length <= UnitEnd(h);
  }

  /** A unit's DIEs lie between the end of its header and the end of the unit, cut at `size`, in increasing order. */
  predicate DiesInside(u: Unit, size: nat)
  {
    var h := u.header;
    var hi := if UnitEnd(h) <= size then UnitEnd(h) else size;
    OffsetsWithin(u.dies, h.unitOffset + LengthFieldSize(h.is64) + h.headerSize, hi) && OffsetsIncrease(u.dies)
  }

  /**
   * A decoded unit's DIEs lie after its header, before both the end of the
   * unit and the end of the section, in increasing order; with the
   * corrected check the unit itself ends inside the section.
   */
  lemma UnitDiesInside(data: seq<byte>, pos: nat, decls: seq<Decl>, debugStr: Option<seq<byte>>, v: Variant)
    requires UnitAt(data, pos, decls, debugStr, v).UnitNext?
    ensures DiesInside(UnitAt(data, pos, decls, debugStr, v).unit, |data|)
    ensures v == Corrected ==> UnitEnd(UnitAt(data, pos, decls, debugStr, v).unit.header) <= |data|
  {
    var (h, start) := HeaderAt(v, data, pos);
    if h.length >= h.headerSize {
      var first := IndexOf(DeclOffsets(decls), h.abbrevOffset).value;
      assert DieWindowEnd(h, start) == UnitEnd(h);
      DieOffsetsIncrease(data, start, DieWindow(h, start, |data|), h, decls, first, debugStr);
    }
  }

  /** The unit offsets lie in `[lo, |data|)` and strictly increase. */
  predicate UnitsOrdered(us: seq<Unit>, lo: nat, hi: nat)
  {
    && (forall i :: 0 <= i < |us| ==> lo <= us[i].header.unitOffset < hi)
    && (forall i, j :: 0 <= i < j < |us| ==> us[i].header.unitOffset < us[j].header.unitOffset)
  }

  lemma ConsUnits(u: Unit, rest: seq<Unit>, lo: nat, lo': nat, hi: nat)
    requires lo <= u.header.unitOffset < lo' && u.header.unitOffset < hi
    requires UnitsOrdered(rest, lo', hi)
    requires DiesInside(u, hi) && forall i :: 0 <= i < |rest| ==> DiesInside(rest[i], hi)
    ensures UnitsOrdered([u] + rest, lo, hi)
    ensures forall i :: 0 <= i < |[u] + rest| ==> DiesInside(([u] + rest)[i], hi)
  {
    var us := [u] + rest;
    forall i | 1 <= i < |us| ensures us[i] == rest[i - 1] {
    }
  }

  /**
   * Every unit is read at the offset where the previous one stopped, so the
   * unit offsets strictly increase inside the section; the DIEs of each unit
   * lie inside it and inside the section, in increasing order.
   */
  lemma {:induction false} UnitsInOrder(data: seq<byte>, pos: nat, decls: seq<Decl>, debugStr: Option<seq<byte>>, v: Variant)
    ensures var us := UnitsFrom(data, pos, decls, debugStr, v).units;
      UnitsOrdered(us, pos, |data|) && forall i :: 0 <= i < |us| ==> DiesInside(us[i], |data|)
    decreases |data| - pos
  {
    if pos < |data| {
      var step := UnitAt(data, pos, decls, debugStr, v);
      if step.UnitNext? {
        UnitDiesInside(data, pos, decls, debugStr, v);
        UnitsInOrder(data, step.next, decls, debugStr, v);
        ConsUnits(step.unit, UnitsFrom(data, step.next, decls, debugStr, v).units, pos, step.next, |data|);
      }
    }
  }

  /** parse_info_raw: read a header, find its declarations, decode its DIEs, until the section ends. */
  method ParseInfoRaw(data: seq<byte>, decls: seq<Decl>, debugStr: Option<seq<byte>>, store: AddrInfo)
    returns (r: Option<seq<Unit>>)
    requires SortedByOffset(decls)
    modifies store
    ensures r == DebugInfo(data, decls, debugStr, AsWritten)
    ensures store.compDir == CompDirAfter(old(store.compDir), UnitsFrom(data, 0, decls, debugStr, AsWritten).seen)
    ensures store.lineOf == old(store.lineOf) && store.addrOf == old(store.addrOf)
  {
    var keys := DeclOffsets(decls);
    SortedKeys(decls);
    var units: seq<Unit> := [];
    var seen: seq<Attr> := [];
    var pos := 0;
    assert UnitsFrom(data, 0, decls, debugStr, AsWritten) == Prepend(units, seen, UnitsFrom(data, pos, decls, debugStr, AsWritten));
    while pos < |data|
      invariant UnitsFrom(data, 0, decls, debugStr, AsWritten) == Prepend(units, seen, UnitsFrom(data, pos, decls, debugStr, AsWritten))
      invariant store.compDir == CompDirAfter(old(store.compDir), seen)
      invariant store.lineOf == old(store.lineOf) && store.addrOf == old(store.addrOf)
      decreases |data| - pos
    {
      var step := ParseUnit(data, pos, decls, keys, debugStr, store);
      CompDirAppend(old(store.compDir), seen, step.seen);
      match step
      case UnitFail(_) =>
        return None;
      case UnitNext(u, s, n) =>
        PrependAssoc(units, seen, [u], s, UnitsFrom(data, n, decls, debugStr, AsWritten));
        units := units + [u];
        seen := seen + s;
        pos := n;
    }
    assert units + [] == units;
    assert seen + [] == seen;
    r := Some(units);
  }

  function Prepend(units: seq<Unit>, seen: seq<Attr>, rest: UnitsRun): UnitsRun
  {
    UnitsRun(units + rest.units, seen + rest.seen, rest.ok)
  }

  lemma PrependAssoc(units: seq<Unit>, seen: seq<Attr>, units': seq<Unit>, seen': seq<Attr>, rest: UnitsRun)
    ensures Prepend(units, seen, Prepend(units', seen', rest)) == Prepend(units + units', seen + seen', rest)
  {
    assert units + (units' + rest.units) == (units + units') + rest.units;
    assert seen + (seen' + rest.seen) == (seen + seen') + rest.seen;
  }

  /** The keys of a table sorted by offset strictly increase. */
  lemma SortedKeys(decls: seq<Decl>)
    requires SortedByOffset(decls)
    ensures StrictlyIncreasing(DeclOffsets(decls))
  {
  }

  /** One turn of the loop of parse_info_raw. */
  method ParseUnit(data: seq<byte>, pos: nat, decls: seq<Decl>, keys: seq<nat>, debugStr: Option<seq<byte>>, store: AddrInfo)
    returns (step: UnitStep)
    requires pos < |data| && keys == DeclOffsets(decls) && StrictlyIncreasing(keys)
    modifies store
    ensures step == UnitAt(data, pos, decls, debugStr, AsWritten)
    ensures UnitsFrom(data, pos, decls, debugStr, AsWritten) ==
      match step
      case UnitFail(seen) => UnitsRun([], seen, false)
      case UnitNext(u, seen, n) => Prepend([u], seen, UnitsFrom(data, n, decls, debugStr, AsWritten))
    ensures store.compDir == CompDirAfter(old(store.compDir), step.seen)
    ensures store.lineOf == old(store.lineOf) && store.addrOf == old(store.addrOf)
  {
    var (h, start) := ReadHeaderAsWritten(data, pos);
    if h.length > |data| {
      return UnitFail([]);
    }
    var first := BinarySearch(keys, h.abbrevOffset);
    if first.None? {
      return UnitFail([]);
    }
    var dies, next;
    if h.length < h.headerSize {
      dies, next := [], Some(start);
    } else {
      dies, next := ParseCompUnit(data, start, DieWindow(h, start, |data|), h, decls, first.value, debugStr, store);
    }
    var run := UnitDies(data, h, start, decls, first.value, debugStr);
    if next.None? {
      return UnitFail(run.seen);
    }
    step := UnitNext(Unit(h, dies), run.seen, next.value);
  }
}
