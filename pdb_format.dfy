/**
 * The type-string classifier behind the PDB structure printer:
 * convert_to_state, which maps one word of a type description to a state,
 * and build_format_flags, which walks the words of a member's type
 * description, writes the member's format character into its slot of the
 * format string and, for aggregate, enumeration and bitfield types,
 * rewrites the member's name to "(T)name".
 */
module PdbFormat {

  /** EStates, in declaration order. */
  datatype State =
    | PointerState | UnionState | StructState | MemberState | UnsignedState
    | TypeNameState | ShortState | LongState | CharState | ModifierState
    | EnumState | ArrayState | OneMethodState | VoidState | DoubleState
    | BitfieldState | StateMax

  // ---------------------------------------------------------------------
  // strstr and convert_to_state

  /** `k` occurs in `s` starting at index i. */
  predicate OccursAt(s: string, k: string, i: nat)
  {
    i + |k| <= |s| && s[i..i + |k|] == k
  }

  /** strstr(s, k) != NULL: `k` occurs in `s` from index `from` on. */
  function ContainsFrom(s: string, k: string, from: nat): bool
    decreases |s| - from
  {
    if from + |k| > |s| then false
    else s[from..from + |k|] == k || ContainsFrom(s, k, from + 1)
  }

  predicate Contains(s: string, k: string)
  {
    ContainsFrom(s, k, 0)
  }

  /** The scan finds `k` exactly when it occurs at some index it visits. */
  lemma {:induction false} ContainsFromIff(s: string, k: string, from: nat)
    ensures ContainsFrom(s, k, from) <==> exists i :: from <= i && OccursAt(s, k, i)
    decreases |s| - from
  {
    if from + |k| <= |s| {
      ContainsFromIff(s, k, from + 1);
      if ContainsFrom(s, k, from) && !OccursAt(s, k, from) {
        var i :| from + 1 <= i && OccursAt(s, k, i);
      }
      if !ContainsFrom(s, k, from) {
        forall i | from <= i
          ensures !OccursAt(s, k, i)
        {
        }
      }
    }
  }

  /** The keywords convert_to_state tries, in the order it tries them. */
  const Keywords: seq<(string, State)> := [
    ("member", MemberState), ("*", PointerState), ("union", UnionState),
    ("struct", StructState), ("unsigned", UnsignedState), ("short", ShortState),
    ("long", LongState), ("char", CharState), ("modifier", ModifierState),
    ("const", ModifierState), ("unaligned", ModifierState), ("volatile", ModifierState),
    ("enum", EnumState), ("array", ArrayState), ("onemethod", OneMethodState),
    ("void", VoidState), ("double", DoubleState), ("bitfield", BitfieldState)
  ]

  /** The state of the first keyword from index k on that occurs in `word`. */
  function StateFrom(word: string, k: nat): State
    requires k <= |Keywords|
    decreases |Keywords| - k
  {
    if k == |Keywords| then StateMax
    else if Contains(word, Keywords[k].0) then Keywords[k].1
    else StateFrom(word, k + 1)
  }

  /** convert_to_state */
  function ConvertToState(word: string): State
  {
    StateFrom(word, 0)
  }

  /** The scan from k gives keyword j's state exactly when j is the first keyword from k on that occurs. */
  lemma {:induction false} StateFromFirst(word: string, k: nat, j: nat)
    requires k <= j < |Keywords|
    requires Contains(word, Keywords[j].0)
    requires forall m :: k <= m < j ==> !Contains(word, Keywords[m].0)
    ensures StateFrom(word, k) == Keywords[j].1
    decreases j - k
  {
    if k < j {
      StateFromFirst(word, k + 1, j);
    }
  }

  /** The scan from k ends in StateMax exactly when no keyword from k on occurs. */
  lemma {:induction false} StateFromNone(word: string, k: nat)
    requires k <= |Keywords|
    ensures StateFrom(word, k) == StateMax <==> forall m :: k <= m < |Keywords| ==> !Contains(word, Keywords[m].0)
    decreases |Keywords| - k
  {
    if k < |Keywords| {
      StateFromNone(word, k + 1);
      if Contains(word, Keywords[k].0) {
        assert Keywords[k].1 != StateMax;
      }
    }
  }

  /**
   * convert_to_state returns the state of the first keyword, in the fixed
   * order, that occurs in the word, and StateMax when none does.
   */
  lemma ConvertToStateIsFirstKeyword(word: string)
    ensures ConvertToState(word) == StateMax <==> forall m :: 0 <= m < |Keywords| ==> !Contains(word, Keywords[m].0)
    ensures forall j :: 0 <= j < |Keywords| && Contains(word, Keywords[j].0)
                && (forall m :: 0 <= m < j ==> !Contains(word, Keywords[m].0))
              ==> ConvertToState(word) == Keywords[j].1
  {
    StateFromNone(word, 0);
    forall j | 0 <= j < |Keywords| && Contains(word, Keywords[j].0)
                && (forall m :: 0 <= m < j ==> !Contains(word, Keywords[m].0))
      ensures ConvertToState(word) == Keywords[j].1
    {
      StateFromFirst(word, 0, j);
    }
  }

  /** A word holding both "member" and "*" is a member word: the earlier keyword wins. */
  lemma MemberBeforePointer()
    ensures ConvertToState("member*") == MemberState
  {
    assert OccursAt("member*", "member", 0);
    ContainsFromIff("member*", "member", 0);
  }

  // ---------------------------------------------------------------------
  // strtok(type, " ")

  /** The length of the run of non-space characters `s` starts with. */
  function WordLen(s: string): (n: nat)
    ensures n <= |s|
    ensures forall i :: 0 <= i < n ==> s[i] != ' '
    ensures n < |s| ==> s[n] == ' '
  {
    if s == [] || s[0] == ' ' then 0 else 1 + WordLen(s[1..])
  }

  /** The words strtok returns one after the other: maximal runs of non-space characters. */
  function Tokens(s: string): (r: seq<string>)
    decreases |s|
  {
    if s == [] then []
    else if s[0] == ' ' then Tokens(s[1..])
    else
      var n := WordLen(s);
      [s[..n]] + Tokens(s[n..])
  }

  /** No word is empty and none holds a space. */
  lemma {:induction false} TokensAreWords(s: string)
    ensures forall t :: t in Tokens(s) ==> t != [] && ' ' !in t
    decreases |s|
  {
    if s != [] {
      if s[0] == ' ' {
        TokensAreWords(s[1..]);
      } else {
        var n := WordLen(s);
        TokensAreWords(s[n..]);
        assert Tokens(s) == [s[..n]] + Tokens(s[n..]);
        forall t | t in Tokens(s)
          ensures t != [] && ' ' !in t
        {
          if t == s[..n] {
            assert t[0] == s[0];
          }
        }
      }
    }
  }

  // ---------------------------------------------------------------------
  // build_format_flags

  /** What build_format_flags leaves: its return value, the member's format slot and the member's name. */
  datatype Flags = Flags(ret: int, slot: char, name: string)

  /** Words the default case passes over. */
  predicate SkipWord(word: string)
  {
    word == "to" || word == "nesttype" || word == "mfunction" || word == "proc" || word == "arglist"
  }

  /** Words that leave the slot alone and move on: the member state and the default case's skip words. */
  predicate Ignored(st: State, word: string)
  {
    st == MemberState || ((st == TypeNameState || st == DoubleState || st == StateMax) && SkipWord(word))
  }

  /** The states whose cases return 1 at once when the slot already holds 'p'. */
  predicate KeepsPointer(st: State)
  {
    st == PointerState || st == UnsignedState || st == ShortState || st == CharState
    || st == LongState || st == ModifierState || st == EnumState
  }

  /** "(T)name": the name a member of aggregate, enumeration or bitfield type T gets. */
  function Qualified(typeName: string, name: string): (r: string)
    ensures |r| == |typeName| + |name| + 2
    ensures r[0] == '(' && r[|typeName| + 1] == ')'
    ensures r[1..|typeName| + 1] == typeName && r[|typeName| + 2..] == name
  {
    "(" + typeName + ")" + name
  }

  /**
   * The words from i on, with the slot holding `slot` and the member named
   * `name`; states[k] is convert_to_state of word k. `filter` stands for r_name_filter, which is not part of this
   * model. A struct, union, enum or bitfield word with no word after it
   * returns 0 with the slot written and the name unchanged.
   */
  function FlagsFrom(words: seq<string>, states: seq<State>, i: nat, slot: char, name: string, filter: string -> string): Flags
    requires |states| == |words| && i <= |words|
    decreases |words| - i
  {
    if i == |words| then Flags(1, slot, name)
    else match WordStep(words, i, states[i], slot, name, filter)
      case Next(s) => FlagsFrom(words, states, i + 1, s, name, filter)
      case Stop(r) => r
  }

  /** What one word does: move on to the next word with the slot holding `slot`, or return. */
  datatype Step = Next(slot: char) | Stop(result: Flags)

  /** The switch on `st`, convert_to_state of word i. */
  function WordStep(words: seq<string>, i: nat, st: State, slot: char, name: string, filter: string -> string): Step
    requires i < |words|
  {
    var word := words[i];
    match st
    case MemberState => Next(slot)
    case PointerState => if slot == 'p' then Stop(Flags(1, slot, name)) else Next('p')
    case UnionState => Stop(Renamed(words, i, '?', name, filter))
    case StructState => Stop(Renamed(words, i, '?', name, filter))
    case UnsignedState => if slot == 'p' then Stop(Flags(1, slot, name)) else Next('u')
    case ShortState => Stop(Flags(1, if slot == 'p' then 'p' else 'w', name))
    case CharState => Stop(Flags(1, if slot == 'p' then 'p' else if slot == 'u' then 'b' else 'c', name))
    case LongState => Stop(Flags(1, if slot == 'p' then 'p' else 'i', name))
    case ModifierState => if slot == 'p' then Stop(Flags(1, slot, name)) else Next('w')
    case EnumState => if slot == 'p' then Stop(Flags(1, slot, name)) else Stop(Renamed(words, i, 'E', name, x => x))
    case BitfieldState => Stop(Renamed(words, i, 'B', name, x => x))
    case VoidState => Stop(Flags(1, 'p', name))
    case ArrayState => Stop(Flags(1, 'p', name))
    case OneMethodState => Stop(Flags(1, 'p', name))
    case _ => if SkipWord(word) then Next(slot) else Stop(Flags(0, 'A', name))
  }

  /** Word i names a type T: the slot gets `flag` and the member becomes "(T)name", T and name passed through `filter`. */
  function Renamed(words: seq<string>, i: nat, flag: char, name: string, filter: string -> string): (r: Flags)
    requires i < |words|
    ensures r.slot == flag
  {
    if i + 1 < |words| then Flags(1, flag, Qualified(filter(words[i + 1]), filter(name)))
    else Flags(0, flag, name)
  }

  /** The function's result: every word of the type description, from an untouched slot. */
  function FormatFlags(typ: string, slot: char, name: string, filter: string -> string): Flags
  {
    var words := Tokens(typ);
    FlagsFrom(words, States(words), 0, slot, name, filter)
  }

  /** convert_to_state of every word. */
  function States(words: seq<string>): (r: seq<State>)
    ensures |r| == |words|
  {
    seq(|words|, i requires 0 <= i < |words| => ConvertToState(words[i]))
  }

  /** Once the slot holds 'p', a pointer, unsigned, short, char, long, modifier or enum word returns 1 and leaves 'p'. */
  lemma PointerIsSticky(words: seq<string>, states: seq<State>, i: nat, name: string, filter: string -> string)
    requires |states| == |words| && i < |words| && KeepsPointer(states[i])
    ensures FlagsFrom(words, states, i, 'p', name, filter) == Flags(1, 'p', name)
  {
  }

  /** Words that are passed over change nothing: the result is that of the first word after them. */
  lemma {:induction false} IgnoredWordsSkipped(words: seq<string>, states: seq<State>, i: nat, j: nat, slot: char, name: string, filter: string -> string)
    requires |states| == |words| && i <= j <= |words|
    requires forall m :: i <= m < j ==> Ignored(states[m], words[m])
    ensures FlagsFrom(words, states, i, slot, name, filter) == FlagsFrom(words, states, j, slot, name, filter)
    decreases j - i
  {
    if i < j {
      IgnoredStep(words, states, i, slot, name, filter);
      IgnoredWordsSkipped(words, states, i + 1, j, slot, name, filter);
    }
  }

  /** A passed-over word moves on with the slot as it is. */
  lemma IgnoredStep(words: seq<string>, states: seq<State>, i: nat, slot: char, name: string, filter: string -> string)
    requires |states| == |words| && i < |words| && Ignored(states[i], words[i])
    ensures FlagsFrom(words, states, i, slot, name, filter) == FlagsFrom(words, states, i + 1, slot, name, filter)
  {
    assert WordStep(words, i, states[i], slot, name, filter) == Next(slot);
  }

  /** 'p' survives any run of passed-over words up to a word that keeps it. */
  lemma PointerSurvives(words: seq<string>, states: seq<State>, i: nat, j: nat, name: string, filter: string -> string)
    requires |states| == |words| && i <= j < |words|
    requires forall m :: i <= m < j ==> Ignored(states[m], words[m])
    requires KeepsPointer(states[j])
    ensures FlagsFrom(words, states, i, 'p', name, filter) == Flags(1, 'p', name)
  {
    IgnoredWordsSkipped(words, states, i, j, 'p', name, filter);
    PointerIsSticky(words, states, j, name, filter);
  }

  /**
   * The words that decide the result by themselves, when the slot does not
   * hold 'p': char gives 'b' after unsigned and 'c' otherwise, short 'w',
   * long 'i'; void, array and onemethod give 'p' whatever the slot holds.
   */
  lemma SingleWordResults(words: seq<string>, states: seq<State>, i: nat, slot: char, name: string, filter: string -> string)
    requires |states| == |words| && i < |words|
    ensures var st := states[i];
      var r := FlagsFrom(words, states, i, slot, name, filter);
      (slot != 'p' && st == CharState ==> r == Flags(1, if slot == 'u' then 'b' else 'c', name))
      && (slot != 'p' && st == ShortState ==> r == Flags(1, 'w', name))
      && (slot != 'p' && st == LongState ==> r == Flags(1, 'i', name))
      && (st == VoidState || st == ArrayState || st == OneMethodState ==> r == Flags(1, 'p', name))
  {
  }

  /**
   * struct and union give '?', enum 'E' and bitfield 'B'; each takes the
   * next word T as the type name, renames the member "(T)name" (through the
   * name filter for struct and union) and returns 1.
   */
  lemma NamedTypeRenames(words: seq<string>, states: seq<State>, i: nat, slot: char, name: string, filter: string -> string)
    requires |states| == |words| && i + 1 < |words|
    ensures var st := states[i];
      var r := FlagsFrom(words, states, i, slot, name, filter);
      var t := words[i + 1];
      ((st == StructState || st == UnionState) ==> r == Flags(1, '?', Qualified(filter(t), filter(name))))
      && (st == EnumState && slot != 'p' ==> r == Flags(1, 'E', Qualified(t, name)))
      && (st == BitfieldState ==> r == Flags(1, 'B', Qualified(t, name)))
  {
  }

  /** A word that no keyword matches and that is not a skip word sets 'A' and returns 0; "double" is one. */
  lemma UnknownWordFails(words: seq<string>, states: seq<State>, i: nat, slot: char, name: string, filter: string -> string)
    requires |states| == |words| && i < |words|
    requires states[i] in {DoubleState, StateMax} && !SkipWord(words[i])
    ensures FlagsFrom(words, states, i, slot, name, filter) == Flags(0, 'A', name)
  {
  }

  /** Running out of words returns 1 with the slot and the name as they are. */
  lemma OutOfWordsSucceeds(words: seq<string>, states: seq<State>, slot: char, name: string, filter: string -> string)
    requires |states| == |words|
    ensures FlagsFrom(words, states, |words|, slot, name, filter) == Flags(1, slot, name)
  {
  }

  /** Whatever the words, the result is 0 or 1, and 0 only with 'A' or a type keyword missing its name. */
  lemma {:induction false} ResultIsZeroOrOne(words: seq<string>, states: seq<State>, i: nat, slot: char, name: string, filter: string -> string)
    requires |states| == |words| && i <= |words|
    ensures var r := FlagsFrom(words, states, i, slot, name, filter);
      (r.ret == 0 || r.ret == 1) && (r.ret == 0 ==> r.slot in {'A', '?', 'E', 'B'} && r.name == name)
    decreases |words| - i
  {
    if i < |words| {
      var st := states[i];
      if st == MemberState || (st == PointerState && slot != 'p') {
        ResultIsZeroOrOne(words, states, i + 1, if st == MemberState then slot else 'p', name, filter);
      } else if (st == UnsignedState || st == ModifierState) && slot != 'p' {
        ResultIsZeroOrOne(words, states, i + 1, if st == UnsignedState then 'u' else 'w', name, filter);
      } else if st in {TypeNameState, DoubleState, StateMax} && SkipWord(words[i]) {
        ResultIsZeroOrOne(words, states, i + 1, slot, name, filter);
      }
    }
  }

  /** After an unsigned word (and any passed-over words), char gives 'b' and short 'w'. */
  lemma UnsignedThen(words: seq<string>, states: seq<State>, i: nat, j: nat, slot: char, name: string, filter: string -> string)
    requires |states| == |words| && i < j < |words| && slot != 'p'
    requires states[i] == UnsignedState
    requires forall m :: i < m < j ==> Ignored(states[m], words[m])
    ensures states[j] == CharState ==> FlagsFrom(words, states, i, slot, name, filter) == Flags(1, 'b', name)
    ensures states[j] == ShortState ==> FlagsFrom(words, states, i, slot, name, filter) == Flags(1, 'w', name)
  {
    IgnoredWordsSkipped(words, states, i + 1, j, 'u', name, filter);
  }

  /**
   * build_format_flags: walks the words of `typ`, writing only `res[pos]`;
   * returns the result and the member's new name.
   */
  method BuildFormatFlags(typ: string, pos: nat, res: array<char>, name: string, filter: string -> string)
    returns (ret: int, newName: string)
    requires pos < res.Length
    modifies res
    ensures var r := FormatFlags(typ, old(res[pos]), name, filter);
      ret == r.ret && res[pos] == r.slot && newName == r.name
    ensures forall j :: 0 <= j < res.Length && j != pos ==> res[j] == old(res[j])
  {
    var words := Tokens(typ);
    ghost var states := States(words);
    var i := 0;
    while i < |words|
      invariant i <= |words|
      invariant FormatFlags(typ, old(res[pos]), name, filter) == FlagsFrom(words, states, i, res[pos], name, filter)
      invariant forall j :: 0 <= j < res.Length && j != pos ==> res[j] == old(res[j])
    {
      var st := ConvertToState(words[i]);
      assert st == states[i];
      var step := FormatWord(words, i, st, pos, res, name, filter);
      if step.Stop? {
        return step.result.ret, step.result.name;
      }
      i := i + 1;
    }
    ret, newName := 1, name;
  }

  /** One pass of the loop: the case for word i, written into `res[pos]` alone. */
  method FormatWord(words: seq<string>, i: nat, st: State, pos: nat, res: array<char>, name: string, filter: string -> string)
    returns (step: Step)
    requires i < |words| && pos < res.Length
    modifies res
    ensures step == WordStep(words, i, st, old(res[pos]), name, filter)
    ensures res[pos] == (if step.Next? then step.slot else step.result.slot)
    ensures forall j :: 0 <= j < res.Length && j != pos ==> res[j] == old(res[j])
  {
    step := WordStep(words, i, st, res[pos], name, filter);
    res[pos] := if step.Next? then step.slot else step.result.slot;
  }
}
