/** ArgumentProcessor: the legacy, stateful parser over single-character
    options declared by a wrapper object's annotated fields.  It assigns an
    argument to each declared option it finds, records where the operands
    begin, and hands each found parameter to a chain of binders. */
module LegacyProcessor {
  import opened Common
  import opened ParameterModel

  /** A field of the wrapper, with its @Option annotation if it has one. */
  datatype DeclaredMember = DeclaredMember(annotation: Option<LegacyOption>, field: FieldInfo)

  /** ArgumentBinder.bind on a field and its argument: true when it returns,
      false when it throws. */
  type ArgumentBinder = (FieldInfo, string) -> bool

  /** What bindValue did for one parameter: the index of the binder that
      accepted it, if any. */
  datatype Binding = Binding(name: char, binder: Option<nat>)

  // ---------------------------------------------------------------------
  // The scan, as functions of the tokens and of the declared options
  // (option name -> whether its field is boolean).

  /** `isBoolean`: the field's type is named boolean, in any case. */
  predicate IsBooleanField(f: FieldInfo) {
    EqualsIgnoreCase(f.typeSimpleName, "boolean")
  }

  /** `isOption`: a dash and one character. */
  predicate IsOption(key: string) {
    |key| == 2 && StartsWith(key, "-")
  }

  /** `getNextArgument`: the following token, or "". */
  function GetNextArgument(args: seq<string>, index: nat): (r: string)
    ensures index + 1 < |args| ==> r == args[index + 1]
    ensures index + 1 >= |args| ==> r == ""
  {
    if index + 1 < |args| then args[index + 1] else ""
  }

  /** `isEndOfOptionsDelimiter` */
  predicate IsEndOfOptionsDelimiter(args: seq<string>, index: nat) {
    index < |args| && args[index] == "--"
  }

  /** `isBooleanGroup`: a dash and at least two characters, each a declared
      boolean option. */
  predicate IsBooleanGroup(key: string, decl: map<char, bool>) {
    StartsWith(key, "-") && |key| > 2 &&
    forall k | 1 <= k < |key| :: key[k] in decl && decl[key[k]]
  }

  /** `getParameterByKey`, as the option name it finds. */
  function ParameterKey(key: string, decl: map<char, bool>): (r: Option<char>)
    ensures r.Some? <==> IsOption(key) && key[1] in decl
    ensures r.Some? ==> r.value == key[1]
  {
    if IsOption(key) && key[1] in decl then Some(key[1]) else None
  }

  /** `areArgumentsAvailable` */
  predicate AreArgumentsAvailable(args: seq<string>, decl: map<char, bool>) {
    |args| != 0 && StartsWith(args[0], "-") && decl != map[]
  }

  /** A non-boolean option leaves its value alone when that value looks like
      an option and is not a number. */
  predicate RefusesValue(value: string, isNumber: string -> bool) {
    IsOption(value) && !isNumber(value)
  }

  /** The argument a declared option gets at index. */
  function ArgumentFor(isBoolean: bool, value: string, isNumber: string -> bool): string {
    if isBoolean then "true" else if RefusesValue(value, isNumber) then "" else value
  }

  /** The index after a declared option at index. */
  function IndexAfter(isBoolean: bool, value: string, isNumber: string -> bool, index: nat): nat {
    if isBoolean || RefusesValue(value, isNumber) then index + 1 else index + 2
  }

  /** The inner loop of a boolean group: "true" for each character. */
  function AssignTrue(found: map<char, string>, flags: string): map<char, string> {
    if flags == [] then found
    else AssignTrue(found, flags[..|flags| - 1])[flags[|flags| - 1] := "true"]
  }

  lemma {:induction false} AssignTrueSpec(found: map<char, string>, flags: string)
    ensures AssignTrue(found, flags).Keys == found.Keys + set k | 0 <= k < |flags| :: flags[k]
    ensures forall k | 0 <= k < |flags| :: AssignTrue(found, flags)[flags[k]] == "true"
    ensures forall c | c in found && c !in flags :: AssignTrue(found, flags)[c] == found[c]
  {
    if flags != [] {
      var init := flags[..|flags| - 1];
      AssignTrueSpec(found, init);
      assert forall k | 0 <= k < |init| :: init[k] == flags[k];
      assert (set k | 0 <= k < |flags| :: flags[k]) == (set k | 0 <= k < |init| :: init[k]) + {flags[|flags| - 1]};
    }
  }

  /** Options found so far and the operands index. */
  datatype ScanState = ScanState(found: map<char, string>, operandsIndex: nat)

  /** The loop of `processArguments` from index on. */
  function ScanFrom(args: seq<string>, index: nat, decl: map<char, bool>, isNumber: string -> bool, st: ScanState): ScanState
    requires index <= |args| + 1
    decreases |args| + 1 - index
  {
    if index >= |args| then st
    else
      var key := args[index];
      var value := GetNextArgument(args, index);
      if ParameterKey(key, decl).Some? then
        var c := key[1];
        var found := st.found[c := ArgumentFor(decl[c], value, isNumber)];
        var next := IndexAfter(decl[c], value, isNumber, index);
        if IsEndOfOptionsDelimiter(args, next) then ScanState(found, next + 1)
        else ScanFrom(args, next, decl, isNumber, ScanState(found, next))
      else if IsBooleanGroup(key, decl) then
        var found := AssignTrue(st.found, key[1..]);
        if IsEndOfOptionsDelimiter(args, index + 1) then ScanState(found, index + 2)
        else ScanFrom(args, index + 1, decl, isNumber, ScanState(found, index + 1))
      else ScanFrom(args, index + 1, decl, isNumber, st)
  }

  /** `processArguments`, from nothing found and operands index 0. */
  function Process(args: seq<string>, decl: map<char, bool>, isNumber: string -> bool): ScanState {
    if AreArgumentsAvailable(args, decl) then ScanFrom(args, 0, decl, isNumber, ScanState(map[], 0))
    else ScanState(map[], 0)
  }

  /** Nothing is parsed unless there are tokens, the first starts with a
      dash and some option is declared. */
  lemma NothingUnlessAvailable(args: seq<string>, decl: map<char, bool>, isNumber: string -> bool)
    requires |args| == 0 || !StartsWith(args[0], "-") || decl == map[]
    ensures Process(args, decl, isNumber) == ScanState(map[], 0)
  {
  }

  /** A declared option gets its argument, then the scan stops at a
      delimiter right after what it consumed or carries on there. */
  lemma OptionStep(args: seq<string>, index: nat, decl: map<char, bool>, isNumber: string -> bool, st: ScanState)
    requires index < |args| && ParameterKey(args[index], decl).Some?
    ensures var c := args[index][1];
      var value := GetNextArgument(args, index);
      var found := st.found[c := ArgumentFor(decl[c], value, isNumber)];
      var next := IndexAfter(decl[c], value, isNumber, index);
      ScanFrom(args, index, decl, isNumber, st) ==
        if IsEndOfOptionsDelimiter(args, next) then ScanState(found, next + 1)
        else ScanFrom(args, next, decl, isNumber, ScanState(found, next))
  {
  }

  /** A declared boolean option gets "true" and consumes only itself. */
  lemma BooleanOptionStep(args: seq<string>, index: nat, decl: map<char, bool>, isNumber: string -> bool, st: ScanState)
    requires index < |args| && IsOption(args[index]) && args[index][1] in decl && decl[args[index][1]]
    ensures var found := st.found[args[index][1] := "true"];
      ScanFrom(args, index, decl, isNumber, st) ==
        if IsEndOfOptionsDelimiter(args, index + 1) then ScanState(found, index + 2)
        else ScanFrom(args, index + 1, decl, isNumber, ScanState(found, index + 1))
  {
  }

  /** A declared non-boolean option followed by a dash token that is not a
      number gets "" and leaves that token to be examined next. */
  lemma ValueRefusedStep(args: seq<string>, index: nat, decl: map<char, bool>, isNumber: string -> bool, st: ScanState)
    requires index + 1 < |args| && IsOption(args[index]) && args[index][1] in decl && !decl[args[index][1]]
    requires IsOption(args[index + 1]) && !isNumber(args[index + 1])
    ensures var found := st.found[args[index][1] := ""];
      ScanFrom(args, index, decl, isNumber, st) ==
        if IsEndOfOptionsDelimiter(args, index + 1) then ScanState(found, index + 2)
        else ScanFrom(args, index + 1, decl, isNumber, ScanState(found, index + 1))
  {
  }

  /** Otherwise a declared non-boolean option takes the next token (or ""
      when it is last), consuming two tokens; negative numbers are values. */
  lemma ValueTakenStep(args: seq<string>, index: nat, decl: map<char, bool>, isNumber: string -> bool, st: ScanState)
    requires index < |args| && IsOption(args[index]) && args[index][1] in decl && !decl[args[index][1]]
    requires !RefusesValue(GetNextArgument(args, index), isNumber)
    ensures var found := st.found[args[index][1] := GetNextArgument(args, index)];
      ScanFrom(args, index, decl, isNumber, st) ==
        if IsEndOfOptionsDelimiter(args, index + 2) then ScanState(found, index + 3)
        else ScanFrom(args, index + 2, decl, isNumber, ScanState(found, index + 2))
  {
  }

  /** A group of declared boolean options gives each of them "true". */
  lemma GroupStep(args: seq<string>, index: nat, decl: map<char, bool>, isNumber: string -> bool, st: ScanState)
    requires index < |args| && IsBooleanGroup(args[index], decl)
    ensures var found := AssignTrue(st.found, args[index][1..]);
      ScanFrom(args, index, decl, isNumber, st) ==
        if IsEndOfOptionsDelimiter(args, index + 1) then ScanState(found, index + 2)
        else ScanFrom(args, index + 1, decl, isNumber, ScanState(found, index + 1))
  {
  }

  /** A token that is neither a declared option nor a boolean group is
      skipped and does not move the operands index. */
  lemma UnrecognisedStep(args: seq<string>, index: nat, decl: map<char, bool>, isNumber: string -> bool, st: ScanState)
    requires index < |args| && ParameterKey(args[index], decl).None? && !IsBooleanGroup(args[index], decl)
    ensures ScanFrom(args, index, decl, isNumber, st) == ScanFrom(args, index + 1, decl, isNumber, st)
  {
  }

  /** A group with some character that is not a declared boolean option is
      not a group. */
  lemma GroupNeedsDeclaredBooleans(key: string, decl: map<char, bool>, k: nat)
    requires 1 <= k < |key| && (key[k] !in decl || !decl[key[k]])
    ensures !IsBooleanGroup(key, decl)
  {
  }

  /** What every scan state reached from the start satisfies: only declared
      options are found, a boolean option only ever gets "true", a
      non-boolean one "" or one of the tokens. */
  ghost predicate Consistent(args: seq<string>, decl: map<char, bool>, found: map<char, string>) {
    forall c | c in found ::
      c in decl && (decl[c] ==> found[c] == "true") &&
      (!decl[c] ==> found[c] == "" || found[c] in args)
  }

  lemma {:induction false} ScanFromConsistent(args: seq<string>, index: nat, decl: map<char, bool>, isNumber: string -> bool, st: ScanState)
    requires index <= |args| + 1 && Consistent(args, decl, st.found)
    ensures Consistent(args, decl, ScanFrom(args, index, decl, isNumber, st).found)
    decreases |args| + 1 - index
  {
    if index < |args| {
      var key := args[index];
      var value := GetNextArgument(args, index);
      if ParameterKey(key, decl).Some? {
        var c := key[1];
        var found := st.found[c := ArgumentFor(decl[c], value, isNumber)];
        var next := IndexAfter(decl[c], value, isNumber, index);
        assert Consistent(args, decl, found);
        if !IsEndOfOptionsDelimiter(args, next) {
          ScanFromConsistent(args, next, decl, isNumber, ScanState(found, next));
        }
      } else if IsBooleanGroup(key, decl) {
        var found := AssignTrue(st.found, key[1..]);
        AssignTrueSpec(st.found, key[1..]);
        forall c | c in found
          ensures c in decl && (decl[c] ==> found[c] == "true") && (!decl[c] ==> found[c] == "" || found[c] in args)
        {
          if c in key[1..] {
            var k :| 0 <= k < |key[1..]| && key[1..][k] == c;
            assert key[k + 1] == c;
          }
        }
        if !IsEndOfOptionsDelimiter(args, index + 1) {
          ScanFromConsistent(args, index + 1, decl, isNumber, ScanState(found, index + 1));
        }
      } else {
        ScanFromConsistent(args, index + 1, decl, isNumber, st);
      }
    }
  }

  lemma ProcessConsistent(args: seq<string>, decl: map<char, bool>, isNumber: string -> bool)
    ensures Consistent(args, decl, Process(args, decl, isNumber).found)
  {
    if AreArgumentsAvailable(args, decl) {
      ScanFromConsistent(args, 0, decl, isNumber, ScanState(map[], 0));
    }
  }

  /** The operands index never moves back and stays within one past the
      end of the tokens. */
  lemma {:induction false} ScanFromBounds(args: seq<string>, index: nat, decl: map<char, bool>, isNumber: string -> bool, st: ScanState)
    requires index <= |args| + 1 && st.operandsIndex <= index
    ensures st.operandsIndex <= ScanFrom(args, index, decl, isNumber, st).operandsIndex <= |args| + 1
    decreases |args| + 1 - index
  {
    if index < |args| {
      var key := args[index];
      var value := GetNextArgument(args, index);
      if ParameterKey(key, decl).Some? {
        var c := key[1];
        var found := st.found[c := ArgumentFor(decl[c], value, isNumber)];
        var next := IndexAfter(decl[c], value, isNumber, index);
        if !IsEndOfOptionsDelimiter(args, next) {
          ScanFromBounds(args, next, decl, isNumber, ScanState(found, next));
        }
      } else if IsBooleanGroup(key, decl) {
        var found := AssignTrue(st.found, key[1..]);
        if !IsEndOfOptionsDelimiter(args, index + 1) {
          ScanFromBounds(args, index + 1, decl, isNumber, ScanState(found, index + 1));
        }
      } else {
        ScanFromBounds(args, index + 1, decl, isNumber, st);
      }
    }
  }

  lemma ProcessBounds(args: seq<string>, decl: map<char, bool>, isNumber: string -> bool)
    ensures Process(args, decl, isNumber).operandsIndex <= |args| + 1
  {
    if AreArgumentsAvailable(args, decl) {
      ScanFromBounds(args, 0, decl, isNumber, ScanState(map[], 0));
    }
  }

  /** `-a x -- -b` with a non-boolean a and a boolean b: a takes x, the
      delimiter ends the scan and the operands start after it, so -b is an
      operand and b is not assigned. */
  lemma DelimiterExample(isNumber: string -> bool)
    ensures Process(["-a", "x", "--", "-b"], map['a' := false, 'b' := true], isNumber) ==
      ScanState(map['a' := "x"], 3)
  {
    var args := ["-a", "x", "--", "-b"];
    var decl := map['a' := false, 'b' := true];
    assert "-a"[..1] == "-" && "-a"[1] == 'a';
    assert !IsOption("x");
    ValueTakenStep(args, 0, decl, isNumber, ScanState(map[], 0));
  }

  /** `-a x -a y`: setArgument overwrites, so the last occurrence wins, and
      the operands start after y. */
  lemma LastOccurrenceWins(isNumber: string -> bool)
    ensures Process(["-a", "x", "-a", "y"], map['a' := false], isNumber) == ScanState(map['a' := "y"], 4)
  {
    var args := ["-a", "x", "-a", "y"];
    var decl := map['a' := false];
    assert "-a"[..1] == "-" && "-a"[1] == 'a';
    assert !IsOption("x") && !IsOption("y");
    ValueTakenStep(args, 0, decl, isNumber, ScanState(map[], 0));
    ValueTakenStep(args, 2, decl, isNumber, ScanState(map['a' := "x"], 2));
    assert map['a' := "x"]['a' := "y"] == map['a' := "y"];
  }

  /** `getOperands` on a token array and an operands index. */
  function OperandsOf(args: seq<string>, operandsIndex: nat): string {
    if operandsIndex < |args| then Trim(Join(" ", args[operandsIndex..])) else ""
  }

  /** The binder bindValue stops at: the first that does not throw. */
  function FirstAccepting(binders: seq<ArgumentBinder>, f: FieldInfo, argument: string, from: nat): (r: Option<nat>)
    requires from <= |binders|
    ensures r.Some? ==> (from <= r.value < |binders| && binders[r.value](f, argument) &&
      forall j | from <= j < r.value :: !binders[j](f, argument))
    ensures r.None? ==> forall j | from <= j < |binders| :: !binders[j](f, argument)
    decreases |binders| - from
  {
    if from == |binders| then None
    else if binders[from](f, argument) then Some(from)
    else FirstAccepting(binders, f, argument, from + 1)
  }

  // ---------------------------------------------------------------------
  // Declarations

  /** `resolveWrapperFields`: each annotated field under its option name, a
      later field replacing an earlier one of the same name. */
  function FieldsByName(members: seq<DeclaredMember>): map<char, FieldInfo> {
    if members == [] then map[]
    else
      var m := FieldsByName(members[..|members| - 1]);
      var last := members[|members| - 1];
      if last.annotation.Some? then m[last.annotation.value.name := last.field] else m
  }

  /** The declared options and whether each is boolean. */
  function DeclaredOf(members: seq<DeclaredMember>): map<char, bool> {
    var fields := FieldsByName(members);
    map c | c in fields :: IsBooleanField(fields[c])
  }

  /** Exactly the annotated fields declare options. */
  lemma {:induction false} FieldsByNameKeys(members: seq<DeclaredMember>)
    ensures forall c :: c in FieldsByName(members) <==>
      exists i | 0 <= i < |members| :: members[i].annotation == Some(LegacyOption(c))
  {
    if members != [] {
      var init := members[..|members| - 1];
      FieldsByNameKeys(init);
      forall c
        ensures c in FieldsByName(members) <==>
          exists i | 0 <= i < |members| :: members[i].annotation == Some(LegacyOption(c))
      {
        if c in FieldsByName(init) {
          var i :| 0 <= i < |init| && init[i].annotation == Some(LegacyOption(c));
          assert members[i] == init[i];
        }
        if exists i | 0 <= i < |members| :: members[i].annotation == Some(LegacyOption(c)) {
          var i :| 0 <= i < |members| && members[i].annotation == Some(LegacyOption(c));
          if i < |init| {
            assert init[i] == members[i];
          }
        }
      }
    }
  }

  // ---------------------------------------------------------------------
  // The processor

  class ArgumentProcessor {
    var arguments: seq<string>
    var optionNameToParameter: map<char, Parameter>
    var binders: seq<ArgumentBinder>
    var operandsIndex: nat
    /** The field each declared option binds to. */
    ghost var fields: map<char, FieldInfo>

    ghost function Parameters(): set<Parameter>
      reads this`optionNameToParameter
    {
      optionNameToParameter.Values
    }

    /** Every parameter in the map carries the option it is filed under and
        the field of that option. */
    ghost predicate Valid()
      reads this`optionNameToParameter, this`fields, Parameters()`option, Parameters()`field
    {
      optionNameToParameter.Keys == fields.Keys &&
      forall c | c in optionNameToParameter ::
        optionNameToParameter[c].option == Some(LegacyOption(c)) &&
        optionNameToParameter[c].field == Some(fields[c])
    }

    /** The declared options and whether each one's field is boolean. */
    ghost function Declared(): map<char, bool>
      reads this`fields
    {
      map c | c in fields :: IsBooleanField(fields[c])
    }

    constructor()
      ensures optionNameToParameter == map[] && binders == [] && operandsIndex == 0 && arguments == []
      ensures Valid()
    {
      fields := map[];
      arguments := [];
      optionNameToParameter := map[];
      binders := [];
      operandsIndex := 0;
    }

    function GetArguments(): seq<string>
      reads this
    {
      arguments
    }

    function GetOperandsIndex(): nat
      reads this
    {
      operandsIndex
    }

    function GetBinders(): seq<ArgumentBinder>
      reads this
    {
      binders
    }

    method SetBinders(binders: seq<ArgumentBinder>)
      modifies this
      ensures GetBinders() == binders
      ensures arguments == old(arguments) && optionNameToParameter == old(optionNameToParameter)
      ensures operandsIndex == old(operandsIndex)
    {
      this.binders := binders;
    }

    /** `initialize`: forget the previous run, declare the wrapper's
        options, scan the tokens and bind what was found. */
    method Initialize(arguments: seq<string>, members: seq<DeclaredMember>, isNumber: string -> bool)
      returns (bindings: seq<Binding>)
      modifies this
      ensures Valid() && fields == FieldsByName(members)
      ensures this.arguments == arguments && binders == old(binders)
      ensures optionNameToParameter.Keys == FieldsByName(members).Keys
      ensures forall c | c in optionNameToParameter ::
        optionNameToParameter[c].field == Some(FieldsByName(members)[c])
      ensures var st := Process(arguments, DeclaredOf(members), isNumber);
        operandsIndex == st.operandsIndex &&
        forall c | c in optionNameToParameter ::
          optionNameToParameter[c].argument == (if c in st.found then Some(st.found[c]) else None)
      ensures forall i, j | 0 <= i < j < |bindings| :: bindings[i].name < bindings[j].name
      ensures forall i | 0 <= i < |bindings| ::
        var c := bindings[i].name;
        c in optionNameToParameter && optionNameToParameter[c].argument.Some? &&
        bindings[i].binder == FirstAccepting(binders, optionNameToParameter[c].field.value, optionNameToParameter[c].argument.value, 0)
      ensures forall c | c in optionNameToParameter && optionNameToParameter[c].argument.Some? ::
        exists i | 0 <= i < |bindings| :: bindings[i].name == c
    {
      operandsIndex := 0;
      optionNameToParameter := map[];
      fields := map[];
      this.arguments := arguments;
      ResolveWrapperFields(members);
      assert Declared() == DeclaredOf(members);
      ProcessArguments(isNumber);
      bindings := BindValues();
    }

    /** `resolveWrapperFields` with `createArgument`: a new parameter per
        annotated field. */
    method ResolveWrapperFields(members: seq<DeclaredMember>)
      requires optionNameToParameter == map[] && fields == map[]
      modifies this
      ensures Valid() && fields == FieldsByName(members)
      ensures arguments == old(arguments) && binders == old(binders) && operandsIndex == old(operandsIndex)
      ensures forall c | c in optionNameToParameter ::
        fresh(optionNameToParameter[c]) && optionNameToParameter[c].argument.None?
    {
      var i := 0;
      while i < |members|
        invariant 0 <= i <= |members|
        invariant arguments == old(arguments) && binders == old(binders) && operandsIndex == old(operandsIndex)
        invariant fields == FieldsByName(members[..i]) && Valid()
        invariant forall c | c in optionNameToParameter ::
          fresh(optionNameToParameter[c]) && optionNameToParameter[c].argument.None?
      {
        assert members[..i + 1][..i] == members[..i];
        var member := members[i];
        var parameter := CreateArgument(member);
        if parameter != null {
          optionNameToParameter := optionNameToParameter[parameter.GetOption().value.name := parameter];
          fields := fields[member.annotation.value.name := member.field];
        }
        i := i + 1;
      }
      assert members[..i] == members;
    }

    /** `createArgument`: for an annotated member, a new parameter holding
        its annotation and field and no argument yet; null otherwise. */
    static method CreateArgument(member: DeclaredMember) returns (parameter: Parameter?)
      ensures member.annotation.None? ==> parameter == null
      ensures member.annotation.Some? ==>
        parameter != null && fresh(parameter) &&
        parameter.option == member.annotation && parameter.field == Some(member.field) &&
        parameter.argument.None?
    {
      parameter := null;
      if member.annotation.Some? {
        parameter := new Parameter();
        parameter.SetOption(member.annotation);
        parameter.SetField(Some(member.field));
      }
    }

    /** The parameters' arguments are exactly the found map. */
    ghost predicate Mirrors(found: map<char, string>)
      reads this`optionNameToParameter, Parameters()`argument
    {
      forall c | c in optionNameToParameter ::
        optionNameToParameter[c].argument == (if c in found then Some(found[c]) else None)
    }

    /** `setArgument` on the parameter of option c. */
    method Assign(c: char, argument: string, ghost found: map<char, string>)
      requires Valid() && c in optionNameToParameter && Mirrors(found)
      modifies Parameters()
      ensures Valid() && fields == old(fields)
      ensures arguments == old(arguments) && optionNameToParameter == old(optionNameToParameter) && binders == old(binders)
      ensures Mirrors(found[c := argument])
    {
      optionNameToParameter[c].SetArgument(Some(argument));
    }

    /** The inner loop of a boolean group: "true" for each of its options. */
    method AssignGroup(flags: string, ghost found: map<char, string>)
      requires Valid() && Mirrors(found)
      requires forall k | 0 <= k < |flags| :: flags[k] in optionNameToParameter
      modifies Parameters()
      ensures Valid() && fields == old(fields)
      ensures arguments == old(arguments) && optionNameToParameter == old(optionNameToParameter) && binders == old(binders)
      ensures Mirrors(AssignTrue(found, flags))
    {
      ghost var current := found;
      for j := 0 to |flags|
        invariant Valid() && fields == old(fields)
        invariant current == AssignTrue(found, flags[..j]) && Mirrors(current)
      {
        assert flags[..j + 1][..j] == flags[..j];
        Assign(flags[j], "true", current);
        current := current[flags[j] := "true"];
      }
      assert flags[..|flags|] == flags;
    }

    /** One iteration of `processArguments` on a declared option: its
        argument, then the delimiter check. */
    method ScanOption(index: nat, isNumber: string -> bool, ghost decl: map<char, bool>, ghost found: map<char, string>)
      returns (next: nat, stop: bool, ghost found': map<char, string>)
      requires index < |arguments| && Valid() && Declared() == decl && Mirrors(found)
      requires ParameterKey(arguments[index], decl).Some?
      modifies this`operandsIndex, Parameters()
      ensures Valid() && fields == old(fields) && Declared() == decl && Mirrors(found')
      ensures arguments == old(arguments) && optionNameToParameter == old(optionNameToParameter) && binders == old(binders)
      ensures index < next <= |arguments| + 1
      ensures var c := arguments[index][1];
        var value := GetNextArgument(arguments, index);
        found' == found[c := ArgumentFor(decl[c], value, isNumber)] &&
        next == IndexAfter(decl[c], value, isNumber, index) &&
        stop == IsEndOfOptionsDelimiter(arguments, next) &&
        operandsIndex == (if stop then next + 1 else next)
    {
      var key := arguments[index];
      var parameter := GetParameterByKey(key);
      var value := GetNextArgument(arguments, index);
      var c := key[1];
      var isBoolean := IsBoolean(parameter);
      var argument;
      argument, next := OptionArgument(isBoolean, value, isNumber, index);
      Assign(c, argument, found);
      found' := found[c := argument];
      stop := IsEndOfOptionsDelimiter(arguments, next);
      SetOperandsIndex(if stop then next + 1 else next, found');
    }

    /** The argument a declared option gets, and where the scan goes on:
        "true" for a boolean, "" when the value looks like an option and is
        not a number, otherwise the value, which is then consumed. */
    method OptionArgument(isBoolean: bool, value: string, isNumber: string -> bool, index: nat)
      returns (argument: string, next: nat)
      ensures argument == ArgumentFor(isBoolean, value, isNumber)
      ensures next == IndexAfter(isBoolean, value, isNumber, index)
    {
      next := index + 1;
      if isBoolean {
        argument := "true";
      } else if IsOption(value) && !isNumber(value) {
        argument := "";
      } else {
        argument := value;
        next := next + 1;
      }
    }

    /** The assignment `operandsIndex = ...` of `processArguments`: the
        operands index moves; nothing the parameters hold changes. */
    method SetOperandsIndex(index: nat, ghost found: map<char, string>)
      requires Valid() && Mirrors(found)
      modifies this`operandsIndex
      ensures operandsIndex == index
      ensures arguments == old(arguments) && optionNameToParameter == old(optionNameToParameter) && binders == old(binders)
      ensures Valid() && fields == old(fields) && Mirrors(found)
    {
      operandsIndex := index;
    }

    /** One iteration of `processArguments` on a token that is not a
        declared option: a boolean group or nothing. */
    method ScanOther(index: nat, isNumber: string -> bool, ghost decl: map<char, bool>, ghost found: map<char, string>)
      returns (next: nat, stop: bool, ghost found': map<char, string>)
      requires index < |arguments| && Valid() && Declared() == decl && Mirrors(found)
      requires ParameterKey(arguments[index], decl).None?
      modifies this`operandsIndex, Parameters()
      ensures Valid() && fields == old(fields) && Declared() == decl && Mirrors(found')
      ensures arguments == old(arguments) && optionNameToParameter == old(optionNameToParameter) && binders == old(binders)
      ensures next == index + 1
      ensures ScanFrom(arguments, index, decl, isNumber, ScanState(found, old(operandsIndex))) ==
        if stop then ScanState(found', operandsIndex)
        else ScanFrom(arguments, next, decl, isNumber, ScanState(found', operandsIndex))
    {
      var group := IsBooleanGroupNow(arguments[index]);
      if group {
        next, stop, found' := ScanGroup(index, isNumber, decl, found);
      } else {
        UnrecognisedStep(arguments, index, decl, isNumber, ScanState(found, operandsIndex));
        next, stop, found' := index + 1, false, found;
      }
    }

    /** The group branch: each option of the group gets "true", then the
        delimiter check. */
    method ScanGroup(index: nat, isNumber: string -> bool, ghost decl: map<char, bool>, ghost found: map<char, string>)
      returns (next: nat, stop: bool, ghost found': map<char, string>)
      requires index < |arguments| && Valid() && Declared() == decl && Mirrors(found)
      requires ParameterKey(arguments[index], decl).None? && IsBooleanGroup(arguments[index], decl)
      modifies this`operandsIndex, Parameters()
      ensures Valid() && fields == old(fields) && Declared() == decl && Mirrors(found')
      ensures arguments == old(arguments) && optionNameToParameter == old(optionNameToParameter) && binders == old(binders)
      ensures next == index + 1
      ensures ScanFrom(arguments, index, decl, isNumber, ScanState(found, old(operandsIndex))) ==
        if stop then ScanState(found', operandsIndex)
        else ScanFrom(arguments, next, decl, isNumber, ScanState(found', operandsIndex))
    {
      var key := arguments[index];
      next := index + 1;
      GroupStep(arguments, index, decl, isNumber, ScanState(found, operandsIndex));
      assert forall k | 0 <= k < |key[1..]| :: key[1..][k] == key[k + 1];
      AssignGroup(key[1..], found);
      found' := AssignTrue(found, key[1..]);
      stop := IsEndOfOptionsDelimiter(arguments, next);
      SetOperandsIndex(if stop then next + 1 else next, found');
    }

    /** `processArguments`, run on freshly declared parameters. */
    method ProcessArguments(isNumber: string -> bool)
      requires Valid() && operandsIndex == 0 && Mirrors(map[])
      modifies this`operandsIndex, Parameters()
      ensures Valid() && fields == old(fields)
      ensures arguments == old(arguments) && optionNameToParameter == old(optionNameToParameter) && binders == old(binders)
      ensures operandsIndex == Process(arguments, old(Declared()), isNumber).operandsIndex
      ensures Mirrors(Process(arguments, old(Declared()), isNumber).found)
    {
      ghost var decl := Declared();
      ghost var found: map<char, string> := map[];
      var available := AreArgumentsAvailableNow();
      if available {
        var index := 0;
        while index < |arguments|
          invariant index <= |arguments| + 1
          invariant Valid() && fields == old(fields) && Declared() == decl
          invariant arguments == old(arguments) && optionNameToParameter == old(optionNameToParameter) && binders == old(binders)
          invariant Mirrors(found)
          invariant ScanFrom(arguments, index, decl, isNumber, ScanState(found, operandsIndex)) ==
            Process(arguments, decl, isNumber)
          decreases |arguments| + 1 - index
        {
          var stop: bool;
          if GetParameterByKey(arguments[index]) != null {
            OptionStep(arguments, index, decl, isNumber, ScanState(found, operandsIndex));
            index, stop, found := ScanOption(index, isNumber, decl, found);
          } else {
            index, stop, found := ScanOther(index, isNumber, decl, found);
          }
          if stop {
            break;
          }
        }
      }
    }

    /** `areArgumentsAvailable` */
    method AreArgumentsAvailableNow() returns (available: bool)
      requires Valid()
      ensures available == AreArgumentsAvailable(arguments, Declared())
    {
      available := |arguments| != 0 && StartsWith(arguments[0], "-") && optionNameToParameter != map[];
      if optionNameToParameter != map[] {
        var c :| c in optionNameToParameter;
        assert c in Declared();
      }
    }

    /** `getParameterByKey` */
    function GetParameterByKey(key: string): (p: Parameter?)
      reads this
      ensures p != null <==> IsOption(key) && key[1] in optionNameToParameter
      ensures p != null ==> p == optionNameToParameter[key[1]]
    {
      if IsOption(key) && key[1] in optionNameToParameter then optionNameToParameter[key[1]] else null
    }

    /** `isBoolean` on a declared parameter. */
    predicate IsBoolean(parameter: Parameter)
      reads parameter
      requires parameter.field.Some?
    {
      IsBooleanField(parameter.field.value)
    }

    /** `isBooleanGroup`: its loop clears the flag at any character that is
        not a declared boolean option. */
    method IsBooleanGroupNow(key: string) returns (isBooleanGroup: bool)
      requires Valid()
      ensures isBooleanGroup == IsBooleanGroup(key, Declared())
    {
      isBooleanGroup := false;
      if StartsWith(key, "-") && |key| > 2 {
        isBooleanGroup := true;
        var k := 1;
        while k < |key|
          invariant 1 <= k <= |key|
          invariant isBooleanGroup <==> forall i | 1 <= i < k :: key[i] in Declared() && Declared()[key[i]]
        {
          var option := key[k];
          var parameter := if option in optionNameToParameter then optionNameToParameter[option] else null;
          if parameter == null || !IsBoolean(parameter) {
            isBooleanGroup := false;
          }
          k := k + 1;
        }
      }
    }

    /** `getOperands`: the tokens from the operands index on, each followed
        by a space, then trimmed. */
    method GetOperands() returns (operands: string)
      ensures operands == OperandsOf(arguments, operandsIndex)
    {
      var builder := "";
      if operandsIndex < |arguments| {
        var index := operandsIndex;
        while index < |arguments|
          invariant operandsIndex <= index <= |arguments|
          invariant builder == Terminated(arguments[operandsIndex..index])
        {
          assert arguments[operandsIndex..index + 1] == arguments[operandsIndex..index] + [arguments[index]];
          TerminatedSnoc(arguments[operandsIndex..index], arguments[index]);
          builder := builder + arguments[index] + " ";
          index := index + 1;
        }
        assert arguments[operandsIndex..index] == arguments[operandsIndex..];
        TerminatedIsJoinPlusSpace(arguments[operandsIndex..]);
        TrimDropsTrailingSpace(Join(" ", arguments[operandsIndex..]));
      }
      operands := Trim(builder);
    }

    /** `bindValue`: the binders in order until one does not throw. */
    method BindValue(parameter: Parameter) returns (used: Option<nat>)
      requires parameter.field.Some? && parameter.argument.Some?
      ensures used == FirstAccepting(binders, parameter.field.value, parameter.argument.value, 0)
    {
      var f := parameter.field.value;
      var argument := parameter.argument.value;
      used := None;
      var k := 0;
      while k < |binders|
        invariant 0 <= k <= |binders|
        invariant FirstAccepting(binders, f, argument, 0) == FirstAccepting(binders, f, argument, k)
      {
        if binders[k](f, argument) {
          return Some(k);
        }
        k := k + 1;
      }
    }

    /** `bindValues`: bindValue for each parameter of getParameters. */
    method BindValues() returns (bindings: seq<Binding>)
      requires Valid()
      ensures forall i, j | 0 <= i < j < |bindings| :: bindings[i].name < bindings[j].name
      ensures forall i | 0 <= i < |bindings| ::
        var c := bindings[i].name;
        c in optionNameToParameter && optionNameToParameter[c].argument.Some? &&
        bindings[i].binder == FirstAccepting(binders, optionNameToParameter[c].field.value, optionNameToParameter[c].argument.value, 0)
      ensures forall c | c in optionNameToParameter && optionNameToParameter[c].argument.Some? ::
        exists i | 0 <= i < |bindings| :: bindings[i].name == c
    {
      var parameters := GetParameters();
      bindings := BindAll(parameters);
      forall c | c in optionNameToParameter && optionNameToParameter[c].argument.Some?
        ensures exists k | 0 <= k < |bindings| :: bindings[k].name == c
      {
        var k :| 0 <= k < |parameters| && parameters[k] == optionNameToParameter[c];
        assert bindings[k].name == c;
      }
    }

    /** The loop of `bindValues` over the parameters, in their order. */
    method BindAll(parameters: seq<Parameter>) returns (bindings: seq<Binding>)
      requires forall k | 0 <= k < |parameters| ::
        parameters[k].option.Some? && parameters[k].field.Some? && parameters[k].argument.Some?
      ensures |bindings| == |parameters|
      ensures forall k | 0 <= k < |parameters| ::
        bindings[k] == Binding(parameters[k].option.value.name,
          FirstAccepting(binders, parameters[k].field.value, parameters[k].argument.value, 0))
    {
      bindings := [];
      for i := 0 to |parameters|
        invariant |bindings| == i
        invariant forall k | 0 <= k < i ::
          bindings[k] == Binding(parameters[k].option.value.name,
            FirstAccepting(binders, parameters[k].field.value, parameters[k].argument.value, 0))
      {
        var used := BindValue(parameters[i]);
        bindings := bindings + [Binding(parameters[i].option.value.name, used)];
      }
    }

    /** `getParameters`: the parameters that got an argument, sorted by
        option name. */
    method GetParameters() returns (parameters: seq<Parameter>)
      requires Valid()
      ensures forall i | 0 <= i < |parameters| ::
        parameters[i].option.Some? && parameters[i].option.value.name in optionNameToParameter &&
        parameters[i] == optionNameToParameter[parameters[i].option.value.name] &&
        parameters[i].argument.Some?
      ensures forall i, j | 0 <= i < j < |parameters| :: parameters[i].CompareTo(parameters[j]) < 0
      ensures forall c | c in optionNameToParameter && optionNameToParameter[c].argument.Some? ::
        optionNameToParameter[c] in parameters
    {
      parameters := SortedByName(set c | c in optionNameToParameter && optionNameToParameter[c].argument.Some?);
    }

    /** `getDeclaredParameters`: all parameters, sorted by option name. */
    method GetDeclaredParameters() returns (parameters: seq<Parameter>)
      requires Valid()
      ensures forall i | 0 <= i < |parameters| ::
        parameters[i].option.Some? && parameters[i].option.value.name in optionNameToParameter &&
        parameters[i] == optionNameToParameter[parameters[i].option.value.name]
      ensures forall i, j | 0 <= i < j < |parameters| :: parameters[i].CompareTo(parameters[j]) < 0
      ensures forall c | c in optionNameToParameter :: optionNameToParameter[c] in parameters
    {
      parameters := SortedByName(optionNameToParameter.Keys);
    }

    /** Collections.sort by compareTo of the parameters filed under the
        given names: the parameters in the order of their names. */
    method SortedByName(names: set<char>) returns (parameters: seq<Parameter>)
      requires Valid() && names <= optionNameToParameter.Keys
      ensures forall i | 0 <= i < |parameters| ::
        parameters[i].option.Some? && parameters[i].option.value.name in names &&
        parameters[i] == optionNameToParameter[parameters[i].option.value.name]
      ensures forall i, j | 0 <= i < j < |parameters| :: parameters[i].CompareTo(parameters[j]) < 0
      ensures forall c | c in names :: optionNameToParameter[c] in parameters
    {
      var chosen := SortedNames(names);
      parameters := [];
      for i := 0 to |chosen|
        invariant |parameters| == i
        invariant forall k | 0 <= k < i :: parameters[k] == optionNameToParameter[chosen[k]]
      {
        parameters := parameters + [optionNameToParameter[chosen[i]]];
      }
      forall i | 0 <= i < |parameters|
        ensures parameters[i].option == Some(LegacyOption(chosen[i]))
      {
      }
      forall c | c in names
        ensures optionNameToParameter[c] in parameters
      {
        var i :| 0 <= i < |chosen| && chosen[i] == c;
        assert parameters[i] == optionNameToParameter[c];
      }
    }
  }

  /** The names in ascending order, by repeatedly taking the least
      remaining one. */
  method SortedNames(names: set<char>) returns (chosen: seq<char>)
    ensures forall i | 0 <= i < |chosen| :: chosen[i] in names
    ensures forall c | c in names :: c in chosen
    ensures forall i, j | 0 <= i < j < |chosen| :: chosen[i] < chosen[j]
  {
    chosen := [];
    var remaining := names;
    while remaining != {}
      invariant remaining <= names
      invariant forall i | 0 <= i < |chosen| :: chosen[i] in names && chosen[i] !in remaining
      invariant forall i, d | 0 <= i < |chosen| && d in remaining :: chosen[i] < d
      invariant forall i, j | 0 <= i < j < |chosen| :: chosen[i] < chosen[j]
      invariant forall c | c in names && c !in remaining :: c in chosen
      decreases |remaining|
    {
      ghost var least := Least(remaining);
      var c :| c in remaining && forall d | d in remaining :: c <= d;
      chosen := chosen + [c];
      remaining := remaining - {c};
    }
  }

  /** The least element of a non-empty finite set of characters. */
  ghost function Least(s: set<char>): (m: char)
    requires s != {}
    ensures m in s && forall d | d in s :: m <= d
    decreases |s|
  {
    var x :| x in s;
    if s == {x} then x
    else
      var m := Least(s - {x});
      assert forall d | d in s && d != x :: d in s - {x};
      if x < m then x else m
  }
}
