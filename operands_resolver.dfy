/** OperandsResolver: finds where the operands begin, from the option names
    declared by the target objects' fields, and returns the tokens from
    there on joined by spaces. */
module OperandsResolver {
  import opened Common
  import opened JavaTypes
  import opened ValuesSelector

  /** A declared field: its option annotation, if any, and its type. */
  datatype DeclaredField = DeclaredField(annotation: Option<OptionDecl>, fieldType: JavaType)

  /** `findOptions`: the annotations on the fields of all targets, keeping
      only boolean fields when asked to. */
  function FindOptions(targets: seq<seq<DeclaredField>>, booleanOnly: bool): (r: set<OptionDecl>)
    ensures forall t, f | t in targets && f in t && f.annotation.Some? && (!booleanOnly || IsBooleanType(f.fieldType)) ::
      f.annotation.value in r
    ensures forall o | o in r :: exists t, f | t in targets && f in t ::
      f.annotation == Some(o) && (!booleanOnly || IsBooleanType(f.fieldType))
  {
    set t, f | t in targets && f in t && f.annotation.Some? && (!booleanOnly || IsBooleanType(f.fieldType)) ::
      f.annotation.value
  }

  /** `findValues`: the first character of each non-empty primary name. */
  function FindValues(options: set<OptionDecl>): (r: set<string>)
    ensures forall s | s in r :: |s| == 1
    ensures forall o | o in options && o.value != "" :: o.value[..1] in r
    ensures forall s | s in r :: exists o | o in options :: o.value != "" && o.value[..1] == s
  {
    set o | o in options && o.value != "" :: o.value[..1]
  }

  /** `findAlternatives`: the non-empty alternative names. */
  function FindAlternatives(options: set<OptionDecl>): (r: set<string>)
    ensures "" !in r
    ensures forall o | o in options :: o.alternative in r <==> o.alternative != ""
    ensures forall s | s in r :: exists o | o in options :: o.alternative == s
  {
    set o | o in options && o.alternative != "" :: o.alternative
  }

  /** The four name sets the scan consults. */
  datatype Names = Names(
    booleanValues: set<string>, booleanAlternatives: set<string>,
    allValues: set<string>, allAlternatives: set<string>)

  function NamesOf(targets: seq<seq<DeclaredField>>): Names {
    var booleanOptions := FindOptions(targets, true);
    var allOptions := FindOptions(targets, false);
    Names(FindValues(booleanOptions), FindAlternatives(booleanOptions),
          FindValues(allOptions), FindAlternatives(allOptions))
  }

  /** Every boolean option is also among all options. */
  lemma BooleanNamesAreDeclared(targets: seq<seq<DeclaredField>>)
    ensures NamesOf(targets).booleanValues <= NamesOf(targets).allValues
    ensures NamesOf(targets).booleanAlternatives <= NamesOf(targets).allAlternatives
  {
    assert FindOptions(targets, true) <= FindOptions(targets, false);
  }

  /** The compiled pattern `[c1c2...]+` matches the whole key: the key is
      non-empty and every character is a boolean short name.  There is no
      pattern at all when there are no boolean short names. */
  predicate GroupMatches(key: string, names: Names) {
    names.booleanValues != {} && |key| > 0 && forall k | 0 <= k < |key| :: [key[k]] in names.booleanValues
  }

  predicate IsLong(arg: string) { StartsWith(arg, "--") && |arg| > 2 }
  predicate IsShort(arg: string) { StartsWith(arg, "-") && |arg| == 2 }
  predicate IsGroup(arg: string) { StartsWith(arg, "-") && |arg| > 2 }

  /** A token naming a boolean option (or a boolean group): the operands
      may start right after it. */
  predicate IsFlagToken(arg: string, names: Names) {
    if IsLong(arg) then arg[2..] in names.booleanAlternatives
    else if IsShort(arg) then arg[1..] in names.booleanValues
    else if IsGroup(arg) then GroupMatches(arg[1..], names)
    else false
  }

  /** A token naming an option that takes a value: the operands may start
      after the value. */
  predicate TakesValue(arg: string, names: Names) {
    if IsLong(arg) then arg[2..] !in names.booleanAlternatives && arg[2..] in names.allAlternatives
    else if IsShort(arg) then arg[1..] !in names.booleanValues && arg[1..] in names.allValues
    else false
  }

  /** One iteration of the loop: the new operands index after the token at
      `index`. */
  function Step(args: seq<string>, index: nat, operandsIndex: nat, names: Names): (r: nat)
    requires index < |args|
    ensures IsFlagToken(args[index], names) ==> r == index + 1
    ensures TakesValue(args[index], names) ==> r == index + 2
    ensures !IsFlagToken(args[index], names) && !TakesValue(args[index], names) ==> r == operandsIndex
  {
    var arg := args[index];
    if StartsWith(arg, "--") && |arg| > 2 then
      var key := arg[2..];
      if key in names.booleanAlternatives then index + 1
      else if key in names.allAlternatives then index + 2
      else operandsIndex
    else if StartsWith(arg, "-") && |arg| == 2 then
      var key := arg[1..];
      if key in names.booleanValues then index + 1
      else if key in names.allValues then index + 2
      else operandsIndex
    else if StartsWith(arg, "-") && |arg| > 2 then
      var key := arg[1..];
      if GroupMatches(key, names) then index + 1 else operandsIndex
    else operandsIndex
  }

  /** A recognised token is a flag token or one that takes a value, never
      both. */
  predicate Recognised(arg: string, names: Names) {
    IsFlagToken(arg, names) || TakesValue(arg, names)
  }

  lemma FlagOrValueNotBoth(arg: string, names: Names)
    ensures !(IsFlagToken(arg, names) && TakesValue(arg, names))
  {
  }

  /** The loop from `index` on, with the operands index found so far. */
  function BoundaryFrom(args: seq<string>, index: nat, operandsIndex: nat, names: Names): nat
    decreases |args| - index
  {
    if index >= |args| then operandsIndex
    else BoundaryFrom(args, index + 1, Step(args, index, operandsIndex, names), names)
  }

  function Boundary(args: seq<string>, names: Names): nat {
    BoundaryFrom(args, 0, 0, names)
  }

  /** `resolve`: the joined operands, or the exception copyOfRange throws
      when the boundary lies past the end. */
  function Operands(args: seq<string>, names: Names): Result<string, Failure> {
    var b := Boundary(args, names);
    if b > |args| then Failure(IllegalArgumentException) else Success(Join(" ", args[b..]))
  }

  function ResolveSpec(args: seq<string>, targets: seq<seq<DeclaredField>>): Result<string, Failure> {
    Operands(args, NamesOf(targets))
  }

  /** `resolve` */
  method Resolve(args: seq<string>, targets: seq<seq<DeclaredField>>) returns (r: Result<string, Failure>)
    ensures r == ResolveSpec(args, targets)
  {
    var names := NamesOf(targets);
    var operandsIndex := 0;
    var index := 0;
    while index < |args|
      invariant 0 <= index <= |args|
      invariant BoundaryFrom(args, index, operandsIndex, names) == Boundary(args, names)
    {
      var arg := args[index];
      if StartsWith(arg, "--") && |arg| > 2 {
        var key := arg[2..];
        if key in names.booleanAlternatives {
          operandsIndex := index + 1;
        } else if key in names.allAlternatives {
          operandsIndex := index + 2;
        }
      } else if StartsWith(arg, "-") && |arg| == 2 {
        var key := arg[1..];
        if key in names.booleanValues {
          operandsIndex := index + 1;
        } else if key in names.allValues {
          operandsIndex := index + 2;
        }
      } else if StartsWith(arg, "-") && |arg| > 2 {
        var key := arg[1..];
        if GroupMatches(key, names) {
          operandsIndex := index + 1;
        }
      }
      index := index + 1;
    }
    if operandsIndex > |args| {
      return Failure(IllegalArgumentException);
    }
    return Success(Join(" ", args[operandsIndex..]));
  }

  /** The operands index never moves back and never passes index + 1 before
      the token at index is looked at. */
  lemma {:induction false} BoundaryMonotone(args: seq<string>, index: nat, operandsIndex: nat, names: Names)
    requires index <= |args| && operandsIndex <= index + 1
    ensures operandsIndex <= BoundaryFrom(args, index, operandsIndex, names) <= |args| + 1
    decreases |args| - index
  {
    if index < |args| {
      BoundaryMonotone(args, index + 1, Step(args, index, operandsIndex, names), names);
    }
  }

  /** Tokens none of which is recognised leave the operands index alone. */
  lemma {:induction false} UnrecognisedTail(args: seq<string>, index: nat, operandsIndex: nat, names: Names)
    requires index <= |args|
    requires forall j | index <= j < |args| :: !Recognised(args[j], names)
    ensures BoundaryFrom(args, index, operandsIndex, names) == operandsIndex
    decreases |args| - index
  {
    if index < |args| {
      UnrecognisedTail(args, index + 1, operandsIndex, names);
    }
  }

  /** The operands start right after the last recognised token (after its
      value, for an option that takes one). */
  lemma {:induction false} LastRecognisedDecides(args: seq<string>, names: Names, i: nat, index: nat, operandsIndex: nat)
    requires index <= i < |args| && Recognised(args[i], names)
    requires forall j | i < j < |args| :: !Recognised(args[j], names)
    ensures BoundaryFrom(args, index, operandsIndex, names) ==
      if IsFlagToken(args[i], names) then i + 1 else i + 2
    decreases |args| - index
  {
    if index < i {
      LastRecognisedDecides(args, names, i, index + 1, Step(args, index, operandsIndex, names));
    } else {
      UnrecognisedTail(args, i + 1, Step(args, i, operandsIndex, names), names);
    }
  }

  /** With no recognised token the operands are the whole input. */
  lemma NothingRecognised(args: seq<string>, names: Names)
    requires forall j | 0 <= j < |args| :: !Recognised(args[j], names)
    ensures Operands(args, names) == Success(Join(" ", args))
  {
    UnrecognisedTail(args, 0, 0, names);
    assert args[0..] == args;
  }

  lemma EmptyInput(names: Names)
    ensures Operands([], names) == Success("")
  {
  }

  /** copyOfRange fails exactly when the last token is an option that takes
      a value: the value it expects is missing. */
  lemma FailsIffValueMissing(args: seq<string>, names: Names)
    ensures Operands(args, names).Failure? <==>
      |args| > 0 && TakesValue(args[|args| - 1], names)
  {
    if |args| > 0 {
      var n := |args| - 1;
      if TakesValue(args[n], names) {
        LastRecognisedDecides(args, names, n, 0, 0);
      } else {
        ResultBeforeLast(args, names, 0, 0);
        BoundaryMonotone(args, n, BoundaryFrom(args, 0, 0, names), names);
      }
    }
  }

  /** Whatever the last token is, the index reached before it is at most the
      number of tokens; only that token can push it one further. */
  lemma {:induction false} ResultBeforeLast(args: seq<string>, names: Names, index: nat, operandsIndex: nat)
    requires 0 < |args| && index <= |args| - 1 && operandsIndex <= index + 1
    requires !TakesValue(args[|args| - 1], names)
    ensures BoundaryFrom(args, index, operandsIndex, names) <= |args|
    decreases |args| - index
  {
    if index < |args| - 1 {
      BoundaryMonotone(args, index, operandsIndex, names);
      ResultBeforeLast(args, names, index + 1, Step(args, index, operandsIndex, names));
    }
  }

  /** Without boolean options no group token is recognised. */
  lemma NoBooleansNoGroups(arg: string, names: Names)
    requires names.booleanValues == {} && IsGroup(arg) && !IsLong(arg)
    ensures !Recognised(arg, names)
  {
  }

  /** A group (a token that is not a long option) is recognised only if
      each of its characters is a boolean short name. */
  lemma GroupNeedsEveryChar(arg: string, names: Names, k: nat)
    requires IsGroup(arg) && !IsLong(arg) && 1 <= k < |arg| && [arg[k]] !in names.booleanValues
    ensures !Recognised(arg, names)
  {
    assert arg[1..][k - 1] == arg[k];
  }
}
