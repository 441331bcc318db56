/** ValuesSelector: picks the values recorded for one declared option, which
    may be given under its primary name or its alternative name. */
module ValuesSelector {
  import opened Common
  import opened ArgumentsParser

  /** The `value` and `alternative` names of an option annotation. */
  datatype OptionDecl = OptionDecl(value: string, alternative: string)

  /** Map.get: the list under a key, or null. */
  function Lookup(arguments: Arguments, key: string): (r: Option<seq<string>>)
    ensures r.Some? <==> key in arguments
    ensures r.Some? ==> r.value == arguments[key]
  {
    if key in arguments then Some(arguments[key]) else None
  }

  /** `combineValues`: null when both lists are null, otherwise the
      LinkedHashSet of the first list's values followed by the second's. */
  function CombineValues(a: Option<seq<string>>, b: Option<seq<string>>): (r: Option<seq<string>>)
    ensures r.None? <==> a.None? && b.None?
  {
    if a.None? && b.None? then None
    else Some(Distinct(a.GetOr([]) + b.GetOr([])))
  }

  /** `select` */
  function Select(arguments: Arguments, option: OptionDecl): (r: Option<seq<string>>)
    ensures r.None? <==> option.value !in arguments && option.alternative !in arguments
  {
    CombineValues(Lookup(arguments, option.value), Lookup(arguments, option.alternative))
  }

  /** The values of a name, or nothing when the name was not given. */
  function ValuesOf(arguments: Arguments, key: string): seq<string> {
    Lookup(arguments, key).GetOr([])
  }

  /** Only the two names are consulted: maps that agree on them give the
      same selection, whatever else they hold. */
  lemma OtherKeysIgnored(a1: Arguments, a2: Arguments, option: OptionDecl)
    requires Lookup(a1, option.value) == Lookup(a2, option.value)
    requires Lookup(a1, option.alternative) == Lookup(a2, option.alternative)
    ensures Select(a1, option) == Select(a2, option)
  {
  }

  /** Adding or changing a key other than the two names leaves the
      selection alone. */
  lemma UnrelatedKeyIgnored(arguments: Arguments, option: OptionDecl, key: string, values: seq<string>)
    requires key != option.value && key != option.alternative
    ensures Select(arguments[key := values], option) == Select(arguments, option)
  {
    OtherKeysIgnored(arguments[key := values], arguments, option);
  }

  /** The selection holds each value given under either name, once. */
  lemma SelectedElements(arguments: Arguments, option: OptionDecl)
    requires option.value in arguments || option.alternative in arguments
    ensures Select(arguments, option).Some?
    ensures NoDup(Select(arguments, option).value)
    ensures forall x :: x in Select(arguments, option).value <==>
      x in ValuesOf(arguments, option.value) || x in ValuesOf(arguments, option.alternative)
  {
    var all := ValuesOf(arguments, option.value) + ValuesOf(arguments, option.alternative);
    DistinctElements(all);
    assert forall x :: x in all <==>
      x in ValuesOf(arguments, option.value) || x in ValuesOf(arguments, option.alternative);
  }

  /** Values given under the primary name come first, in their own order. */
  lemma PrimaryValuesFirst(arguments: Arguments, option: OptionDecl)
    requires option.value in arguments
    ensures Select(arguments, option).Some?
    ensures Distinct(arguments[option.value]) <= Select(arguments, option).value
  {
    DistinctPrefix(arguments[option.value], ValuesOf(arguments, option.alternative));
  }

  /** The selection keeps the order of first occurrence: primary values in
      their recorded order, then alternative values not seen before. */
  lemma SelectedOrder(arguments: Arguments, option: OptionDecl)
    requires option.value in arguments || option.alternative in arguments
    ensures Select(arguments, option).Some?
    ensures InFirstOccurrenceOrder(Select(arguments, option).value,
      ValuesOf(arguments, option.value) + ValuesOf(arguments, option.alternative))
  {
    DistinctOrder(ValuesOf(arguments, option.value) + ValuesOf(arguments, option.alternative));
  }

  /** Appending values that are already present changes nothing. */
  lemma {:induction false} DistinctAbsorbs(a: seq<string>, b: seq<string>)
    requires forall x | x in b :: x in a
    ensures Distinct(a + b) == Distinct(a)
    decreases |b|
  {
    if b == [] {
      assert a + b == a;
    } else {
      var ab := a + b;
      assert ab[..|ab| - 1] == a + b[..|b| - 1];
      DistinctAbsorbs(a, b[..|b| - 1]);
      DistinctElements(a);
      assert b[|b| - 1] in a;
    }
  }

  /** When only one of the two names was given, the selection is that
      name's list without duplicates. */
  lemma OnlyPrimaryGiven(arguments: Arguments, option: OptionDecl)
    requires option.value in arguments && option.alternative !in arguments
    ensures Select(arguments, option) == Some(Distinct(arguments[option.value]))
  {
    assert arguments[option.value] + [] == arguments[option.value];
  }

  lemma OnlyAlternativeGiven(arguments: Arguments, option: OptionDecl)
    requires option.value !in arguments && option.alternative in arguments
    ensures Select(arguments, option) == Some(Distinct(arguments[option.alternative]))
  {
    assert [] + arguments[option.alternative] == arguments[option.alternative];
  }

  /** A value given under both names is listed once. */
  lemma SameNameTwice(arguments: Arguments, option: OptionDecl)
    requires option.value == option.alternative && option.value in arguments
    ensures Select(arguments, option) == Some(Distinct(arguments[option.value]))
  {
    DistinctAbsorbs(arguments[option.value], arguments[option.value]);
  }

  /** On what the parser produces (no value recorded twice), an option given
      under one name only gets its recorded list unchanged. */
  lemma ParsedValuesKept(args: seq<string>, option: OptionDecl)
    requires option.value in Parsed(args) && option.alternative !in Parsed(args)
    ensures Select(Parsed(args), option) == Some(Parsed(args)[option.value])
  {
    ParsedWellFormed(args);
    OnlyPrimaryGiven(Parsed(args), option);
    DistinctOfNoDup(Parsed(args)[option.value]);
  }
}
