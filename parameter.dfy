/** The legacy model of one declared option: its annotation, the argument
    found for it and the field it binds to, ordered by option name. */
module ParameterModel {
  import opened Common

  /** The legacy @Option annotation: a one-character name. */
  datatype LegacyOption = LegacyOption(name: char)

  /** What the legacy code reads of a java.lang.reflect.Field: its name and
      the simple name of its type. */
  datatype FieldInfo = FieldInfo(name: string, typeSimpleName: string)

  class Parameter {
    var option: Option<LegacyOption>
    var argument: Option<string>
    var field: Option<FieldInfo>

    /** A new parameter holds nothing (all three fields null). */
    constructor()
      ensures option.None? && argument.None? && field.None?
    {
      option := None;
      argument := None;
      field := None;
    }

    function GetOption(): Option<LegacyOption>
      reads this
    {
      option
    }

    function GetArgument(): Option<string>
      reads this
    {
      argument
    }

    function GetField(): Option<FieldInfo>
      reads this
    {
      field
    }

    method SetOption(option: Option<LegacyOption>)
      modifies this
      ensures GetOption() == option
      ensures argument == old(argument) && field == old(field)
    {
      this.option := option;
    }

    method SetArgument(argument: Option<string>)
      modifies this
      ensures GetArgument() == argument
      ensures option == old(option) && field == old(field)
    {
      this.argument := argument;
    }

    method SetField(field: Option<FieldInfo>)
      modifies this
      ensures GetField() == field
      ensures option == old(option) && argument == old(argument)
    {
      this.field := field;
    }

    /** `compareTo`: 0 when either side has no option (or o is null),
        otherwise the difference of the option names as characters. */
    function CompareTo(o: Parameter?): (r: int)
      reads this, o
      ensures o == null || o.option.None? || option.None? ==> r == 0
      ensures o != null && o.option.Some? && option.Some? ==>
        (r < 0 <==> option.value.name < o.option.value.name) &&
        (r == 0 <==> option.value.name == o.option.value.name)
    {
      if o == null || o.option.None? || option.None? then 0
      else option.value.name as int - o.option.value.name as int
    }
  }

  /** Every parameter compares equal to itself. */
  lemma CompareToReflexive(p: Parameter)
    ensures p.CompareTo(p) == 0
  {
  }

  /** Swapping the operands negates the result when both options exist. */
  lemma CompareToAntisymmetric(p: Parameter, q: Parameter)
    requires p.option.Some? && q.option.Some?
    ensures p.CompareTo(q) == -q.CompareTo(p)
  {
  }

  /** Among parameters that all have options the order is transitive. */
  lemma CompareToTransitive(p: Parameter, q: Parameter, s: Parameter)
    requires p.option.Some? && q.option.Some? && s.option.Some?
    requires p.CompareTo(q) < 0 && q.CompareTo(s) < 0
    ensures p.CompareTo(s) < 0
  {
  }

  /** A parameter without an option compares equal to both of two
      parameters that compare unequal to each other: the order is a total
      order only on parameters that have options. */
  lemma MissingOptionEqualsEverything(p: Parameter, n: Parameter, q: Parameter)
    requires p.option.Some? && q.option.Some? && n.option.None?
    requires p.option.value.name < q.option.value.name
    ensures p.CompareTo(n) == 0 && n.CompareTo(q) == 0 && p.CompareTo(q) < 0
  {
  }
}
