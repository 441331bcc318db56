/** Binder: gives a field the value its kind calls for (boolean, List, Set,
    array or scalar), under a configurable single-value policy, converting
    strings through a mapper. */
module Binding {
  import opened Common
  import opened JavaTypes
  import BaseMapper

  /** Mapper.map: a value of the requested type, or null. */
  type Mapper = (string, JavaType) -> Option<Value>

  /** The `useFirst` / `useLast` configuration of a binder. */
  datatype Policy = Policy(useFirst: bool, useLast: bool)

  /** `isBoolean` */
  predicate IsBoolean(cls: JavaType) {
    IsBooleanType(cls)
  }

  /** The exception `ensureType` throws for a value the mapper cannot map. */
  function CannotMap(value: string, cls: JavaType): Failure {
    UtilArgsException("Cannot map " + value + " to " + Name(cls))
  }

  /** The exception `selectValue` throws when both policies are off. */
  function CannotSelect(values: seq<string>): Failure {
    UtilArgsException("Cannot select single value from [" + Join(",", values) + "]")
  }

  /** `ensureType`: the mapper's non-null result, or an exception. */
  function EnsureType(mapper: Mapper, value: string, cls: JavaType): (r: Result<Value, Failure>)
    ensures r.Success? <==> mapper(value, cls).Some?
    ensures r.Success? ==> mapper(value, cls) == Some(r.value)
    ensures r.Failure? ==> r.error == CannotMap(value, cls)
  {
    match mapper(value, cls)
    case Some(v) => Success(v)
    case None => Failure(CannotMap(value, cls))
  }

  /** `selectValue`: the first value, else the last, else an exception,
      whatever the number of values. */
  function SelectValue(policy: Policy, values: seq<string>): (r: Result<string, Failure>)
    requires |values| > 0
    ensures r.Success? <==> policy.useFirst || policy.useLast
    ensures r.Success? ==> r.value in values
    ensures policy.useFirst ==> r == Success(values[0])
    ensures !policy.useFirst && policy.useLast ==> r == Success(values[|values| - 1])
    ensures !policy.useFirst && !policy.useLast ==> r == Failure(CannotSelect(values))
  {
    if policy.useFirst then Success(values[0])
    else if policy.useLast then Success(values[|values| - 1])
    else Failure(CannotSelect(values))
  }

  /** useFirst wins over useLast. */
  lemma FirstWins(policy: Policy, values: seq<string>)
    requires |values| > 0 && policy.useFirst
    ensures SelectValue(policy, values) == Success(values[0])
  {
  }

  /** useLast applies only when useFirst is off. */
  lemma LastWhenFirstOff(policy: Policy, values: seq<string>)
    requires |values| > 0 && !policy.useFirst && policy.useLast
    ensures SelectValue(policy, values) == Success(values[|values| - 1])
  {
  }

  /** With both policies off even a single value is refused. */
  lemma BothOffRefusesEvenOne(policy: Policy, value: string)
    requires !policy.useFirst && !policy.useLast
    ensures SelectValue(policy, [value]) == Failure(CannotSelect([value]))
    ensures CannotSelect([value]) == UtilArgsException("Cannot select single value from [" + value + "]")
  {
  }

  /** The loop `Array.set(array, i, ensureType(values.get(i), type))`, as a
      function over the prefix it has filled: it stops at the first value
      the mapper cannot map. */
  function MapAll(mapper: Mapper, values: seq<string>, cls: JavaType): Result<seq<Value>, Failure>
    decreases |values|
  {
    if values == [] then Success([])
    else
      match MapAll(mapper, values[..|values| - 1], cls)
      case Failure(e) => Failure(e)
      case Success(vs) =>
        match EnsureType(mapper, values[|values| - 1], cls)
        case Failure(e) => Failure(e)
        case Success(v) => Success(vs + [v])
  }

  /** The array is filled exactly when every value maps, element i being the
      mapping of value i. */
  lemma {:induction false} MapAllSuccess(mapper: Mapper, values: seq<string>, cls: JavaType)
    ensures MapAll(mapper, values, cls).Success? <==>
      forall i | 0 <= i < |values| :: mapper(values[i], cls).Some?
    ensures MapAll(mapper, values, cls).Success? ==>
      |MapAll(mapper, values, cls).value| == |values| &&
      forall i | 0 <= i < |values| :: mapper(values[i], cls) == Some(MapAll(mapper, values, cls).value[i])
    decreases |values|
  {
    if values != [] {
      var init := values[..|values| - 1];
      MapAllSuccess(mapper, init, cls);
      assert forall i | 0 <= i < |init| :: init[i] == values[i];
    }
  }

  /** The exception reported names the first value that cannot be mapped. */
  lemma {:induction false} MapAllFailure(mapper: Mapper, values: seq<string>, cls: JavaType, k: nat)
    requires k < |values| && mapper(values[k], cls).None?
    requires forall j | 0 <= j < k :: mapper(values[j], cls).Some?
    ensures MapAll(mapper, values, cls) == Failure(CannotMap(values[k], cls))
    decreases |values|
  {
    var init := values[..|values| - 1];
    assert forall j | 0 <= j < |init| :: init[j] == values[j];
    if k == |values| - 1 {
      MapAllSuccess(mapper, init, cls);
    } else {
      MapAllFailure(mapper, init, cls, k);
    }
  }

  /** Once a prefix fails, the whole array fails with the same exception. */
  lemma {:induction false} MapAllFailurePropagates(mapper: Mapper, values: seq<string>, cls: JavaType, n: nat)
    requires n <= |values| && MapAll(mapper, values[..n], cls).Failure?
    ensures MapAll(mapper, values, cls) == MapAll(mapper, values[..n], cls)
    decreases |values| - n
  {
    if n < |values| {
      var next := values[..n + 1];
      assert next[..|next| - 1] == values[..n];
      MapAllFailurePropagates(mapper, values, cls, n + 1);
    } else {
      assert values[..n] == values;
    }
  }

  /** The array-filling loop, over a fresh array of the values' length. */
  method FillArray(mapper: Mapper, values: seq<string>, component: JavaType) returns (r: Result<seq<Value>, Failure>)
    ensures r == MapAll(mapper, values, component)
  {
    var slots := new Value[|values|];
    var i := 0;
    while i < |values|
      invariant 0 <= i <= |values|
      invariant MapAll(mapper, values[..i], component) == Success(slots[..i])
    {
      assert values[..i + 1][..i] == values[..i];
      var element := EnsureType(mapper, values[i], component);
      if element.Failure? {
        MapAllFailurePropagates(mapper, values, component, i + 1);
        return Failure(element.error);
      }
      slots[i] := element.value;
      assert slots[..i + 1] == slots[..i] + [element.value];
      i := i + 1;
    }
    assert values[..i] == values && slots[..i] == slots[..];
    return Success(slots[..]);
  }

  /** `resolve`: what the field gets (None: leave it alone), or the
      exception raised on the way. */
  function ResolveSpec(policy: Policy, mapper: Mapper, values: Option<seq<string>>, cls: JavaType): Result<Option<Value>, Failure> {
    if values.None? || values.value == [] then Success(None)
    else if IsBoolean(cls) then Success(Some(Flag(true)))
    else if cls.Reference? && cls.isList then Success(Some(ListOf(values.value)))
    else if cls.Reference? && cls.isSet then Success(Some(SetOf(Distinct(values.value))))
    else if cls.ArrayType? then
      match MapAll(mapper, values.value, cls.component)
      case Failure(e) => Failure(e)
      case Success(elements) => Success(Some(ArrayOf(cls.component, elements)))
    else
      match SelectValue(policy, values.value)
      case Failure(e) => Failure(e)
      case Success(v) =>
        match EnsureType(mapper, v, cls)
        case Failure(e) => Failure(e)
        case Success(x) => Success(Some(x))
  }

  /** No values: the field is left alone, whatever its type. */
  lemma NoValuesNoChange(policy: Policy, mapper: Mapper, values: Option<seq<string>>, cls: JavaType)
    requires values.None? || values.value == []
    ensures ResolveSpec(policy, mapper, values, cls) == Success(None)
  {
  }

  /** A boolean field becomes true whatever the values say. */
  lemma BooleanIsTrue(policy: Policy, mapper: Mapper, values: seq<string>, cls: JavaType)
    requires values != [] && IsBoolean(cls)
    ensures ResolveSpec(policy, mapper, Some(values), cls) == Success(Some(Flag(true)))
  {
  }

  /** A List field gets the values themselves: unconverted, in order, with
      any repeats. */
  lemma ListGetsValues(policy: Policy, mapper: Mapper, values: seq<string>, cls: JavaType)
    requires values != [] && cls.Reference? && cls.isList && !IsBoolean(cls)
    ensures ResolveSpec(policy, mapper, Some(values), cls) == Success(Some(ListOf(values)))
  {
  }

  /** A Set field gets each value once, unconverted, in first-seen order. */
  lemma SetGetsDistinctValues(policy: Policy, mapper: Mapper, values: seq<string>, cls: JavaType)
    requires values != [] && cls.Reference? && !cls.isList && cls.isSet && !IsBoolean(cls)
    ensures var r := ResolveSpec(policy, mapper, Some(values), cls);
      r.Success? && r.value.Some? && r.value.value.SetOf? &&
      NoDup(r.value.value.items) &&
      (forall x :: x in r.value.value.items <==> x in values) &&
      InFirstOccurrenceOrder(r.value.value.items, values)
  {
    DistinctElements(values);
    DistinctOrder(values);
  }

  /** An array field gets one mapped element per value, or the exception
      for the first value that does not map. */
  lemma ArrayElementwise(policy: Policy, mapper: Mapper, values: seq<string>, cls: JavaType)
    requires values != [] && cls.ArrayType?
    ensures var r := ResolveSpec(policy, mapper, Some(values), cls);
      r.Success? <==> forall i | 0 <= i < |values| :: mapper(values[i], cls.component).Some?
    ensures var r := ResolveSpec(policy, mapper, Some(values), cls);
      r.Success? ==> (r.value.Some? && r.value.value.ArrayOf? &&
        r.value.value.component == cls.component &&
        |r.value.value.elements| == |values| &&
        forall i | 0 <= i < |values| :: mapper(values[i], cls.component) == Some(r.value.value.elements[i]))
  {
    MapAllSuccess(mapper, values, cls.component);
  }

  lemma ArrayFirstFailure(policy: Policy, mapper: Mapper, values: seq<string>, cls: JavaType, k: nat)
    requires cls.ArrayType? && k < |values| && mapper(values[k], cls.component).None?
    requires forall j | 0 <= j < k :: mapper(values[j], cls.component).Some?
    ensures ResolveSpec(policy, mapper, Some(values), cls) == Failure(CannotMap(values[k], cls.component))
  {
    MapAllFailure(mapper, values, cls.component, k);
  }

  /** Any other field gets the mapping of the one value the policy picks. */
  lemma ScalarMapsSelected(policy: Policy, mapper: Mapper, values: seq<string>, cls: JavaType)
    requires values != [] && !IsBoolean(cls) && !cls.ArrayType?
    requires !(cls.Reference? && (cls.isList || cls.isSet))
    requires policy.useFirst || policy.useLast
    ensures var chosen := if policy.useFirst then values[0] else values[|values| - 1];
      ResolveSpec(policy, mapper, Some(values), cls) ==
        if mapper(chosen, cls).Some? then Success(Some(mapper(chosen, cls).value))
        else Failure(CannotMap(chosen, cls))
  {
  }

  /** A field written by Field.set.  It may refuse the write: a final static
      field throws IllegalAccessException, a value of the wrong class
      IllegalArgumentException. */
  class FieldSlot {
    const fieldType: JavaType
    const writable: bool
    const accepts: Value -> bool
    var value: Option<Value>

    constructor(fieldType: JavaType, writable: bool, accepts: Value -> bool, initial: Option<Value>)
      ensures this.fieldType == fieldType && this.writable == writable
      ensures this.accepts == accepts && this.value == initial
    {
      this.fieldType := fieldType;
      this.writable := writable;
      this.accepts := accepts;
      this.value := initial;
    }

    /** Field.set */
    method Set(v: Value) returns (outcome: Outcome<Failure>)
      modifies this
      ensures !writable ==> outcome == Fail(IllegalAccessException) && value == old(value)
      ensures writable && !accepts(v) ==> outcome == Fail(IllegalArgumentException) && value == old(value)
      ensures writable && accepts(v) ==> outcome == Pass && value == Some(v)
    {
      if !writable {
        return Fail(IllegalAccessException);
      }
      if !accepts(v) {
        return Fail(IllegalArgumentException);
      }
      value := Some(v);
      return Pass;
    }
  }

  class Binder {
    var useFirst: bool
    var useLast: bool
    var mapper: Mapper

    /** A new binder: both policies on, the base mapper. */
    constructor(reflection: BaseMapper.Reflection)
      ensures useFirst && useLast
      ensures forall v, c :: mapper(v, c) == BaseMapper.Map(reflection, v, c)
    {
      useFirst := true;
      useLast := true;
      mapper := (v, c) => BaseMapper.Map(reflection, v, c);
    }

    function CurrentPolicy(): Policy
      reads this
    {
      Policy(useFirst, useLast)
    }

    method WithUseFirst(useFirst: bool) returns (self: Binder)
      modifies this
      ensures self == this && this.useFirst == useFirst
      ensures useLast == old(useLast) && mapper == old(mapper)
    {
      this.useFirst := useFirst;
      return this;
    }

    method WithUseLast(useLast: bool) returns (self: Binder)
      modifies this
      ensures self == this && this.useLast == useLast
      ensures useFirst == old(useFirst) && mapper == old(mapper)
    {
      this.useLast := useLast;
      return this;
    }

    method WithMapper(mapper: Mapper) returns (self: Binder)
      modifies this
      ensures self == this && this.mapper == mapper
      ensures useFirst == old(useFirst) && useLast == old(useLast)
    {
      this.mapper := mapper;
      return this;
    }

    /** `resolve`: the executable form of ResolveSpec, which the lemmas
        above describe kind by kind. */
    method Resolve(values: Option<seq<string>>, cls: JavaType) returns (r: Result<Option<Value>, Failure>)
      ensures r == ResolveSpec(CurrentPolicy(), mapper, values, cls)
    {
      if values.None? || values.value == [] {
        return Success(None);
      } else if IsBoolean(cls) {
        return Success(Some(Flag(true)));
      } else if cls.Reference? && cls.isList {
        return Success(Some(ListOf(values.value)));
      } else if cls.Reference? && cls.isSet {
        return Success(Some(SetOf(Distinct(values.value))));
      } else if cls.ArrayType? {
        var elements := FillArray(mapper, values.value, cls.component);
        if elements.Failure? {
          return Failure(elements.error);
        }
        return Success(Some(ArrayOf(cls.component, elements.value)));
      } else {
        var selected := SelectValue(CurrentPolicy(), values.value);
        if selected.Failure? {
          return Failure(selected.error);
        }
        var mapped := EnsureType(mapper, selected.value, cls);
        if mapped.Failure? {
          return Failure(mapped.error);
        }
        return Success(Some(mapped.value));
      }
    }

    /** `bind`: write the resolved value, if any, into the field.  An
        exception leaves the field as it was. */
    method Bind(slot: FieldSlot, values: Option<seq<string>>) returns (outcome: Outcome<Failure>)
      modifies slot
      ensures var resolved := ResolveSpec(CurrentPolicy(), mapper, values, slot.fieldType);
        match resolved
        case Failure(e) => outcome == Fail(e) && slot.value == old(slot.value)
        case Success(None) => outcome == Pass && slot.value == old(slot.value)
        case Success(Some(v)) =>
          if !slot.writable then outcome == Fail(IllegalAccessException) && slot.value == old(slot.value)
          else if !slot.accepts(v) then outcome == Fail(IllegalArgumentException) && slot.value == old(slot.value)
          else outcome == Pass && slot.value == Some(v)
    {
      var resolved := Resolve(values, slot.fieldType);
      match resolved
      case Failure(e) =>
        return Fail(e);
      case Success(None) =>
        return Pass;
      case Success(Some(v)) =>
        outcome := slot.Set(v);
    }
  }
}
