/** BaseMapper: converts one string to a value of a requested type by an
    ordered chain of strategies: the string itself for java.lang.String, then
    a static `valueOf` of the (wrapper) type, then a one-String constructor.
    The reflective lookups and calls are parameters of the model. */
module BaseMapper {
  import opened Common
  import opened JavaTypes

  /** A `valueOf` method found by Class.getMethod: where it lives, what it
      takes, and whether it is static. */
  datatype ValueOfMethod = ValueOfMethod(owner: JavaType, parameter: JavaType, isStatic: bool)

  /** The argument handed to `valueOf`: a boxed char or the string. */
  datatype Argument = CharArgument(c: char) | StringArgument(s: string)

  /** The reflection the mapper uses.  Each lookup or call answers None where
      Java would throw one of the exceptions the mapper catches (or, for a
      call, return null). */
  datatype Reflection = Reflection(
    forName: string -> Option<JavaType>,                      // Class.forName
    getValueOf: (JavaType, JavaType) -> Option<ValueOfMethod>, // getMethod("valueOf", parameterType)
    invoke: (ValueOfMethod, Argument) -> Option<Value>,        // valueOf.invoke(null, argument)
    newInstance: (JavaType, string) -> Option<Value>)          // getConstructor(String.class).newInstance

  /** `isCharacter` */
  predicate IsCharacter(t: JavaType) {
    IsCharacterType(t)
  }

  /** The simple name of the java.lang wrapper class of each primitive type. */
  function WrapperName(k: PrimitiveKind): string {
    match k
    case BooleanKind => "Boolean"
    case ByteKind => "Byte"
    case CharKind => "Character"
    case ShortKind => "Short"
    case IntKind => "Integer"
    case LongKind => "Long"
    case FloatKind => "Float"
    case DoubleKind => "Double"
  }

  /** Character.toUpperCase on the ASCII letters. */
  function ToUpper(c: char): (r: char)
    ensures 'a' <= c <= 'z' ==> 'A' <= r <= 'Z' && r as int == c as int - 32
    ensures !('a' <= c <= 'z') ==> r == c
  {
    if 'a' <= c <= 'z' then (c as int - 32) as char else c
  }

  /** `toCamelCase`: the first character upper-cased, the rest unchanged. */
  function ToCamelCase(input: string): (r: string)
    requires |input| > 0
    ensures |r| == |input| && r[0] == ToUpper(input[0]) && r[1..] == input[1..]
  {
    [ToUpper(input[0])] + input[1..]
  }

  /** `getWrappingClassName` */
  function GetWrappingClassName(primitiveClassName: string): string
    requires |primitiveClassName| > 0
  {
    if primitiveClassName == "int" then "Integer"
    else if primitiveClassName == "char" then "Character"
    else ToCamelCase(primitiveClassName)
  }

  /** The name table gives the wrapper class of every primitive type. */
  lemma WrappingClassNames(k: PrimitiveKind)
    ensures GetWrappingClassName(PrimitiveName(k)) == WrapperName(k)
  {
    match k
    case BooleanKind => assert ToCamelCase("boolean") == "B" + "oolean";
    case ByteKind => assert ToCamelCase("byte") == "B" + "yte";
    case CharKind =>
    case ShortKind => assert ToCamelCase("short") == "S" + "hort";
    case IntKind =>
    case LongKind => assert ToCamelCase("long") == "L" + "ong";
    case FloatKind => assert ToCamelCase("float") == "F" + "loat";
    case DoubleKind => assert ToCamelCase("double") == "D" + "ouble";
  }

  /** `getType`: the class whose `valueOf` is looked up.  A primitive type is
      replaced by its wrapper, found by name; None is ClassNotFoundException. */
  function GetType(reflection: Reflection, t: JavaType): (r: Option<JavaType>)
    ensures t.Primitive? ==> r == reflection.forName("java.lang." + WrapperName(t.kind))
    ensures !t.Primitive? ==> r == Some(t)
  {
    if t.Primitive? then
      WrappingClassNames(t.kind);
      reflection.forName("java.lang." + GetWrappingClassName(Name(t)))
    else Some(t)
  }

  /** `getParameterType` */
  function GetParameterType(t: JavaType): (r: JavaType)
    ensures IsCharacter(t) <==> r == Primitive(CharKind)
    ensures !IsCharacter(t) <==> r == StringType
  {
    if IsCharacter(t) then Primitive(CharKind) else StringType
  }

  /** `getArgument`: for a character type, the value's only character, or
      null when the value is not exactly one character long. */
  function GetArgument(t: JavaType, value: string): (r: Option<Argument>)
    ensures r.None? <==> IsCharacter(t) && |value| != 1
    ensures IsCharacter(t) && |value| == 1 ==> r == Some(CharArgument(value[0]))
    ensures !IsCharacter(t) ==> r == Some(StringArgument(value))
  {
    if IsCharacter(t) then
      if |value| == 1 then Some(CharArgument(value[0])) else None
    else Some(StringArgument(value))
  }

  /** `tryStaticValueOf`: call `valueOf(parameterType)` of the (wrapper)
      type when it exists, is static and there is an argument; null on any
      caught failure. */
  function TryStaticValueOf(reflection: Reflection, cls: JavaType, value: string): (r: Option<Value>)
    ensures r.Some? ==> GetType(reflection, cls).Some? && GetArgument(cls, value).Some?
    ensures r.Some? ==>
      var m := reflection.getValueOf(GetType(reflection, cls).value, GetParameterType(cls));
      m.Some? && m.value.isStatic && r == reflection.invoke(m.value, GetArgument(cls, value).value)
    ensures var t := GetType(reflection, cls);
      t.Some? && GetArgument(cls, value).Some? &&
      reflection.getValueOf(t.value, GetParameterType(cls)).Some? &&
      reflection.getValueOf(t.value, GetParameterType(cls)).value.isStatic ==>
        r == reflection.invoke(reflection.getValueOf(t.value, GetParameterType(cls)).value, GetArgument(cls, value).value)
  {
    match GetType(reflection, cls)
    case None => None
    case Some(fieldType) =>
      match reflection.getValueOf(fieldType, GetParameterType(cls))
      case None => None
      case Some(valueOf) =>
        var argument := GetArgument(cls, value);
        if valueOf.isStatic && argument.Some? then reflection.invoke(valueOf, argument.value)
        else None
  }

  /** `tryStringConstructor`: `new cls(value)` when such a constructor is
      there; null on any caught failure. */
  function TryStringConstructor(reflection: Reflection, cls: JavaType, value: string): Option<Value> {
    reflection.newInstance(cls, value)
  }

  /** `map`: the first strategy that gives a non-null result, or null. */
  function Map(reflection: Reflection, value: string, cls: JavaType): (r: Option<Value>)
    ensures cls == StringType ==> r == Some(Text(value))
    ensures cls != StringType && TryStaticValueOf(reflection, cls, value).Some? ==>
      r == TryStaticValueOf(reflection, cls, value)
    ensures cls != StringType && TryStaticValueOf(reflection, cls, value).None? ==>
      r == TryStringConstructor(reflection, cls, value)
  {
    if cls == StringType then Some(Text(value))
    else
      var viaValueOf := TryStaticValueOf(reflection, cls, value);
      if viaValueOf.Some? then viaValueOf else TryStringConstructor(reflection, cls, value)
  }

  /** A String target never consults reflection: any two reflections agree. */
  lemma StringIsIdentity(r1: Reflection, r2: Reflection, value: string)
    ensures Map(r1, value, StringType) == Map(r2, value, StringType) == Some(Text(value))
  {
  }

  /** The constructor is consulted only when `valueOf` gave nothing: two
      reflections that agree up to the `valueOf` call map alike whenever that
      call succeeds, whatever their constructors do. */
  lemma ValueOfShadowsConstructor(r1: Reflection, r2: Reflection, value: string, cls: JavaType)
    requires r1.forName == r2.forName && r1.getValueOf == r2.getValueOf && r1.invoke == r2.invoke
    requires TryStaticValueOf(r1, cls, value).Some?
    ensures Map(r1, value, cls) == Map(r2, value, cls)
  {
    assert GetType(r1, cls) == GetType(r2, cls);
  }

  /** A type with neither strategy available maps to null, not an error. */
  lemma UnsupportedTypeIsNull(reflection: Reflection, value: string, cls: JavaType)
    requires cls != StringType
    requires forall t, p :: reflection.getValueOf(t, p).None?
    requires forall v :: reflection.newInstance(cls, v).None?
    ensures Map(reflection, value, cls).None?
  {
  }

  /** A character type never reaches `valueOf` with a value that is not one
      character long: only the constructor is left. */
  lemma CharacterNeedsOneChar(reflection: Reflection, value: string, cls: JavaType)
    requires IsCharacter(cls) && |value| != 1
    ensures Map(reflection, value, cls) == TryStringConstructor(reflection, cls, value)
  {
    assert GetArgument(cls, value).None?;
  }

  /** The `valueOf` looked up for a primitive type is the one of its wrapper
      class, taking `char` for `char` and String for the others. */
  lemma PrimitiveUsesWrapper(reflection: Reflection, k: PrimitiveKind, value: string)
    requires TryStaticValueOf(reflection, Primitive(k), value).Some?
    ensures var w := reflection.forName("java.lang." + WrapperName(k));
      w.Some? &&
      reflection.getValueOf(w.value, if k == CharKind then Primitive(CharKind) else StringType).Some?
  {
  }
}
