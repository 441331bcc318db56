/** The slice of the Java type system the binder and the mapper look at:
    field types (java.lang.Class), the values reflection produces, and the
    exceptions the library throws or catches. */
module JavaTypes {
  import opened Common

  /** The eight primitive types a field can have. */
  datatype PrimitiveKind = BooleanKind | ByteKind | CharKind | ShortKind | IntKind | LongKind | FloatKind | DoubleKind

  /** A field type.  A reference type is known by its binary name and by
      whether java.util.List / java.util.Set is assignable from it. */
  datatype JavaType =
    | Primitive(kind: PrimitiveKind)
    | Reference(name: string, isList: bool, isSet: bool)
    | ArrayType(component: JavaType)

  const StringType := Reference("java.lang.String", false, false)
  const BooleanType := Reference("java.lang.Boolean", false, false)
  const CharacterType := Reference("java.lang.Character", false, false)

  /** Class.getName of a primitive type. */
  function PrimitiveName(k: PrimitiveKind): (r: string)
    ensures |r| > 0
  {
    match k
    case BooleanKind => "boolean"
    case ByteKind => "byte"
    case CharKind => "char"
    case ShortKind => "short"
    case IntKind => "int"
    case LongKind => "long"
    case FloatKind => "float"
    case DoubleKind => "double"
  }

  /** The one-letter code a primitive has inside an array class name. */
  function PrimitiveCode(k: PrimitiveKind): char {
    match k
    case BooleanKind => 'Z'
    case ByteKind => 'B'
    case CharKind => 'C'
    case ShortKind => 'S'
    case IntKind => 'I'
    case LongKind => 'J'
    case FloatKind => 'F'
    case DoubleKind => 'D'
  }

  /** The descriptor of a component type inside an array class name. */
  function Descriptor(t: JavaType): string {
    match t
    case Primitive(k) => [PrimitiveCode(k)]
    case Reference(n, _, _) => "L" + n + ";"
    case ArrayType(c) => "[" + Descriptor(c)
  }

  /** Class.getName, as used in the "Cannot map" message. */
  function Name(t: JavaType): string {
    match t
    case Primitive(k) => PrimitiveName(k)
    case Reference(n, _, _) => n
    case ArrayType(c) => "[" + Descriptor(c)
  }

  /** `cls.equals(boolean.class) || cls.equals(Boolean.class)` */
  predicate IsBooleanType(t: JavaType) {
    t == Primitive(BooleanKind) || t == BooleanType
  }

  /** `type.equals(char.class) || type.equals(Character.class)` */
  predicate IsCharacterType(t: JavaType) {
    t == Primitive(CharKind) || t == CharacterType
  }

  /** A value a field can be given.  The objects that reflection creates
      (through a static valueOf or a String constructor) are opaque: they are
      known by their class and the text they were made from. */
  datatype Value =
    | Text(s: string)                               // a java.lang.String
    | Flag(b: bool)                                 // a java.lang.Boolean
    | Instance(cls: JavaType, source: string)       // created by reflection
    | ListOf(items: seq<string>)                    // the values list itself
    | SetOf(items: seq<string>)                     // a LinkedHashSet
    | ArrayOf(component: JavaType, elements: seq<Value>)

  /** The exceptions of the library and of reflection that reach a caller. */
  datatype Failure =
    | UtilArgsException(message: string)
    | IllegalAccessException
    | IllegalArgumentException
}
