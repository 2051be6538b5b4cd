/** The intermediate value-description tree (IR) built from the JSON input
    and consumed by the TypeScript emitter. */
module Intermediate {
  import opened OrderedMaps

  /** The values a `Primitive` node wraps: `boolean | number | string`. */
  datatype PrimitiveValue = PString(s: string) | PNumber(n: int) | PBool(b: bool)

  /** The placeholder types; each member's value is the token written after
      the colon of a placeholder. */
  datatype ArgType = String | Number | ToString {
    function Value(): string {
      match this
      case String => "string"
      case Number => "number"
      case ToString => "toString"
    }
  }

  datatype Arg = Arg(name: string, argType: ArgType)

  /** One element of a `StringPart` array: literal text, a reference to an
      argument by name, or the `undefined` the parts builder can push. */
  datatype Part = Text(text: string) | ArgName(name: string) | Undefined

  /** A form of a plural function: a literal string or a parts sequence. */
  datatype PluralValue = LiteralForm(text: string) | PartsForm(parts: seq<Part>)

  datatype ValueDescription =
    | Primitive(value: PrimitiveValue)
    | Object(propertyDescriptions: seq<Entry<ValueDescription>>)
    | Array(valueDescriptions: seq<ValueDescription>)
    | PlaceholderFunction(args: seq<Arg>, stringParts: seq<Part>)
    | PluralFunction(args: seq<Arg>, values: seq<Entry<PluralValue>>)

  /** The `type` tag each node carries. */
  datatype ValueDescriptionType =
    | PrimitiveType | ObjectType | ArrayType | PlaceholderFunctionType | PluralFunctionType

  function TypeOf(v: ValueDescription): ValueDescriptionType {
    match v
    case Primitive(_) => PrimitiveType
    case Object(_) => ObjectType
    case Array(_) => ArrayType
    case PlaceholderFunction(_, _) => PlaceholderFunctionType
    case PluralFunction(_, _) => PluralFunctionType
  }

  /** The map from each `ArgType` value to its member, built once. */
  function ReverseArgType(): map<string, ArgType> {
    map t: ArgType | true :: t.Value() := t
  }

  /** The argument type a placeholder's type token denotes: the member
      whose value is the token, `String` for any other token. */
  function GetTypeFrom(typeName: string): (t: ArgType)
    ensures typeName == "string" ==> t == String
    ensures typeName == "number" ==> t == Number
    ensures typeName == "toString" ==> t == ToString
    ensures typeName !in {"number", "toString"} ==> t == String
  {
    var reverse := ReverseArgType();
    assert String.Value() in reverse && Number.Value() in reverse && ToString.Value() in reverse;
    if typeName in reverse then reverse[typeName] else String
  }

  /** Reading a member's own value back gives the member. */
  lemma GetTypeFromValue(t: ArgType)
    ensures GetTypeFrom(t.Value()) == t
  {
  }

  predicate IsPrimitiveValueDescription(v: ValueDescription) { TypeOf(v) == PrimitiveType }
  predicate IsObjectValueDescription(v: ValueDescription) { TypeOf(v) == ObjectType }
  predicate IsArrayValueDescription(v: ValueDescription) { TypeOf(v) == ArrayType }
  predicate IsPlaceholderFunctionValueDescription(v: ValueDescription) { TypeOf(v) == PlaceholderFunctionType }
  predicate IsPluralFunctionValueDescription(v: ValueDescription) { TypeOf(v) == PluralFunctionType }

  /** A primitive node whose value is a string. */
  predicate IsPrimitiveStringValueDescription(v: ValueDescription) {
    TypeOf(v) == PrimitiveType && v.value.PString?
  }

  /** Each guard holds exactly for its own variant, so exactly one holds. */
  lemma GuardsPartition(v: ValueDescription)
    ensures IsPrimitiveValueDescription(v) <==> v.Primitive?
    ensures IsObjectValueDescription(v) <==> v.Object?
    ensures IsArrayValueDescription(v) <==> v.Array?
    ensures IsPlaceholderFunctionValueDescription(v) <==> v.PlaceholderFunction?
    ensures IsPluralFunctionValueDescription(v) <==> v.PluralFunction?
    ensures IsPrimitiveStringValueDescription(v) <==> v.Primitive? && v.value.PString?
    ensures IsPrimitiveStringValueDescription(v) ==> IsPrimitiveValueDescription(v)
  {
  }
}
