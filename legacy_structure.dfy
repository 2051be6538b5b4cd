/** The flat description of the first converter: one property description
    per key of the top-level object, tagged as a plain string, a
    placeholder function or anything else. */
module LegacyStructure {
  import opened JsonValues

  /** `PropertyType`, a numeric enum. */
  datatype PropertyType = NoneString | String | PlaceholderFunction

  /** The string enum `ArgType`: each member has a name and a value. */
  datatype ArgType = StringArg | NumberArg | ToStringArg {
    /** The member's name, the key of the enum object. */
    function MemberName(): string {
      match this
      case StringArg => "String"
      case NumberArg => "Number"
      case ToStringArg => "ToString"
    }

    /** The member's value, the text a generated parameter type uses. */
    function Value(): string {
      match this
      case StringArg => "string"
      case NumberArg => "number"
      case ToStringArg => "toString"
    }
  }

  datatype Arg = Arg(name: string, argType: ArgType)

  /** An entry of a `StringTemplate`: literal text, a full argument, or the
      `undefined` the conversion can push. */
  datatype TemplateItem = TemplateText(text: string) | TemplateArg(arg: Arg) | TemplateUndefined

  /** The three value descriptions a property can carry. */
  datatype ValueDescription =
    | NoneStringValue(value: Json)
    | StringValue(s: string)
    | PlaceholderFunctionValue(args: seq<Arg>, stringTemplate: seq<TemplateItem>)

  datatype PropertyDescription = PropertyDescription(propertyType: PropertyType, key: string, valueDescription: ValueDescription)

  datatype ObjectDescription = ObjectDescription(propertyDescriptions: seq<PropertyDescription>)

  /** The enum object keyed by member name (a string enum has no reverse
      entries from values). */
  function ArgTypeByName(): map<string, ArgType> {
    map t: ArgType | true :: t.MemberName() := t
  }

  /** `getTypeFrom`: the member whose NAME is the token, `String` for any
      other token. */
  function GetTypeFrom(typeName: string): (t: ArgType)
    ensures typeName == "Number" ==> t == NumberArg
    ensures typeName == "ToString" ==> t == ToStringArg
    ensures typeName !in {"Number", "ToString"} ==> t == StringArg
  {
    var byName := ArgTypeByName();
    assert StringArg.MemberName() in byName && NumberArg.MemberName() in byName && ToStringArg.MemberName() in byName;
    if typeName in byName then byName[typeName] else StringArg
  }

  /** Looking a member up by its own name gives the member back. */
  lemma GetTypeFromMemberName(t: ArgType)
    ensures GetTypeFrom(t.MemberName()) == t
  {
  }

  /** The value tokens written in placeholders are not member names, so
      `{n: number}` is typed as a string. */
  lemma ValueTokensAreStrings()
    ensures GetTypeFrom(NumberArg.Value()) == StringArg
    ensures GetTypeFrom(StringArg.Value()) == StringArg
  {
  }
}
