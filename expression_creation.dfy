/** `createExpression`: the TypeScript expression for each node of the
    intermediate tree. Primitives become literals, arrays and objects
    become array and object literals of the converted children, a
    placeholder function becomes an arrow returning a template, and a
    plural function becomes an arrow whose block tests `count` against
    each numbered form and returns the catch-all form last. */
module ExpressionCreation {
  import opened Wrappers
  import opened JsStrings
  import opened OrderedMaps
  import opened JsonValues
  import opened Intermediate
  import opened TsAst
  import opened ParameterCreation
  import opened TemplateCreation

  /** `createLiteral(value)` */
  function CreateValue(p: PrimitiveValue): (e: Expression)
    ensures LiteralValue(e) == Some(p)
  {
    match p
    case PString(s) => StringLiteral(s)
    case PNumber(n) => NumericLiteral(n)
    case PBool(b) => BooleanLiteral(b)
  }

  /** The primitive a literal node denotes, if it is one. */
  function LiteralValue(e: Expression): Option<PrimitiveValue> {
    match e
    case StringLiteral(s) => Some(PString(s))
    case NumericLiteral(n) => Some(PNumber(n))
    case BooleanLiteral(b) => Some(PBool(b))
    case _ => None
  }

  /** `createExpression`: the tag guards are tried in turn; a node no
      guard accepts would give the literal of
      `SyntaxKind.UndefinedKeyword`'s number. Only templates can
      throw, and the first child that throws ends the conversion. */
  function CreateExpression(v: ValueDescription): (r: Result<Expression>)
    ensures r.Ok? ==> r.value != KeywordKindLiteral
    decreases v, 2
  {
    if IsPrimitiveValueDescription(v) then Ok(CreateValue(v.value))
    else if IsArrayValueDescription(v) then CreateArray(v.valueDescriptions)
    else if IsObjectValueDescription(v) then CreateObject(v.propertyDescriptions)
    else if IsPlaceholderFunctionValueDescription(v) then CreatePlaceholderFunction(v.args, v.stringParts)
    else if IsPluralFunctionValueDescription(v) then CreatePluralFunction(v.args, v.values)
    else Ok(KeywordKindLiteral)
  }

  /** `valueDescriptions.map(createExpression)` */
  function CreateElements(items: seq<ValueDescription>): Result<seq<Expression>>
    decreases items, 0
  {
    if items == [] then Ok([])
    else
      match CreateExpression(items[0])
      case TypeError(p) => TypeError(p)
      case Ok(e) =>
        match CreateElements(items[1..])
        case TypeError(p) => TypeError(p)
        case Ok(es) => Ok([e] + es)
  }

  /** `createArray` */
  function CreateArray(items: seq<ValueDescription>): (r: Result<Expression>)
    ensures r.Ok? ==> r.value.ArrayLiteral?
    decreases items, 1
  {
    match CreateElements(items)
    case TypeError(p) => TypeError(p)
    case Ok(es) => Ok(ArrayLiteral(es))
  }

  /** `createPropertyAssignment(key, createExpression(value))` */
  function CreateProperty(entry: Entry<ValueDescription>): (r: Result<PropertyAssignment>)
    ensures r.Ok? ==> r.value.name == entry.key
    decreases entry, 3
  {
    match CreateExpression(entry.value)
    case TypeError(p) => TypeError(p)
    case Ok(e) => Ok(PropertyAssignment(entry.key, e))
  }

  /** The property assignments of `createObject`'s loop, one per entry. */
  function CreateProperties(ps: seq<Entry<ValueDescription>>): Result<seq<PropertyAssignment>>
    decreases ps, 0
  {
    if ps == [] then Ok([])
    else
      match CreateProperty(ps[0])
      case TypeError(p) => TypeError(p)
      case Ok(a) =>
        match CreateProperties(ps[1..])
        case TypeError(p) => TypeError(p)
        case Ok(rest) => Ok([a] + rest)
  }

  /** `createObject` */
  function CreateObject(ps: seq<Entry<ValueDescription>>): (r: Result<Expression>)
    ensures r.Ok? ==> r.value.ObjectLiteral?
    decreases ps, 1
  {
    match CreateProperties(ps)
    case TypeError(p) => TypeError(p)
    case Ok(props) => Ok(ObjectLiteral(props))
  }

  /** `createPlaceholderFunction`: `(args) => template`. */
  function CreatePlaceholderFunction(args: seq<Arg>, stringParts: seq<Part>): (r: Result<Expression>)
    ensures r.Ok? ==> r.value.ArrowFunction? && r.value.body.ExpressionBody?
  {
    match CreateTemplate(stringParts)
    case TypeError(p) => TypeError(p)
    case Ok(template) => Ok(ArrowFunction(CreateParameters(args), ExpressionBody(template)))
  }

  /** What a plural form returns: a string literal for a plain string,
      the template of its parts otherwise. */
  function BranchValue(value: PluralValue): Result<Expression> {
    match value
    case LiteralForm(text) => Ok(StringLiteral(text))
    case PartsForm(parts) => CreateTemplate(parts)
  }

  /** `createLiteral(parseInt(key, 10))`, `NaN` for a key without digits. */
  function KeyLiteral(key: string): Expression {
    match ParseInt(key)
    case Some(n) => NumericLiteral(n)
    case None => NaNLiteral
  }

  /** The condition `count === parseInt(key, 10)`. */
  function CountIs(key: string): Expression {
    StrictEquals(Identifier("count"), KeyLiteral(key))
  }

  /** `if (count === key) { return value; }` for one numbered form. */
  function PluralBranch(form: Entry<PluralValue>): Result<Statement> {
    match BranchValue(form.value)
    case TypeError(p) => TypeError(p)
    case Ok(e) => Ok(If(CountIs(form.key), [Return(e)]))
  }

  /** The `filter`/`map` over the keys: one branch per key other than `"n"`. */
  function PluralBranches(values: seq<Entry<PluralValue>>): (r: Result<seq<Statement>>)
    ensures r.TypeError? ==> r.property == "name"
    ensures r.Ok? ==>
      && |r.value| == |WithoutKey(values, PluralFormNthKey)|
      && forall j :: 0 <= j < |r.value| ==>
           r.value[j].If? && r.value[j].condition == CountIs(WithoutKey(values, PluralFormNthKey)[j].key)
  {
    var forms := WithoutKey(values, PluralFormNthKey);
    MapAllSpec(PluralBranch, forms);
    MapAllError(PluralBranch, forms);
    MapAll(PluralBranch, forms)
  }

  /** `return` of the catch-all form. A missing form is `undefined`, which
      is not a string, so `createTemplate(undefined)` throws reading `0`;
      a present form throws only at an `undefined` part. */
  function NthReturn(values: seq<Entry<PluralValue>>): (r: Result<Statement>)
    ensures r.Ok? ==> r.value.Return? && HasKey(values, PluralFormNthKey)
    ensures r.TypeError? ==> (r.property == "0" <==> !HasKey(values, PluralFormNthKey))
  {
    match Get(values, PluralFormNthKey)
    case None => TypeError("0")
    case Some(value) =>
      match BranchValue(value)
      case TypeError(p) => TypeError(p)
      case Ok(e) => Ok(Return(e))
  }

  /** `createPluralFunction`: the branches are built before the catch-all. */
  function CreatePluralFunction(args: seq<Arg>, values: seq<Entry<PluralValue>>): (r: Result<Expression>)
    ensures r.Ok? ==> r.value.ArrowFunction? && r.value.body.BlockBody?
  {
    match PluralBranches(values)
    case TypeError(p) => TypeError(p)
    case Ok(branches) =>
      match NthReturn(values)
      case TypeError(p) => TypeError(p)
      case Ok(last) => Ok(ArrowFunction(CreateParameters(args), BlockBody(branches + [last])))
  }

  /** The element conversion is the throwing `map` of `createExpression`. */
  lemma {:induction false} CreateElementsIsMapAll(items: seq<ValueDescription>)
    ensures CreateElements(items) == MapAll(CreateExpression, items)
    decreases |items|
  {
    if items != [] {
      CreateElementsIsMapAll(items[1..]);
    }
  }

  /** The property conversion is the throwing `map` of `CreateProperty`. */
  lemma {:induction false} CreatePropertiesIsMapAll(ps: seq<Entry<ValueDescription>>)
    ensures CreateProperties(ps) == MapAll(CreateProperty, ps)
    decreases |ps|
  {
    if ps != [] {
      CreatePropertiesIsMapAll(ps[1..]);
    }
  }

  /** `createObject`'s loop: one assignment pushed per entry, in entry
      order; an entry whose expression throws ends the loop with that
      error. */
  method EmitObject(ps: seq<Entry<ValueDescription>>) returns (r: Result<Expression>)
    ensures r == CreateObject(ps)
  {
    CreatePropertiesIsMapAll(ps);
    var propertyAssignments: seq<PropertyAssignment> := [];
    var i := 0;
    while i < |ps|
      invariant 0 <= i <= |ps|
      invariant |propertyAssignments| == i
      invariant forall j :: 0 <= j < i ==> CreateProperty(ps[j]) == Ok(propertyAssignments[j])
    {
      var e := CreateExpression(ps[i].value);
      if e.TypeError? {
        MapAllFirstError(CreateProperty, ps, i);
        return TypeError(e.property);
      }
      propertyAssignments := propertyAssignments + [PropertyAssignment(ps[i].key, e.value)];
      i := i + 1;
    }
    MapAllSpec(CreateProperty, ps);
    assert MapAll(CreateProperty, ps).value == propertyAssignments;
    r := Ok(ObjectLiteral(propertyAssignments));
  }

  /** `createPluralFunction`: the branches from `filter`/`map`, then the
      catch-all `return` pushed after them. */
  method EmitPluralFunction(args: seq<Arg>, values: seq<Entry<PluralValue>>) returns (r: Result<Expression>)
    ensures r == CreatePluralFunction(args, values)
  {
    var parameters := CreateParameters(args);
    var branches := PluralBranches(values);
    if branches.TypeError? {
      return TypeError(branches.property);
    }
    var statements := branches.value;
    var nthValue := Get(values, PluralFormNthKey);
    if nthValue.None? {
      return TypeError("0");
    }
    var returned := BranchValue(nthValue.value);
    if returned.TypeError? {
      return TypeError(returned.property);
    }
    statements := statements + [Return(returned.value)];
    r := Ok(ArrowFunction(parameters, BlockBody(statements)));
  }
}
