/** What the emitter promises about the expressions it builds: each node
    becomes the literal or function of its own tag, children are
    converted in order, a plural function tests each numbered form before
    returning the catch-all, and emission fails exactly on an `undefined`
    part or a missing catch-all form. */
module EmissionProperties {
  import opened Wrappers
  import opened JsStrings
  import opened OrderedMaps
  import opened JsonValues
  import opened Intermediate
  import opened StringParts
  import opened TsAst
  import opened ParameterCreation
  import opened TemplateCreation
  import opened ExpressionCreation

  /** Each tag is turned into a node of its own kind: a primitive into the
      literal denoting it, an array into an array literal, an object into
      an object literal, a placeholder function into an arrow returning an
      expression and a plural function into an arrow with a block. */
  lemma CreateExpressionByTag(v: ValueDescription)
    ensures v.Primitive? ==> CreateExpression(v).Ok? && LiteralValue(CreateExpression(v).value) == Some(v.value)
    ensures CreateExpression(v).Ok? ==>
      var e := CreateExpression(v).value;
      && (v.Array? <==> e.ArrayLiteral?)
      && (v.Object? <==> e.ObjectLiteral?)
      && (v.PlaceholderFunction? <==> e.ArrowFunction? && e.body.ExpressionBody?)
      && (v.PluralFunction? <==> e.ArrowFunction? && e.body.BlockBody?)
  {
    GuardsPartition(v);
  }

  /** Array elements: the conversion succeeds exactly when every element
      converts, and then holds element `i`'s expression at `i`. */
  lemma CreateArraySpec(items: seq<ValueDescription>)
    ensures CreateArray(items).Ok? <==> forall i :: 0 <= i < |items| ==> CreateExpression(items[i]).Ok?
    ensures CreateArray(items).Ok? ==>
      && |CreateArray(items).value.elements| == |items|
      && forall i :: 0 <= i < |items| ==> CreateExpression(items[i]) == Ok(CreateArray(items).value.elements[i])
  {
    CreateElementsIsMapAll(items);
    MapAllSpec(CreateExpression, items);
  }

  /** Object properties: one assignment per entry, in entry order, named by
      its key and initialised with the expression of its value; the
      conversion succeeds exactly when every value converts. */
  lemma CreateObjectSpec(ps: seq<Entry<ValueDescription>>)
    ensures CreateObject(ps).Ok? <==> forall i :: 0 <= i < |ps| ==> CreateExpression(ps[i].value).Ok?
    ensures CreateObject(ps).Ok? ==>
      && |CreateObject(ps).value.properties| == |ps|
      && forall i :: 0 <= i < |ps| ==>
           && CreateObject(ps).value.properties[i].name == ps[i].key
           && CreateExpression(ps[i].value) == Ok(CreateObject(ps).value.properties[i].initializer)
  {
    CreatePropertiesIsMapAll(ps);
    MapAllSpec(CreateProperty, ps);
  }

  /** A placeholder function becomes an arrow with one parameter per
      argument, in order and by name, returning the template of its parts,
      whose spans name the referenced arguments in order. It is built
      exactly when no part is `undefined`. */
  lemma PlaceholderFunctionSpec(args: seq<Arg>, parts: seq<Part>)
    ensures CreatePlaceholderFunction(args, parts).Ok? <==> Undefined !in parts
    ensures CreatePlaceholderFunction(args, parts).Ok? ==>
      var f := CreatePlaceholderFunction(args, parts).value;
      && |f.parameters| == |args|
      && (forall i :: 0 <= i < |args| ==> f.parameters[i].name == args[i].name)
      && f.body.expression.TemplateExpression?
      && f.body.expression.head == Head(parts)
      && Identifiers(f.body.expression.spans) == ArgNames(parts)
      && f.parameters == CreateParameters(args)
      && CreateTemplate(parts).Ok? && f.body.expression == CreateTemplate(parts).value
  {
    CreateTemplateOk(parts);
    if Undefined !in parts {
      SpansFromThrows(parts, 0);
      SpanIdentifiers(parts, 0);
      assert parts[0..] == parts;
    }
  }

  /** A plural form can be returned unless it is a parts sequence holding
      `undefined`. */
  predicate FormEmittable(value: PluralValue) {
    value.PartsForm? ==> Undefined !in value.parts
  }

  lemma BranchValueOk(value: PluralValue)
    ensures BranchValue(value).Ok? <==> FormEmittable(value)
  {
    if value.PartsForm? {
      CreateTemplateOk(value.parts);
    }
  }

  /** The branches are built exactly when every form other than the
      catch-all can be returned. */
  lemma PluralBranchesOk(values: seq<Entry<PluralValue>>)
    ensures PluralBranches(values).Ok? <==>
      forall i :: 0 <= i < |values| && values[i].key != PluralFormNthKey ==> FormEmittable(values[i].value)
  {
    var forms := WithoutKey(values, PluralFormNthKey);
    MapAllSpec(PluralBranch, forms);
    WithoutKeyKeeps(values, PluralFormNthKey);
    forall e: Entry<PluralValue> ensures PluralBranch(e).Ok? <==> FormEmittable(e.value) {
      BranchValueOk(e.value);
    }
    if PluralBranches(values).Ok? {
      forall i | 0 <= i < |values| && values[i].key != PluralFormNthKey
        ensures FormEmittable(values[i].value)
      {
        var j :| 0 <= j < |forms| && forms[j] == values[i];
        assert PluralBranch(forms[j]).Ok?;
      }
    } else {
      var j :| 0 <= j < |forms| && PluralBranch(forms[j]).TypeError?;
      assert forms[j] in values;
    }
  }

  /** A plural function is emitted exactly when the catch-all form is
      present and it and every numbered form can be returned. */
  lemma PluralFunctionOk(args: seq<Arg>, values: seq<Entry<PluralValue>>)
    ensures CreatePluralFunction(args, values).Ok? <==>
      && HasKey(values, PluralFormNthKey)
      && FormEmittable(Get(values, PluralFormNthKey).value)
      && forall i :: 0 <= i < |values| && values[i].key != PluralFormNthKey ==> FormEmittable(values[i].value)
  {
    PluralBranchesOk(values);
    if HasKey(values, PluralFormNthKey) {
      BranchValueOk(Get(values, PluralFormNthKey).value);
    }
  }

  /** Without a catch-all form, and with every numbered form returnable,
      emission throws reading `0` of `undefined`. */
  lemma PluralMissingCatchAll(args: seq<Arg>, values: seq<Entry<PluralValue>>)
    requires !HasKey(values, PluralFormNthKey)
    requires forall i :: 0 <= i < |values| ==> FormEmittable(values[i].value)
    ensures CreatePluralFunction(args, values) == TypeError("0")
  {
    PluralBranchesOk(values);
  }

  /** The block of a plural function: first one `if` per form other than
      the catch-all, in map order, testing `count` against the key and
      returning that form; then one `return` of the catch-all form. */
  lemma PluralStatements(args: seq<Arg>, values: seq<Entry<PluralValue>>)
    requires CreatePluralFunction(args, values).Ok?
    ensures var f := CreatePluralFunction(args, values).value;
      && f.parameters == CreateParameters(args)
      && |f.body.statements| == |WithoutKey(values, PluralFormNthKey)| + 1
      && (forall j :: 0 <= j < |WithoutKey(values, PluralFormNthKey)| ==>
            && BranchValue(WithoutKey(values, PluralFormNthKey)[j].value).Ok?
            && f.body.statements[j] == If(CountIs(WithoutKey(values, PluralFormNthKey)[j].key),
                 [Return(BranchValue(WithoutKey(values, PluralFormNthKey)[j].value).value)]))
      && HasKey(values, PluralFormNthKey)
      && BranchValue(Get(values, PluralFormNthKey).value).Ok?
      && f.body.statements[|f.body.statements| - 1] == Return(BranchValue(Get(values, PluralFormNthKey).value).value)
  {
    var forms := WithoutKey(values, PluralFormNthKey);
    MapAllSpec(PluralBranch, forms);
    var branches := PluralBranches(values).value;
    var stmts := CreatePluralFunction(args, values).value.body.statements;
    assert stmts == branches + [NthReturn(values).value];
    forall j | 0 <= j < |forms|
      ensures && BranchValue(forms[j].value).Ok?
              && stmts[j] == If(CountIs(forms[j].key), [Return(BranchValue(forms[j].value).value)])
    {
      assert PluralBranch(forms[j]) == Ok(branches[j]);
    }
  }

  /** Over distinct keys holding the catch-all, the block has one
      statement per form. */
  lemma PluralStatementCount(args: seq<Arg>, values: seq<Entry<PluralValue>>)
    requires DistinctKeys(values)
    requires CreatePluralFunction(args, values).Ok?
    ensures |CreatePluralFunction(args, values).value.body.statements| == |values|
  {
    PluralStatements(args, values);
    WithoutKeyDistinct(values, PluralFormNthKey);
  }

  /** The condition of a form keyed by digits compares `count` with the
      decimal value of the key. */
  lemma CountIsDigits(key: string)
    requires IsDigits(key)
    ensures CountIs(key) == StrictEquals(Identifier("count"), NumericLiteral(DecimalValue(key)))
  {
    ParseIntOfDigits(key);
  }

  /** A node can be emitted unless some template on the way holds an
      `undefined` part or a plural function lacks its catch-all form. */
  predicate Emittable(v: ValueDescription)
    decreases v
  {
    match v
    case Primitive(_) => true
    case Array(items) => forall i :: 0 <= i < |items| ==> Emittable(items[i])
    case Object(ps) => forall i :: 0 <= i < |ps| ==> Emittable(ps[i].value)
    case PlaceholderFunction(_, parts) => Undefined !in parts
    case PluralFunction(_, values) =>
      && HasKey(values, PluralFormNthKey)
      && FormEmittable(Get(values, PluralFormNthKey).value)
      && forall i :: 0 <= i < |values| && values[i].key != PluralFormNthKey ==> FormEmittable(values[i].value)
  }

  /** Emission succeeds exactly on emittable nodes. */
  lemma {:induction false} CreateExpressionOk(v: ValueDescription)
    ensures CreateExpression(v).Ok? <==> Emittable(v)
    decreases v, 1
  {
    GuardsPartition(v);
    match v
    case Primitive(_) =>
    case Array(items) =>
      CreateElementsOk(items);
      CreateArraySpec(items);
    case Object(ps) =>
      CreatePropertiesOk(ps);
      CreateObjectSpec(ps);
    case PlaceholderFunction(args, parts) =>
      PlaceholderFunctionSpec(args, parts);
    case PluralFunction(args, values) =>
      PluralFunctionOk(args, values);
  }

  lemma {:induction false} CreateElementsOk(items: seq<ValueDescription>)
    ensures (forall i :: 0 <= i < |items| ==> CreateExpression(items[i]).Ok?) <==>
            (forall i :: 0 <= i < |items| ==> Emittable(items[i]))
    decreases items, 0
  {
    forall i | 0 <= i < |items| ensures CreateExpression(items[i]).Ok? <==> Emittable(items[i]) {
      CreateExpressionOk(items[i]);
    }
  }

  lemma {:induction false} CreatePropertiesOk(ps: seq<Entry<ValueDescription>>)
    ensures (forall i :: 0 <= i < |ps| ==> CreateExpression(ps[i].value).Ok?) <==>
            (forall i :: 0 <= i < |ps| ==> Emittable(ps[i].value))
    decreases ps, 0
  {
    forall i | 0 <= i < |ps| ensures CreateExpression(ps[i].value).Ok? <==> Emittable(ps[i].value) {
      CreateExpressionOk(ps[i].value);
    }
  }
}
