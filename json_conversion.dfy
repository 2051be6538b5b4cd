/** The JSON-to-intermediate converter: strings with placeholders become
    placeholder functions, plural-form objects become plural functions,
    other objects and arrays are converted member by member. */
module JsonConversion {
  import opened Wrappers
  import opened JsStrings
  import opened OrderedMaps
  import opened JsonValues
  import opened Intermediate
  import opened Placeholders
  import opened ArgSets
  import opened StringParts

  /** The argument a match declares: its name and the type its token names. */
  function MatchArg(m: Match): Arg {
    Arg(m.name, GetTypeFrom(m.typeToken))
  }

  function MatchArgs(ms: seq<Match>): (args: seq<Arg>)
    ensures |args| == |ms| && forall i :: 0 <= i < |ms| ==> args[i] == MatchArg(ms[i])
  {
    seq(|ms|, i requires 0 <= i < |ms| => MatchArg(ms[i]))
  }

  /** What `convertStringToPlaceholderFunction` returns for `value` and its
      matches: the matches' arguments added to an empty `ArgSet`, and the
      parts the builder cuts. */
  function PlaceholderFunctionOf(value: string, ms: seq<Match>): (r: Result<ValueDescription>)
    ensures r.TypeError? ==> r.property == "split"
    ensures r.Ok? ==> r.value.PlaceholderFunction? && ArgNames(r.value.stringParts) == MatchNames(ms)
  {
    match StringPartsOf(value, ms)
    case TypeError(p) => TypeError(p)
    case Ok(parts) => Ok(PlaceholderFunction(Values(AddAllIfAbsent([], NamedEntries(MatchArgs(ms)))), parts))
  }

  /** `convertString`: a primitive holding the string itself when it has no
      placeholder match, a placeholder function otherwise. */
  function ConvertString(value: string): (r: Result<ValueDescription>)
    ensures r.Ok? ==> r.value == Primitive(PString(value)) || r.value.PlaceholderFunction?
    ensures r.TypeError? ==> r.property == "split"
  {
    var ms := AllMatches(value);
    if |ms| == 0 then Ok(Primitive(PString(value))) else PlaceholderFunctionOf(value, ms)
  }

  /** Threads the builders' state from one match to the next: the part of
      `PlaceholderFunctionOf` still to come after `pushed` has been pushed
      and `unprocessed` is left. */
  function Prepend(pushed: seq<Part>, r: Result<seq<Part>>): Result<seq<Part>> {
    match r
    case TypeError(p) => TypeError(p)
    case Ok(rest) => Ok(pushed + rest)
  }

  lemma PrependTwice(a: seq<Part>, b: seq<Part>, r: Result<seq<Part>>)
    ensures Prepend(a, Prepend(b, r)) == Prepend(a + b, r)
  {
    if r.Ok? {
      assert a + (b + r.value) == (a + b) + r.value;
    }
  }

  lemma {:induction false} SegmentFromStep(unprocessed: Option<string>, ms: seq<Match>, i: nat)
    requires i < |ms|
    ensures var step := AddPart(unprocessed, ms[i].name, ms[i].text);
      SegmentFrom(unprocessed, ms[i..]) ==
        match step
        case TypeError(p) => TypeError(p)
        case Ok(s) => Prepend(s.pushed, SegmentFrom(s.unprocessed, ms[i + 1..]))
  {
    assert ms[i..][0] == ms[i] && ms[i..][1..] == ms[i + 1..];
  }

  /** `convertStringToPlaceholderFunction`: drives a fresh `ArgSet` and a
      fresh parts builder over the matches in order. */
  method ConvertStringToPlaceholderFunction(value: string, placeholderMatches: seq<Match>)
    returns (r: Result<ValueDescription>)
    ensures r == PlaceholderFunctionOf(value, placeholderMatches)
  {
    var ms := placeholderMatches;
    var argSet := new ArgSet([]);
    var builder := new StringPartsBuilder(value);
    var i := 0;
    assert ms[0..] == ms;
    assert Prepend([], SegmentFrom(Some(value), ms)) == SegmentFrom(Some(value), ms) by {
      if SegmentFrom(Some(value), ms).Ok? {
        assert [] + SegmentFrom(Some(value), ms).value == SegmentFrom(Some(value), ms).value;
      }
    }
    while i < |ms|
      invariant 0 <= i <= |ms|
      invariant argSet.Valid()
      invariant argSet.argMap == AddAllIfAbsent([], NamedEntries(MatchArgs(ms))[..i])
      invariant StringPartsOf(value, ms) == Prepend(builder.stringPart, SegmentFrom(builder.unprocessedValue, ms[i..]))
    {
      var m := ms[i];
      var arg := Arg(m.name, GetTypeFrom(m.typeToken));
      ghost var pushedBefore := builder.stringPart;
      ghost var step := AddPart(builder.unprocessedValue, m.name, m.text);
      SegmentFromStep(builder.unprocessedValue, ms, i);
      AddAllIfAbsentStep([], NamedEntries(MatchArgs(ms)), i);
      argSet.Add(arg);
      var outcome := builder.Add(arg, m.text);
      if outcome.TypeError? {
        return TypeError(outcome.property);
      }
      PrependTwice(pushedBefore, step.value.pushed, SegmentFrom(builder.unprocessedValue, ms[i + 1..]));
      i := i + 1;
    }
    assert NamedEntries(MatchArgs(ms))[..i] == NamedEntries(MatchArgs(ms));
    var args := argSet.Args();
    var parts := builder.GetStringPart();
    assert ms[i..] == [];
    r := Ok(PlaceholderFunction(args, parts));
  }

  /** `isPluralFormObject`: the key `n` is present, every key is `n` or a
      run of decimal digits, and every value is a string. Such an object is
      not empty, and its forms other than `n` are strings under numeric
      keys. */
  predicate IsPluralFormObject(members: seq<Entry<Json>>)
    ensures IsPluralFormObject(members) ==> |members| > 0
    ensures IsPluralFormObject(members) ==>
      var forms := WithoutKey(members, PluralFormNthKey);
      forall i :: 0 <= i < |forms| ==> IsDigits(forms[i].key) && forms[i].value.JString?
  {
    && HasKey(members, PluralFormNthKey)
    && forall i :: 0 <= i < |members| ==>
         (members[i].key == PluralFormNthKey || IsDigits(members[i].key)) && members[i].value.JString?
  }

  /** `convertValue`: a string, then an array, then any other object; the
      rest are primitives. */
  function ConvertValue(v: Json): (r: Result<ValueDescription>)
    ensures r.TypeError? ==> r.property == "split"
    ensures r.Ok? ==> (r.value.Array? <==> v.JArray?)
    ensures r.Ok? ==> (r.value.Object? || r.value.PluralFunction? <==> v.JObject?)
    decreases v, 2
  {
    match v
    case JString(s) => ConvertString(s)
    case JArray(items) => ConvertArray(items)
    case JObject(members) => ConvertObject(members)
    case JNumber(n) => Ok(Primitive(PNumber(n)))
    case JBool(b) => Ok(Primitive(PBool(b)))
  }

  /** `values.map(convertValue)`: the first conversion that throws ends it. */
  function ConvertItems(items: seq<Json>): (r: Result<seq<ValueDescription>>)
    ensures r.TypeError? ==> r.property == "split"
    ensures r.Ok? ==> |r.value| == |items|
    decreases items, 0
  {
    if items == [] then Ok([])
    else
      match ConvertValue(items[0])
      case TypeError(p) => TypeError(p)
      case Ok(d) =>
        match ConvertItems(items[1..])
        case TypeError(p) => TypeError(p)
        case Ok(ds) => Ok([d] + ds)
  }

  /** `convertArray`: an `Array` node with one description per element. */
  function ConvertArray(items: seq<Json>): (r: Result<ValueDescription>)
    ensures r.TypeError? ==> r.property == "split"
    ensures r.Ok? ==> r.value.Array? && |r.value.valueDescriptions| == |items|
    decreases items, 1
  {
    match ConvertItems(items)
    case TypeError(p) => TypeError(p)
    case Ok(ds) => Ok(Array(ds))
  }

  /** `convertObject`: a plural function exactly for a plural-form object,
      a plain `Object` otherwise. */
  function ConvertObject(members: seq<Entry<Json>>): (r: Result<ValueDescription>)
    ensures r.TypeError? ==> r.property == "split"
    ensures r.Ok? ==> (r.value.PluralFunction? <==> IsPluralFormObject(members))
    ensures r.Ok? ==> (r.value.Object? <==> !IsPluralFormObject(members))
    decreases members, 2
  {
    if IsPluralFormObject(members) then PluralFunctionOf(members) else SimpleObjectOf(members)
  }

  /** The loop of `convertSimpleObject` from `members` on, with the
      property map `acc` built so far: each member converted and `set`. */
  function SimpleObjectFrom(acc: seq<Entry<ValueDescription>>, members: seq<Entry<Json>>)
    : (r: Result<seq<Entry<ValueDescription>>>)
    ensures r.TypeError? ==> r.property == "split"
    decreases members, 0
  {
    if members == [] then Ok(acc)
    else
      match ConvertValue(members[0].value)
      case TypeError(p) => TypeError(p)
      case Ok(d) => SimpleObjectFrom(Put(acc, members[0].key, d), members[1..])
  }

  /** What `convertSimpleObject` returns. */
  function SimpleObjectOf(members: seq<Entry<Json>>): (r: Result<ValueDescription>)
    ensures r.TypeError? ==> r.property == "split"
    ensures r.Ok? ==> r.value.Object?
    decreases members, 1
  {
    match SimpleObjectFrom([], members)
    case TypeError(p) => TypeError(p)
    case Ok(es) => Ok(Object(es))
  }

  /** `getPluralFunctionValues`: the catch-all form, as a literal when it
      has no placeholder and as its parts otherwise. */
  function GetPluralFunctionValues(nthValue: string): (r: Result<PluralValue>)
    ensures r.TypeError? ==> r.property == "split"
    ensures r.Ok? ==> (r.value.LiteralForm? <==> AllMatches(nthValue) == [])
    ensures r.Ok? && r.value.LiteralForm? ==> r.value.text == nthValue
    ensures r.Ok? && r.value.PartsForm? ==> ArgNames(r.value.parts) == MatchNames(AllMatches(nthValue))
  {
    match ConvertString(nthValue)
    case TypeError(p) => TypeError(p)
    case Ok(d) =>
      if IsPrimitiveValueDescription(d) then Ok(LiteralForm(d.value.s)) else Ok(PartsForm(d.stringParts))
  }

  /** The arguments and the values of a plural function under construction. */
  datatype PluralState = PluralState(argMap: seq<Entry<Arg>>, values: seq<Entry<PluralValue>>)

  /** One pass of the loop over the numeric keys: a literal form is stored
      as it is; a form with placeholders adds its arguments, first wins,
      and is stored as its parts. */
  function PluralStep(st: PluralState, key: string, value: string): Result<PluralState> {
    match ConvertString(value)
    case TypeError(p) => TypeError(p)
    case Ok(d) =>
      if IsPrimitiveStringValueDescription(d) then Ok(PluralState(st.argMap, Put(st.values, key, LiteralForm(d.value.s))))
      else Ok(PluralState(AddAllIfAbsent(st.argMap, NamedEntries(d.args)), Put(st.values, key, PartsForm(d.stringParts))))
  }

  predicate AllStrings(members: seq<Entry<Json>>) {
    forall i :: 0 <= i < |members| ==> members[i].value.JString?
  }

  function PluralFrom(st: PluralState, forms: seq<Entry<Json>>): (r: Result<PluralState>)
    requires AllStrings(forms)
    ensures r.TypeError? ==> r.property == "split"
    decreases |forms|
  {
    if forms == [] then Ok(st)
    else
      match PluralStep(st, forms[0].key, forms[0].value.s)
      case TypeError(p) => TypeError(p)
      case Ok(next) => PluralFrom(next, forms[1..])
  }

  const CountArg: Arg := Arg("count", Number)

  /** The state before the loop: the `ArgSet` holding `count`, and `values`
      holding the catch-all form. */
  function PluralStart(nth: PluralValue): PluralState {
    PluralState(PutAll([], NamedEntries([CountArg])), [Entry(PluralFormNthKey, nth)])
  }

  /** What `convertPluralFormObject` returns. */
  function PluralFunctionOf(members: seq<Entry<Json>>): (r: Result<ValueDescription>)
    requires IsPluralFormObject(members)
    ensures r.TypeError? ==> r.property == "split"
    ensures r.Ok? ==> r.value.PluralFunction?
  {
    var nthValue := Get(members, PluralFormNthKey).value;
    match GetPluralFunctionValues(nthValue.s)
    case TypeError(p) => TypeError(p)
    case Ok(nth) =>
      match PluralFrom(PluralStart(nth), WithoutKey(members, PluralFormNthKey))
      case TypeError(p) => TypeError(p)
      case Ok(st) => Ok(PluralFunction(Values(st.argMap), st.values))
  }

  /** `convertSimpleObject`: converts each member in key order and sets it
      in a fresh property map. */
  method ConvertSimpleObject(obj: seq<Entry<Json>>) returns (r: Result<ValueDescription>)
    ensures r == SimpleObjectOf(obj)
  {
    var propertyDescriptions: seq<Entry<ValueDescription>> := [];
    var i := 0;
    assert obj[0..] == obj;
    while i < |obj|
      invariant 0 <= i <= |obj|
      invariant SimpleObjectFrom(propertyDescriptions, obj[i..]) == SimpleObjectFrom([], obj)
    {
      assert obj[i..][0] == obj[i] && obj[i..][1..] == obj[i + 1..];
      var valueDescription := ConvertValue(obj[i].value);
      if valueDescription.TypeError? {
        return TypeError(valueDescription.property);
      }
      propertyDescriptions := Put(propertyDescriptions, obj[i].key, valueDescription.value);
      i := i + 1;
    }
    r := Ok(Object(propertyDescriptions));
  }

  lemma PluralFromStep(st: PluralState, forms: seq<Entry<Json>>, i: nat)
    requires AllStrings(forms) && i < |forms|
    ensures AllStrings(forms[i..]) && AllStrings(forms[i + 1..])
    ensures PluralFrom(st, forms[i..]) ==
      match PluralStep(st, forms[i].key, forms[i].value.s)
      case TypeError(p) => TypeError(p)
      case Ok(next) => PluralFrom(next, forms[i + 1..])
  {
    assert forms[i..][0] == forms[i] && forms[i..][1..] == forms[i + 1..];
  }

  /** The inner loop of `convertPluralFormObject`: each argument of one
      form added to the `ArgSet` in turn. */
  method AddArgs(argSet: ArgSet, args: seq<Arg>)
    requires argSet.Valid()
    modifies argSet
    ensures argSet.Valid()
    ensures argSet.argMap == AddAllIfAbsent(old(argSet.argMap), NamedEntries(args))
  {
    var j := 0;
    while j < |args|
      invariant 0 <= j <= |args|
      invariant argSet.Valid()
      invariant argSet.argMap == AddAllIfAbsent(old(argSet.argMap), NamedEntries(args)[..j])
    {
      AddAllIfAbsentStep(old(argSet.argMap), NamedEntries(args), j);
      argSet.Add(args[j]);
      j := j + 1;
    }
    assert NamedEntries(args)[..j] == NamedEntries(args);
  }

  /** One pass of the loop of `convertPluralFormObject`: converts one
      numeric-key form, adds its arguments and stores it in `values`. */
  method ConvertPluralForm(argSet: ArgSet, values: seq<Entry<PluralValue>>, key: string, value: string)
    returns (r: Result<seq<Entry<PluralValue>>>)
    requires argSet.Valid()
    modifies argSet
    ensures argSet.Valid()
    ensures var step := PluralStep(PluralState(old(argSet.argMap), values), key, value);
      step.TypeError? ==> r == TypeError(step.property)
    ensures var step := PluralStep(PluralState(old(argSet.argMap), values), key, value);
      step.Ok? ==> r.Ok? && PluralState(argSet.argMap, r.value) == step.value
  {
    ghost var before := argSet.argMap;
    ghost var step := PluralStep(PluralState(before, values), key, value);
    var valueDescription := ConvertString(value);
    if valueDescription.TypeError? {
      assert step == TypeError(valueDescription.property);
      return TypeError(valueDescription.property);
    }
    var d := valueDescription.value;
    if IsPrimitiveStringValueDescription(d) {
      assert step == Ok(PluralState(before, Put(values, key, LiteralForm(d.value.s))));
      return Ok(Put(values, key, LiteralForm(d.value.s)));
    }
    assert step == Ok(PluralState(AddAllIfAbsent(before, NamedEntries(d.args)), Put(values, key, PartsForm(d.stringParts))));
    AddArgs(argSet, d.args);
    return Ok(Put(values, key, PartsForm(d.stringParts)));
  }

  /** `convertPluralFormObject`: starts the `ArgSet` with `count`, converts
      the catch-all form, then loops over the numeric keys. */
  method ConvertPluralFormObject(obj: seq<Entry<Json>>) returns (r: Result<ValueDescription>)
    requires IsPluralFormObject(obj)
    ensures r == PluralFunctionOf(obj)
  {
    var argSet := new ArgSet([CountArg]);
    var nth := GetPluralFunctionValues(Get(obj, PluralFormNthKey).value.s);
    if nth.TypeError? {
      return TypeError(nth.property);
    }
    var values := [Entry(PluralFormNthKey, nth.value)];
    var keys := WithoutKey(obj, PluralFormNthKey);
    assert AllStrings(keys);
    var i := 0;
    assert keys[0..] == keys;
    while i < |keys|
      invariant 0 <= i <= |keys|
      invariant argSet.Valid()
      invariant PluralFrom(PluralState(argSet.argMap, values), keys[i..]) == PluralFrom(PluralStart(nth.value), keys)
    {
      PluralFromStep(PluralState(argSet.argMap, values), keys, i);
      var outcome := ConvertPluralForm(argSet, values, keys[i].key, keys[i].value.s);
      if outcome.TypeError? {
        return TypeError(outcome.property);
      }
      values := outcome.value;
      i := i + 1;
    }
    var args := argSet.Args();
    r := Ok(PluralFunction(args, values));
  }
}
