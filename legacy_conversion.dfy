/** The first converter: each key of the top-level object becomes one
    property description. A string with placeholder matches becomes a
    placeholder function whose template carries each occurrence's full
    argument; any other value is wrapped as it is, without recursion. */
module LegacyConversion {
  import opened Wrappers
  import opened JsStrings
  import opened OrderedMaps
  import opened JsonValues
  import opened Placeholders
  import opened LegacyStructure
  import Intermediate
  import StringParts

  /** The argument a match declares, typed by member-name lookup. */
  function MatchArg(m: Match): Arg {
    Arg(m.name, GetTypeFrom(m.typeToken))
  }

  /** The `[name, arg]` pairs set into `argMap`, one per match. */
  function MatchEntries(ms: seq<Match>): (es: seq<Entry<Arg>>)
    ensures |es| == |ms| && forall i :: 0 <= i < |ms| ==> es[i] == Entry(ms[i].name, MatchArg(ms[i]))
  {
    seq(|ms|, i requires 0 <= i < |ms| => Entry(ms[i].name, MatchArg(ms[i])))
  }

  /** The arguments the matches declare, one per occurrence, in order:
      the values of the pairs set into `argMap`. */
  function MatchArgs(ms: seq<Match>): (args: seq<Arg>)
    ensures |args| == |ms|
    ensures forall i :: 0 <= i < |ms| ==>
      args[i].name == ms[i].name && args[i].argType == GetTypeFrom(ms[i].typeToken)
  {
    Values(MatchEntries(ms))
  }

  /** The arguments of the function: each match's argument set into the
      map unless its name is already there. */
  function ArgsOf(ms: seq<Match>): seq<Arg> {
    Values(AddAllIfAbsent([], MatchEntries(ms)))
  }

  /** What one loop iteration pushes, and the new processed value. */
  datatype Step = Step(pushed: seq<TemplateItem>, processed: Option<string>)

  /** One iteration on the processed value: split at the match text (an
      `undefined` value throws), keep element 1, push element 0 unless it is
      `""`, then push the match's full argument. */
  function TemplateStep(processed: Option<string>, m: Match): (r: Result<Step>)
    ensures r.TypeError? <==> processed.None?
  {
    match processed
    case None => TypeError("split")
    case Some(rest) =>
      var (before, after) := SplitFirstTwo(rest, m.text);
      var literal := match before
        case None => [TemplateUndefined]
        case Some(t) => if t == "" then [] else [TemplateText(t)];
      Ok(Step(literal + [TemplateArg(MatchArg(m))], after))
  }

  /** After the loop: the processed value is pushed unless it is `""`. */
  function FinalItems(processed: Option<string>): seq<TemplateItem> {
    match processed
    case None => [TemplateUndefined]
    case Some(t) => if t == "" then [] else [TemplateText(t)]
  }

  /** The template built from the processed value over the matches `ms`. */
  function TemplateFrom(processed: Option<string>, ms: seq<Match>): (r: Result<seq<TemplateItem>>)
    ensures r.TypeError? ==> r.property == "split"
    decreases |ms|
  {
    if ms == [] then Ok(FinalItems(processed))
    else
      match TemplateStep(processed, ms[0])
      case TypeError(p) => TypeError(p)
      case Ok(step) =>
        match TemplateFrom(step.processed, ms[1..])
        case TypeError(p) => TypeError(p)
        case Ok(rest) => Ok(step.pushed + rest)
  }

  /** What `convertStringValueToPlaceholderFunction` returns: the
      arguments set first-wins and the template, or the `split` error. */
  function PlaceholderFunctionOf(value: string, ms: seq<Match>): (r: Result<ValueDescription>)
    ensures r.TypeError? ==> r.property == "split"
    ensures r.Ok? ==> r.value.PlaceholderFunctionValue?
  {
    match TemplateFrom(Some(value), ms)
    case TypeError(p) => TypeError(p)
    case Ok(template) => Ok(PlaceholderFunctionValue(ArgsOf(ms), template))
  }

  function PrependItems(pushed: seq<TemplateItem>, r: Result<seq<TemplateItem>>): Result<seq<TemplateItem>> {
    match r
    case TypeError(p) => TypeError(p)
    case Ok(rest) => Ok(pushed + rest)
  }

  lemma PrependItemsTwice(a: seq<TemplateItem>, b: seq<TemplateItem>, r: Result<seq<TemplateItem>>)
    ensures PrependItems(a, PrependItems(b, r)) == PrependItems(a + b, r)
  {
    if r.Ok? {
      AppendAssoc(a, b, r.value);
    }
  }

  lemma TemplateFromStep(processed: Option<string>, ms: seq<Match>, i: nat)
    requires i < |ms|
    ensures var step := TemplateStep(processed, ms[i]);
      TemplateFrom(processed, ms[i..]) ==
        match step
        case TypeError(p) => TypeError(p)
        case Ok(s) => PrependItems(s.pushed, TemplateFrom(s.processed, ms[i + 1..]))
  {
    assert ms[i..][0] == ms[i] && ms[i..][1..] == ms[i + 1..];
  }

  /** The template invariant of the loop below carried over one match: a
      defined processed value moves on by one `TemplateStep`, and an
      `undefined` one makes the whole template throw. */
  lemma TemplateInvariantStep(value: string, ms: seq<Match>, i: nat, template: seq<TemplateItem>, processed: Option<string>)
    requires i < |ms|
    requires TemplateFrom(Some(value), ms) == PrependItems(template, TemplateFrom(processed, ms[i..]))
    ensures processed.None? ==> TemplateFrom(Some(value), ms) == TypeError("split")
    ensures processed.Some? ==>
      var step := TemplateStep(processed, ms[i]).value;
      TemplateFrom(Some(value), ms) == PrependItems(template + step.pushed, TemplateFrom(step.processed, ms[i + 1..]))
  {
    TemplateFromStep(processed, ms, i);
    if processed.Some? {
      var step := TemplateStep(processed, ms[i]).value;
      PrependItemsTwice(template, step.pushed, TemplateFrom(step.processed, ms[i + 1..]));
    }
  }

  /** What one iteration pushes, spelled as the loop pushes it: the
      literal unless split element 0 is `""`, then the match's argument. */
  lemma StepPushes(processed: string, m: Match)
    ensures var (before, after) := SplitFirstTwo(processed, m.text);
      var step := TemplateStep(Some(processed), m).value;
      && step.processed == after
      && step.pushed ==
           (if before == Some("") then [] else [if before.Some? then TemplateText(before.value) else TemplateUndefined])
           + [TemplateArg(Arg(m.name, GetTypeFrom(m.typeToken)))]
  {
  }

  /** The argument map of the loop below carried over one match. */
  lemma ArgMapStep(argMap: seq<Entry<Arg>>, ms: seq<Match>, i: nat)
    requires i < |ms| && argMap == AddAllIfAbsent([], MatchEntries(ms)[..i])
    ensures AddAllIfAbsent([], MatchEntries(ms)[..i + 1]) ==
      if HasKey(argMap, ms[i].name) then argMap else Put(argMap, ms[i].name, Arg(ms[i].name, GetTypeFrom(ms[i].typeToken)))
  {
    AddAllIfAbsentStep([], MatchEntries(ms), i);
    if !HasKey(argMap, ms[i].name) {
      PutNew(argMap, ms[i].name, Arg(ms[i].name, GetTypeFrom(ms[i].typeToken)));
    }
  }

  /** The template half of one iteration: split the processed value at the
      match text, keep element 1, push element 0 unless it is `""`, then
      push the argument. */
  method SplitAndPush(stringTemplate: seq<TemplateItem>, processedValue: string, m: Match, arg: Arg)
    returns (template: seq<TemplateItem>, processed: Option<string>)
    requires arg == MatchArg(m)
    ensures var step := TemplateStep(Some(processedValue), m).value;
      template == stringTemplate + step.pushed && processed == step.processed
  {
    StepPushes(processedValue, m);
    var (before, after) := SplitFirstTwo(processedValue, m.text);
    processed := after;
    template := stringTemplate;
    if before != Some("") {
      var literal := if before.Some? then TemplateText(before.value) else TemplateUndefined;
      template := template + [literal];
    }
    template := template + [TemplateArg(arg)];
  }

  /** `convertStringValueToPlaceholderFunction`: one pass over the matches
      that fills `argMap` first-wins and pushes onto the template while
      cutting the processed value. */
  method ConvertStringValueToPlaceholderFunction(value: string, placeholderMatches: seq<Match>)
    returns (r: Result<ValueDescription>)
    ensures r == PlaceholderFunctionOf(value, placeholderMatches)
  {
    var ms := placeholderMatches;
    var argMap: seq<Entry<Arg>> := [];
    var stringTemplate: seq<TemplateItem> := [];
    var processedValue: Option<string> := Some(value);
    assert ms[0..] == ms;
    assert PrependItems([], TemplateFrom(Some(value), ms)) == TemplateFrom(Some(value), ms) by {
      if TemplateFrom(Some(value), ms).Ok? {
        assert [] + TemplateFrom(Some(value), ms).value == TemplateFrom(Some(value), ms).value;
      }
    }
    var i := 0;
    while i < |ms|
      invariant 0 <= i <= |ms|
      invariant argMap == AddAllIfAbsent([], MatchEntries(ms)[..i])
      invariant TemplateFrom(Some(value), ms) == PrependItems(stringTemplate, TemplateFrom(processedValue, ms[i..]))
    {
      var m := ms[i];
      var arg := Arg(m.name, GetTypeFrom(m.typeToken));
      ArgMapStep(argMap, ms, i);
      if !HasKey(argMap, arg.name) {
        argMap := Put(argMap, arg.name, arg);
      }
      TemplateInvariantStep(value, ms, i, stringTemplate, processedValue);
      if processedValue.None? {
        return TypeError("split");
      }
      stringTemplate, processedValue := SplitAndPush(stringTemplate, processedValue.value, m, arg);
      i := i + 1;
    }
    assert MatchEntries(ms)[..i] == MatchEntries(ms);
    assert ms[i..] == [];
    assert TemplateFrom(processedValue, ms[i..]) == Ok(FinalItems(processedValue));
    ghost var pushedBefore := stringTemplate;
    if processedValue != Some("") {
      var literal := if processedValue.Some? then TemplateText(processedValue.value) else TemplateUndefined;
      stringTemplate := stringTemplate + [literal];
    }
    assert stringTemplate == pushedBefore + FinalItems(processedValue);
    assert Values(argMap) == ArgsOf(ms);
    r := Ok(PlaceholderFunctionValue(Values(argMap), stringTemplate));
  }

  /** `convertStringProperty`: a plain string property when the value has
      no placeholder match, a placeholder function property otherwise. */
  function ConvertStringProperty(key: string, value: string): (r: Result<PropertyDescription>)
    ensures r.TypeError? ==> r.property == "split"
    ensures r.Ok? ==> r.value.key == key && r.value.propertyType != NoneString
    ensures r.Ok? ==> (r.value.propertyType == String <==> AllMatches(value) == [])
  {
    var ms := AllMatches(value);
    if |ms| == 0 then Ok(PropertyDescription(String, key, StringValue(value)))
    else
      match PlaceholderFunctionOf(value, ms)
      case TypeError(p) => TypeError(p)
      case Ok(f) => Ok(PropertyDescription(PlaceholderFunction, key, f))
  }

  /** `convertNoneStringProperty`: the value wrapped as it is, arrays and
      nested objects included. */
  function ConvertNoneStringProperty(key: string, value: Json): (r: PropertyDescription)
    ensures r.propertyType == NoneString && r.key == key
    ensures r.valueDescription.NoneStringValue? && r.valueDescription.value == value
  {
    PropertyDescription(NoneString, key, NoneStringValue(value))
  }

  /** The description of one member, chosen by `typeof value === "string"`. */
  function ConvertMember(member: Entry<Json>): (r: Result<PropertyDescription>)
    ensures r.TypeError? ==> r.property == "split"
    ensures r.Ok? ==> r.value.key == member.key
    ensures r.Ok? ==> (r.value.propertyType == NoneString <==> !member.value.JString?)
    ensures !member.value.JString? ==> r.Ok? && r.value.valueDescription == NoneStringValue(member.value)
  {
    match member.value
    case JString(s) => ConvertStringProperty(member.key, s)
    case _ => Ok(ConvertNoneStringProperty(member.key, member.value))
  }

  /** `convertObject`: `keys.map(...)` over the top-level members. */
  function ConvertObject(members: seq<Entry<Json>>): (r: Result<ObjectDescription>)
    ensures r.TypeError? ==> r.property == "split"
    ensures r.Ok? ==>
      && |r.value.propertyDescriptions| == |members|
      && forall i :: 0 <= i < |members| ==> r.value.propertyDescriptions[i].key == members[i].key
  {
    MapAllSpec(ConvertMember, members);
    MapAllError(ConvertMember, members);
    match MapAll(ConvertMember, members)
    case TypeError(p) => TypeError(p)
    case Ok(descriptions) => Ok(ObjectDescription(descriptions))
  }
}
