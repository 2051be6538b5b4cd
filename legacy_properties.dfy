/** What the first converter promises: its template is the parts sequence
    of the later converter with each reference carrying the full argument
    of its own occurrence, its argument list is first-wins, and each key of
    the top-level object gets one description in key order. */
module LegacyProperties {
  import opened Wrappers
  import opened OrderedMaps
  import opened JsonValues
  import opened Placeholders
  import opened LegacyStructure
  import opened LegacyConversion
  import Intermediate
  import StringParts

  /** The part a template item stands for, a full argument reduced to its name. */
  function ToPart(item: TemplateItem): Intermediate.Part {
    match item
    case TemplateText(t) => Intermediate.Text(t)
    case TemplateArg(arg) => Intermediate.ArgName(arg.name)
    case TemplateUndefined => Intermediate.Undefined
  }

  function ToParts(template: seq<TemplateItem>): (parts: seq<Intermediate.Part>)
    ensures |parts| == |template| && forall i :: 0 <= i < |template| ==> parts[i] == ToPart(template[i])
  {
    seq(|template|, i requires 0 <= i < |template| => ToPart(template[i]))
  }

  lemma ToPartsAppend(a: seq<TemplateItem>, b: seq<TemplateItem>)
    ensures ToParts(a + b) == ToParts(a) + ToParts(b)
  {
  }

  /** One iteration pushes what one `add` of the later parts builder
      pushes, up to the arguments, and leaves the same remainder. */
  lemma StepIsAddPart(processed: Option<string>, m: Match)
    ensures TemplateStep(processed, m).Ok? <==> StringParts.AddPart(processed, m.name, m.text).Ok?
    ensures TemplateStep(processed, m).Ok? ==>
      && ToParts(TemplateStep(processed, m).value.pushed) == StringParts.AddPart(processed, m.name, m.text).value.pushed
      && TemplateStep(processed, m).value.processed == StringParts.AddPart(processed, m.name, m.text).value.unprocessed
  {
  }

  /** The template is the later converter's parts sequence, with the same
      errors, once each full argument is reduced to its name. */
  lemma {:induction false} TemplateIsParts(processed: Option<string>, ms: seq<Match>)
    ensures TemplateFrom(processed, ms).Ok? <==> StringParts.SegmentFrom(processed, ms).Ok?
    ensures TemplateFrom(processed, ms).Ok? ==>
      ToParts(TemplateFrom(processed, ms).value) == StringParts.SegmentFrom(processed, ms).value
    decreases |ms|
  {
    if ms != [] {
      StepIsAddPart(processed, ms[0]);
      if TemplateStep(processed, ms[0]).Ok? {
        var step := TemplateStep(processed, ms[0]).value;
        TemplateIsParts(step.processed, ms[1..]);
        if TemplateFrom(step.processed, ms[1..]).Ok? {
          ToPartsAppend(step.pushed, TemplateFrom(step.processed, ms[1..]).value);
        }
      }
    }
  }

  /** The full arguments of a template, in order. */
  function TemplateArgs(template: seq<TemplateItem>): seq<Arg>
    decreases |template|
  {
    if template == [] then []
    else (if template[0].TemplateArg? then [template[0].arg] else []) + TemplateArgs(template[1..])
  }

  lemma {:induction false} TemplateArgsAppend(a: seq<TemplateItem>, b: seq<TemplateItem>)
    ensures TemplateArgs(a + b) == TemplateArgs(a) + TemplateArgs(b)
    decreases |a|
  {
    if a == [] {
      assert a + b == b;
    } else {
      assert (a + b)[0] == a[0] && (a + b)[1..] == a[1..] + b;
      TemplateArgsAppend(a[1..], b);
      AppendAssoc(if a[0].TemplateArg? then [a[0].arg] else [], TemplateArgs(a[1..]), TemplateArgs(b));
    }
  }

  /** Each template argument is the full argument of its own occurrence,
      in match order: a name matched twice with different types keeps both
      types in the template. */
  lemma {:induction false} TemplateArgsAreOccurrences(processed: Option<string>, ms: seq<Match>)
    requires TemplateFrom(processed, ms).Ok?
    ensures TemplateArgs(TemplateFrom(processed, ms).value) == MatchArgs(ms)
    decreases |ms|
  {
    if ms == [] {
      assert TemplateArgs(FinalItems(processed)) == [];
    } else {
      var step := TemplateStep(processed, ms[0]).value;
      TemplateArgsAreOccurrences(step.processed, ms[1..]);
      StepArgs(processed, ms[0]);
      TemplateArgsAppend(step.pushed, TemplateFrom(step.processed, ms[1..]).value);
      assert MatchArgs(ms) == [MatchArg(ms[0])] + MatchArgs(ms[1..]);
    }
  }

  /** One iteration pushes exactly one argument, the match's own. */
  lemma StepArgs(processed: Option<string>, m: Match)
    requires TemplateStep(processed, m).Ok?
    ensures TemplateArgs(TemplateStep(processed, m).value.pushed) == [MatchArg(m)]
  {
    var pushed := TemplateStep(processed, m).value.pushed;
    var n := |pushed|;
    assert pushed == pushed[..n - 1] + [TemplateArg(MatchArg(m))];
    TemplateArgsAppend(pushed[..n - 1], [TemplateArg(MatchArg(m))]);
    assert TemplateArgs(pushed[..n - 1]) == [];
  }

  /** The template holds no empty literal. */
  lemma TemplateNoEmptyText(value: string, ms: seq<Match>)
    requires TemplateFrom(Some(value), ms).Ok?
    ensures TemplateText("") !in TemplateFrom(Some(value), ms).value
  {
    TemplateIsParts(Some(value), ms);
    StringParts.SegmentNoEmptyText(Some(value), ms);
    var t := TemplateFrom(Some(value), ms).value;
    forall i | 0 <= i < |t| ensures t[i] != TemplateText("") {
      assert ToParts(t)[i] != Intermediate.Text("");
    }
  }

  /** When each match text occurs once in what is left of the string, the
      conversion succeeds without `undefined`, and replacing each template
      argument by its match text spells the string back. */
  lemma TemplateRoundTrip(value: string, ms: seq<Match>)
    requires StringParts.SplitsEachOnce(value, ms)
    ensures PlaceholderFunctionOf(value, ms).Ok?
    ensures TemplateUndefined !in PlaceholderFunctionOf(value, ms).value.stringTemplate
    ensures StringParts.Render(ToParts(PlaceholderFunctionOf(value, ms).value.stringTemplate), ms) == value
  {
    StringParts.SegmentRoundTrip(value, ms);
    TemplateIsParts(Some(value), ms);
    var t := TemplateFrom(Some(value), ms).value;
    forall i | 0 <= i < |t| ensures t[i] != TemplateUndefined {
      assert ToParts(t)[i] in StringParts.SegmentFrom(Some(value), ms).value;
    }
  }

  /** The position of the first match named `name`. */
  function FirstMatchNamed(ms: seq<Match>, name: string): (r: Option<nat>)
    ensures r.Some? ==> r.value < |ms| && ms[r.value].name == name
    ensures r.Some? ==> forall k :: 0 <= k < r.value ==> ms[k].name != name
    ensures r.None? ==> forall k :: 0 <= k < |ms| ==> ms[k].name != name
  {
    IndexOfKey(MatchEntries(ms), name)
  }

  /** The arguments hold each matched name once, in order of first
      occurrence, each with the argument of its first occurrence. */
  lemma ArgsFirstWins(ms: seq<Match>)
    ensures var args := ArgsOf(ms);
      && (forall i, j :: 0 <= i < j < |args| ==> args[i].name != args[j].name)
      && (forall k :: 0 <= k < |ms| ==> exists i :: 0 <= i < |args| && args[i].name == ms[k].name)
      && (forall i :: 0 <= i < |args| ==>
            FirstMatchNamed(ms, args[i].name).Some? && args[i] == MatchArg(ms[FirstMatchNamed(ms, args[i].name).value]))
      && (forall i1, i2 :: 0 <= i1 < i2 < |args| ==>
            FirstMatchNamed(ms, args[i1].name).Some? && FirstMatchNamed(ms, args[i2].name).Some? &&
            FirstMatchNamed(ms, args[i1].name).value < FirstMatchNamed(ms, args[i2].name).value)
  {
    var es := MatchEntries(ms);
    var e := AddAllIfAbsent([], es);
    AddAllIfAbsentFirstWins([], es);
    EntriesKeyedByName(ms, e);
    var args := Values(e);
    forall i, j | 0 <= i < j < |args| ensures args[i].name != args[j].name {
      assert args[i].name == e[i].key && args[j].name == e[j].key;
    }
    ArgsCoverMatches(ms, e, args);
    forall i | 0 <= i < |args|
      ensures FirstMatchNamed(ms, args[i].name).Some? && args[i] == MatchArg(ms[FirstMatchNamed(ms, args[i].name).value])
    {
      assert args[i].name == e[i].key;
    }
    forall i1, i2 | 0 <= i1 < i2 < |args|
      ensures && FirstMatchNamed(ms, args[i1].name).Some? && FirstMatchNamed(ms, args[i2].name).Some?
              && FirstMatchNamed(ms, args[i1].name).value < FirstMatchNamed(ms, args[i2].name).value
    {
      FirstOccurrenceOrder(ms, e, args, i1, i2);
    }
  }

  lemma FirstOccurrenceOrder(ms: seq<Match>, e: seq<Entry<Arg>>, args: seq<Arg>, i1: nat, i2: nat)
    requires FirstWins([], MatchEntries(ms), e) && args == Values(e)
    requires forall i :: 0 <= i < |e| ==> e[i].value.name == e[i].key
    requires i1 < i2 < |args|
    ensures && FirstMatchNamed(ms, args[i1].name).Some? && FirstMatchNamed(ms, args[i2].name).Some?
            && FirstMatchNamed(ms, args[i1].name).value < FirstMatchNamed(ms, args[i2].name).value
  {
    var es := MatchEntries(ms);
    assert args[i1].name == e[i1].key && args[i2].name == e[i2].key;
    assert IndexOfKey(es, e[i1].key).value < IndexOfKey(es, e[i2].key).value;
  }

  /** Every entry the map keeps is stored under its argument's name. */
  lemma EntriesKeyedByName(ms: seq<Match>, e: seq<Entry<Arg>>)
    requires FirstWins([], MatchEntries(ms), e)
    ensures forall i :: 0 <= i < |e| ==> e[i].value.name == e[i].key
  {
  }

  lemma ArgsCoverMatches(ms: seq<Match>, e: seq<Entry<Arg>>, args: seq<Arg>)
    requires FirstWins([], MatchEntries(ms), e) && args == Values(e)
    requires forall i :: 0 <= i < |e| ==> e[i].value.name == e[i].key
    ensures forall k :: 0 <= k < |ms| ==> exists i :: 0 <= i < |args| && args[i].name == ms[k].name
  {
    var es := MatchEntries(ms);
    forall k | 0 <= k < |ms| ensures exists i :: 0 <= i < |args| && args[i].name == ms[k].name {
      IndexOfKeyIs(es, ms[k].name, FirstMatchNamed(ms, ms[k].name).value);
      assert HasKey(e, ms[k].name);
      var i := IndexOfKey(e, ms[k].name).value;
      assert args[i].name == ms[k].name;
    }
  }

  /** A string property is a plain string exactly when the value has no
      placeholder match, and then holds the value itself; every property
      keeps its key. */
  lemma StringPropertyCases(key: string, value: string)
    ensures ConvertStringProperty(key, value).Ok? ==> ConvertStringProperty(key, value).value.key == key
    ensures ConvertStringProperty(key, value).Ok? && ConvertStringProperty(key, value).value.propertyType == String <==>
      AllMatches(value) == []
    ensures AllMatches(value) == [] ==>
      ConvertStringProperty(key, value) == Ok(PropertyDescription(String, key, StringValue(value)))
    ensures ConvertStringProperty(key, value).Ok? && AllMatches(value) != [] ==>
      && ConvertStringProperty(key, value).value.propertyType == PlaceholderFunction
      && ConvertStringProperty(key, value).value.valueDescription.PlaceholderFunctionValue?
  {
  }

  /** One description per member, in member order, each under its member's
      key. A string member is a plain string or a placeholder function;
      any other member is wrapped verbatim. */
  lemma ConvertObjectSpec(members: seq<Entry<Json>>)
    ensures ConvertObject(members).Ok? <==> forall i :: 0 <= i < |members| ==> ConvertMember(members[i]).Ok?
    ensures ConvertObject(members).Ok? ==>
      var ds := ConvertObject(members).value.propertyDescriptions;
      && |ds| == |members|
      && forall i :: 0 <= i < |members| ==>
           && ds[i].key == members[i].key
           && (members[i].value.JString? <==> ds[i].propertyType != NoneString)
           && (!members[i].value.JString? ==> ds[i].valueDescription == NoneStringValue(members[i].value))
  {
    MapAllSpec(ConvertMember, members);
    forall i | 0 <= i < |members| && members[i].value.JString? {
      StringPropertyCases(members[i].key, members[i].value.s);
    }
  }
}
