/** What the JSON-to-intermediate converter promises about the trees it
    builds: when a string stays a string, which arguments and parts a
    placeholder function gets, what a plural function holds, and how
    arrays and plain objects are converted member by member. */
module ConversionProperties {
  import opened Wrappers
  import opened JsStrings
  import opened OrderedMaps
  import opened JsonValues
  import opened Intermediate
  import opened Placeholders
  import opened ArgSets
  import opened StringParts
  import opened JsonConversion

  /** A string is converted to a primitive holding that very string
      exactly when no position of it starts a placeholder; otherwise it
      becomes a placeholder function, unless the parts builder throws. */
  lemma ConvertStringCases(value: string)
    ensures ConvertString(value) == Ok(Primitive(PString(value))) <==>
      forall k :: 0 <= k < |value| ==> MatchAt(value, k).None?
    ensures ConvertString(value).Ok? && ConvertString(value) != Ok(Primitive(PString(value))) ==>
      ConvertString(value).value.PlaceholderFunction?
  {
    NoMatchesIff(value);
  }

  /** The arguments of a placeholder function: the matches' arguments in
      match order, each name once, with the type of its first match. */
  lemma PlaceholderFunctionArgs(value: string)
    requires ConvertString(value).Ok? && ConvertString(value).value.PlaceholderFunction?
    ensures AllMatches(value) != []
    ensures ArgsFirstWins([], MatchArgs(AllMatches(value)), ConvertString(value).value.args)
  {
    AddedArgsFirstWins([], MatchArgs(AllMatches(value)));
  }

  /** The parts of a placeholder function: one reference per match, in
      match order (a name matched twice is referenced twice), no empty
      literal, no two literals in a row, and `undefined` at most at the end. */
  lemma PlaceholderFunctionParts(value: string)
    requires ConvertString(value).Ok? && ConvertString(value).value.PlaceholderFunction?
    ensures var parts := ConvertString(value).value.stringParts;
      && ArgNames(parts) == MatchNames(AllMatches(value))
      && NoEmptyText(parts)
      && NoAdjacentText(parts)
      && forall i :: 0 <= i < |parts| - 1 ==> parts[i] != Undefined
  {
    var ms := AllMatches(value);
    MatchesFromIsMatchSequence(value, 0);
    MatchSequenceNonEmpty(value, 0, ms);
    SegmentArgNames(Some(value), ms);
    SegmentNoEmptyText(Some(value), ms);
    SegmentNoAdjacentText(Some(value), ms);
    SegmentUndefinedOnlyLast(Some(value), ms);
  }

  /** When each match text occurs once in what is left of the string, the
      conversion succeeds, and putting each match's text back in place of
      its reference spells the original string. */
  lemma PlaceholderRoundTrip(value: string)
    requires AllMatches(value) != [] && SplitsEachOnce(value, AllMatches(value))
    ensures ConvertString(value).Ok? && ConvertString(value).value.PlaceholderFunction?
    ensures Undefined !in ConvertString(value).value.stringParts
    ensures Render(ConvertString(value).value.stringParts, AllMatches(value)) == value
  {
    SegmentRoundTrip(value, AllMatches(value));
  }

  /** `values.map(convertValue)` succeeds exactly when every element
      converts, and then keeps length and order. */
  lemma {:induction false} ConvertItemsSpec(items: seq<Json>)
    ensures ConvertItems(items).Ok? <==> forall i :: 0 <= i < |items| ==> ConvertValue(items[i]).Ok?
    ensures ConvertItems(items).Ok? ==>
      && |ConvertItems(items).value| == |items|
      && forall i :: 0 <= i < |items| ==> ConvertValue(items[i]) == Ok(ConvertItems(items).value[i])
  {
    ConvertItemsIsMapAll(items);
    MapAllSpec(ConvertValue, items);
  }

  lemma {:induction false} ConvertItemsIsMapAll(items: seq<Json>)
    ensures ConvertItems(items) == MapAll(ConvertValue, items)
    decreases |items|
  {
    if items != [] {
      ConvertItemsIsMapAll(items[1..]);
    }
  }

  /** An array converts to an `Array` node of the same length whose
      element `i` is the conversion of element `i`. */
  lemma ConvertArraySpec(items: seq<Json>)
    ensures ConvertValue(JArray(items)).Ok? <==> forall i :: 0 <= i < |items| ==> ConvertValue(items[i]).Ok?
    ensures ConvertValue(JArray(items)).Ok? ==>
      && ConvertValue(JArray(items)).value.Array?
      && |ConvertValue(JArray(items)).value.valueDescriptions| == |items|
      && forall i :: 0 <= i < |items| ==>
           ConvertValue(items[i]) == Ok(ConvertValue(JArray(items)).value.valueDescriptions[i])
  {
    ConvertItemsSpec(items);
  }

  /** A member converted and kept under its key. */
  function ConvertMember(e: Entry<Json>): Result<Entry<ValueDescription>> {
    match ConvertValue(e.value)
    case TypeError(p) => TypeError(p)
    case Ok(d) => Ok(Entry(e.key, d))
  }

  /** Each member converted and kept under its key, in member order; the
      first member whose conversion throws ends it. */
  function ConvertMembers(members: seq<Entry<Json>>): Result<seq<Entry<ValueDescription>>> {
    MapAll(ConvertMember, members)
  }

  /** The member-wise conversion succeeds exactly when every member
      converts, and then holds one entry per member, in member order. */
  lemma ConvertMembersSpec(members: seq<Entry<Json>>)
    ensures ConvertMembers(members).Ok? <==> forall i :: 0 <= i < |members| ==> ConvertValue(members[i].value).Ok?
    ensures ConvertMembers(members).Ok? ==>
      && |ConvertMembers(members).value| == |members|
      && forall i :: 0 <= i < |members| ==>
           ConvertMembers(members).value[i] == Entry(members[i].key, ConvertValue(members[i].value).value)
  {
    MapAllSpec(ConvertMember, members);
  }

  /** On members with distinct keys new to `acc`, the loop of
      `convertSimpleObject` appends the member-wise conversion to `acc`. */
  lemma {:induction false} SimpleObjectFromAppends(acc: seq<Entry<ValueDescription>>, members: seq<Entry<Json>>)
    requires DistinctKeys(members)
    requires forall i :: 0 <= i < |members| ==> !HasKey(acc, members[i].key)
    ensures SimpleObjectFrom(acc, members) ==
      match ConvertMembers(members)
      case TypeError(p) => TypeError(p)
      case Ok(es) => Ok(acc + es)
    decreases |members|
  {
    if members == [] {
      assert acc + [] == acc;
    } else {
      var e := members[0];
      var tail := members[1..];
      match ConvertValue(e.value)
      case TypeError(_) =>
      case Ok(d) =>
        PutNew(acc, e.key, d);
        var next := acc + [Entry(e.key, d)];
        forall i | 0 <= i < |tail| ensures !HasKey(next, tail[i].key) {
          assert tail[i] == members[i + 1];
          AppendedIndex(acc, Entry(e.key, d), tail[i].key);
        }
        SimpleObjectFromAppends(next, tail);
        if ConvertMembers(tail).Ok? {
          AppendAssoc(acc, [Entry(e.key, d)], ConvertMembers(tail).value);
        }
    }
  }

  /** An object that is not a plural form, with distinct keys, converts to
      an `Object` node with one property per key, in key order, each the
      conversion of that key's value; it throws exactly when one of the
      values does. */
  lemma SimpleObjectSpec(members: seq<Entry<Json>>)
    requires !IsPluralFormObject(members) && DistinctKeys(members)
    ensures ConvertObject(members).Ok? <==>
      forall i :: 0 <= i < |members| ==> ConvertValue(members[i].value).Ok?
    ensures ConvertObject(members).Ok? ==>
      && ConvertObject(members).value.Object?
      && |ConvertObject(members).value.propertyDescriptions| == |members|
      && forall i :: 0 <= i < |members| ==>
           ConvertObject(members).value.propertyDescriptions[i] ==
             Entry(members[i].key, ConvertValue(members[i].value).value)
  {
    SimpleObjectFromAppends([], members);
    ConvertMembersSpec(members);
    if ConvertMembers(members).Ok? {
      assert [] + ConvertMembers(members).value == ConvertMembers(members).value;
    }
  }

  /** The tag of a converted value follows the order of the checks: a
      string without placeholders, a number or a boolean becomes a
      primitive holding it; a string with placeholders a placeholder
      function; an array an `Array`; an object a plural function exactly
      when it is a plural-form object, and an `Object` otherwise. Only
      strings, and the containers holding them, can throw. */
  lemma ConvertValueDispatch(v: Json)
    ensures v.JNumber? ==> ConvertValue(v) == Ok(Primitive(PNumber(v.n)))
    ensures v.JBool? ==> ConvertValue(v) == Ok(Primitive(PBool(v.b)))
    ensures v.JString? && AllMatches(v.s) == [] ==> ConvertValue(v) == Ok(Primitive(PString(v.s)))
    ensures ConvertValue(v).Ok? ==>
      var d := ConvertValue(v).value;
      && (d.PlaceholderFunction? <==> v.JString? && AllMatches(v.s) != [])
      && (d.Array? <==> v.JArray?)
      && (d.Object? <==> v.JObject? && !IsPluralFormObject(v.members))
      && (d.PluralFunction? <==> v.JObject? && IsPluralFormObject(v.members))
  {
    match v
    case JString(s) =>
    case JArray(items) =>
      assert ConvertValue(v) == ConvertArray(items);
    case JObject(members) =>
      assert ConvertValue(v) == ConvertObject(members);
      if !IsPluralFormObject(members) {
        assert ConvertObject(members) == SimpleObjectOf(members);
      }
    case JNumber(_) =>
    case JBool(_) =>
  }

  /** An empty object has no `n` key, so it is a plain, empty `Object`. */
  lemma EmptyObjectIsPlain()
    ensures ConvertValue(JObject([])) == Ok(Object([]))
  {
  }

  /** The arguments the placeholder forms among `forms` declare, form
      after form. */
  function FormArgs(forms: seq<Entry<Json>>): seq<Arg>
    requires AllStrings(forms)
    decreases |forms|
  {
    if forms == [] then []
    else
      var own := match ConvertString(forms[0].value.s)
        case Ok(PlaceholderFunction(args, _)) => args
        case _ => [];
      own + FormArgs(forms[1..])
  }

  /** The plural loop adds the forms' arguments to the `ArgSet` as one
      first-wins insertion of all of them in turn. */
  lemma {:induction false} PluralFromArgs(st: PluralState, forms: seq<Entry<Json>>)
    requires AllStrings(forms) && PluralFrom(st, forms).Ok?
    ensures PluralFrom(st, forms).value.argMap == AddAllIfAbsent(st.argMap, NamedEntries(FormArgs(forms)))
    decreases |forms|
  {
    if forms == [] {
      assert NamedEntries([]) == [];
    } else {
      var next := PluralStep(st, forms[0].key, forms[0].value.s).value;
      var tail := forms[1..];
      PluralFromArgs(next, tail);
      var own := match ConvertString(forms[0].value.s)
        case Ok(PlaceholderFunction(args, _)) => args
        case _ => [];
      assert next.argMap == AddAllIfAbsent(st.argMap, NamedEntries(own)) by {
        if own == [] {
          assert NamedEntries(own) == [];
        }
      }
      AddAllIfAbsentAppend(st.argMap, NamedEntries(own), NamedEntries(FormArgs(tail)));
      NamedEntriesAppend(own, FormArgs(tail));
    }
  }

  /** A plural function that converts is made from the state the loop
      reaches from the initial one. */
  lemma PluralFunctionOfUnfold(members: seq<Entry<Json>>)
    requires IsPluralFormObject(members) && PluralFunctionOf(members).Ok?
    ensures AllStrings(WithoutKey(members, PluralFormNthKey))
    ensures GetPluralFunctionValues(Get(members, PluralFormNthKey).value.s).Ok?
    ensures var nth := GetPluralFunctionValues(Get(members, PluralFormNthKey).value.s).value;
      && PluralFrom(PluralStart(nth), WithoutKey(members, PluralFormNthKey)).Ok?
      && var st := PluralFrom(PluralStart(nth), WithoutKey(members, PluralFormNthKey)).value;
         PluralFunctionOf(members).value == PluralFunction(Values(st.argMap), st.values)
  {
  }

  /** The arguments of a plural function: `count` of type `Number` first,
      whatever the forms declare, then the arguments of the numeric-key
      forms, first wins, in key order. The catch-all form's arguments are
      not among them. */
  lemma PluralFunctionArgs(members: seq<Entry<Json>>)
    requires IsPluralFormObject(members) && PluralFunctionOf(members).Ok?
    ensures AllStrings(WithoutKey(members, PluralFormNthKey))
    ensures PluralFunctionOf(members).value.PluralFunction?
    ensures ArgsFirstWins([CountArg], FormArgs(WithoutKey(members, PluralFormNthKey)), PluralFunctionOf(members).value.args)
  {
    PluralFunctionOfUnfold(members);
    var forms := WithoutKey(members, PluralFormNthKey);
    var nth := GetPluralFunctionValues(Get(members, PluralFormNthKey).value.s).value;
    var m0 := PutAll([], NamedEntries([CountArg]));
    SingleArgSet(CountArg);
    PluralFromArgs(PluralStart(nth), forms);
    AddedArgsFirstWins(m0, FormArgs(forms));
  }

  /** With a successful conversion, one step of the plural loop stores the
      form under its key, converted as the catch-all form is. */
  lemma PluralStepValues(st: PluralState, key: string, value: string)
    requires PluralStep(st, key, value).Ok?
    ensures GetPluralFunctionValues(value).Ok?
    ensures PluralStep(st, key, value).value.values == Put(st.values, key, GetPluralFunctionValues(value).value)
  {
    var d := ConvertString(value).value;
    var v := GetPluralFunctionValues(value).value;
    if d.Primitive? {
      assert v == LiteralForm(d.value.s);
    } else {
      assert v == PartsForm(d.stringParts);
    }
  }

  /** Each form converted as the catch-all form is and kept under its key,
      in key order; the first conversion that throws ends it. */
  function FormEntries(forms: seq<Entry<Json>>): Result<seq<Entry<PluralValue>>>
    requires AllStrings(forms)
    decreases |forms|
  {
    if forms == [] then Ok([])
    else
      match GetPluralFunctionValues(forms[0].value.s)
      case TypeError(p) => TypeError(p)
      case Ok(v) =>
        match FormEntries(forms[1..])
        case TypeError(p) => TypeError(p)
        case Ok(rest) => Ok([Entry(forms[0].key, v)] + rest)
  }

  lemma {:induction false} FormEntriesSpec(forms: seq<Entry<Json>>)
    requires AllStrings(forms) && FormEntries(forms).Ok?
    ensures |FormEntries(forms).value| == |forms|
    ensures forall i :: 0 <= i < |forms| ==>
      && GetPluralFunctionValues(forms[i].value.s).Ok?
      && FormEntries(forms).value[i] == Entry(forms[i].key, GetPluralFunctionValues(forms[i].value.s).value)
    decreases |forms|
  {
    if forms != [] {
      var tail := forms[1..];
      FormEntriesSpec(tail);
      var es := FormEntries(forms).value;
      forall i | 0 < i < |forms|
        ensures GetPluralFunctionValues(forms[i].value.s).Ok?
        ensures es[i] == Entry(forms[i].key, GetPluralFunctionValues(forms[i].value.s).value)
      {
        assert forms[i] == tail[i - 1];
        assert es[i] == FormEntries(tail).value[i - 1];
      }
    }
  }

  /** Appending a key keeps the later, distinct keys of a map new. */
  lemma StillNew<V, W>(values: seq<Entry<V>>, e: Entry<V>, forms: seq<Entry<W>>)
    requires forms != [] && DistinctKeys(forms) && forms[0].key == e.key
    requires forall i :: 0 <= i < |forms| ==> !HasKey(values, forms[i].key)
    ensures forall i :: 0 <= i < |forms[1..]| ==> !HasKey(values + [e], forms[1..][i].key)
  {
    forall i | 0 <= i < |forms[1..]| ensures !HasKey(values + [e], forms[1..][i].key) {
      assert forms[1..][i] == forms[i + 1];
      AppendedIndex(values, e, forms[i + 1].key);
    }
  }

  /** One pass of the plural loop on a key new to `values` appends the
      converted form. */
  lemma PluralFromFirst(st: PluralState, forms: seq<Entry<Json>>)
    requires AllStrings(forms) && forms != [] && !HasKey(st.values, forms[0].key)
    requires PluralFrom(st, forms).Ok?
    ensures AllStrings(forms[1..])
    ensures PluralStep(st, forms[0].key, forms[0].value.s).Ok?
    ensures GetPluralFunctionValues(forms[0].value.s).Ok?
    ensures var next := PluralStep(st, forms[0].key, forms[0].value.s).value;
      && PluralFrom(st, forms) == PluralFrom(next, forms[1..])
      && next.values == st.values + [Entry(forms[0].key, GetPluralFunctionValues(forms[0].value.s).value)]
  {
    var e := forms[0];
    PluralStepValues(st, e.key, e.value.s);
    PutNew(st.values, e.key, GetPluralFunctionValues(e.value.s).value);
  }

  /** On forms with distinct keys new to `values`, the plural loop appends
      the converted forms to `values`. */
  lemma {:induction false} PluralFromValues(st: PluralState, forms: seq<Entry<Json>>)
    requires AllStrings(forms) && DistinctKeys(forms)
    requires forall i :: 0 <= i < |forms| ==> !HasKey(st.values, forms[i].key)
    requires PluralFrom(st, forms).Ok?
    ensures FormEntries(forms).Ok?
    ensures PluralFrom(st, forms).value.values == st.values + FormEntries(forms).value
    decreases |forms|
  {
    if forms == [] {
      assert st.values + [] == st.values;
    } else {
      var e := forms[0];
      PluralFromFirst(st, forms);
      var next := PluralStep(st, e.key, e.value.s).value;
      var v := GetPluralFunctionValues(e.value.s).value;
      StillNew(st.values, Entry(e.key, v), forms);
      PluralFromValues(next, forms[1..]);
      var rest := FormEntries(forms[1..]).value;
      assert FormEntries(forms) == Ok([Entry(e.key, v)] + rest);
      AppendAssoc(st.values, [Entry(e.key, v)], rest);
    }
  }

  /** The values of a plural function over distinct keys: the catch-all
      form under `n` first, then each other key in key order, one entry
      per key of the object, each form held as a literal when it has no
      placeholder and as its parts otherwise. */
  lemma PluralFunctionValues(members: seq<Entry<Json>>)
    requires IsPluralFormObject(members) && DistinctKeys(members) && PluralFunctionOf(members).Ok?
    ensures AllStrings(WithoutKey(members, PluralFormNthKey))
    ensures PluralFunctionOf(members).value.PluralFunction?
    ensures var values := PluralFunctionOf(members).value.values;
      var forms := WithoutKey(members, PluralFormNthKey);
      && |values| == |members| == |forms| + 1
      && GetPluralFunctionValues(Get(members, PluralFormNthKey).value.s).Ok?
      && values[0] == Entry(PluralFormNthKey, GetPluralFunctionValues(Get(members, PluralFormNthKey).value.s).value)
      && forall j :: 0 <= j < |forms| ==>
           && GetPluralFunctionValues(forms[j].value.s).Ok?
           && values[j + 1] == Entry(forms[j].key, GetPluralFunctionValues(forms[j].value.s).value)
  {
    PluralFunctionOfUnfold(members);
    var forms := WithoutKey(members, PluralFormNthKey);
    WithoutKeyDistinct(members, PluralFormNthKey);
    forall i | 0 <= i < |forms| ensures forms[i].key != PluralFormNthKey {
      assert forms[i] in forms;
    }
    PluralStartValues(GetPluralFunctionValues(Get(members, PluralFormNthKey).value.s).value, forms);
  }

  /** The loop over the numeric-key forms, started with the catch-all form
      alone, stores the catch-all form first and then every form in order. */
  lemma PluralStartValues(nth: PluralValue, forms: seq<Entry<Json>>)
    requires AllStrings(forms) && DistinctKeys(forms)
    requires forall i :: 0 <= i < |forms| ==> forms[i].key != PluralFormNthKey
    requires PluralFrom(PluralStart(nth), forms).Ok?
    ensures var values := PluralFrom(PluralStart(nth), forms).value.values;
      && |values| == |forms| + 1
      && values[0] == Entry(PluralFormNthKey, nth)
      && forall j :: 0 <= j < |forms| ==>
           && GetPluralFunctionValues(forms[j].value.s).Ok?
           && values[j + 1] == Entry(forms[j].key, GetPluralFunctionValues(forms[j].value.s).value)
  {
    var start := PluralStart(nth);
    StartLacksForms(nth, forms);
    PluralFromValues(start, forms);
    FormEntriesSpec(forms);
    var fe := FormEntries(forms).value;
    var values := PluralFrom(start, forms).value.values;
    assert values == [Entry(PluralFormNthKey, nth)] + fe;
    forall j | 0 <= j < |forms| ensures values[j + 1] == fe[j] { }
  }

  /** The start state holds only the catch-all form, so none of the
      numeric keys. */
  lemma StartLacksForms(nth: PluralValue, forms: seq<Entry<Json>>)
    requires forall i :: 0 <= i < |forms| ==> forms[i].key != PluralFormNthKey
    ensures forall i :: 0 <= i < |forms| ==> !HasKey(PluralStart(nth).values, forms[i].key)
  {
    var values := PluralStart(nth).values;
    forall i | 0 <= i < |forms| ensures !HasKey(values, forms[i].key) {
      IndexOfKeyNone(values, forms[i].key);
    }
  }
}
