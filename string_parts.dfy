/** `createStringPartsBuilder`: cuts a string into literal parts and
    argument references, one placeholder occurrence at a time, with
    `split`. */
module StringParts {
  import opened Wrappers
  import opened JsStrings
  import opened Intermediate
  import opened Placeholders

  /** What one `add` contributes: the parts it pushes and the new value of
      the unprocessed remainder (`None` is `undefined`). */
  datatype Step = Step(pushed: seq<Part>, unprocessed: Option<string>)

  /** `add(arg, argStringMatch)` on the remainder `unprocessed`: split it at
      the match text, keep element 1 as the new remainder, push element 0
      unless it is `""`, then push the argument's name. Splitting an
      `undefined` remainder throws a `TypeError`. */
  function AddPart(unprocessed: Option<string>, name: string, matchText: string): (r: Result<Step>)
    ensures r.TypeError? <==> unprocessed.None?
    ensures r.Ok? ==> |r.value.pushed| > 0 && r.value.pushed[|r.value.pushed| - 1] == ArgName(name)
  {
    match unprocessed
    case None => TypeError("split")
    case Some(rest) =>
      var (before, after) := SplitFirstTwo(rest, matchText);
      var literal := match before
        case None => [Undefined]
        case Some(t) => if t == "" then [] else [Text(t)];
      Ok(Step(literal + [ArgName(name)], after))
  }

  /** The `stringPart` getter: pushes the remainder unless it is `""`;
      an `undefined` remainder is pushed as it is. */
  function FinalParts(unprocessed: Option<string>): seq<Part> {
    match unprocessed
    case None => [Undefined]
    case Some(t) => if t == "" then [] else [Text(t)]
  }

  /** The parts the builder produces from the remainder `unprocessed` when
      it is given the matches `ms` in order and then read. */
  function SegmentFrom(unprocessed: Option<string>, ms: seq<Match>): (r: Result<seq<Part>>)
    ensures r.TypeError? ==> r.property == "split"
    decreases |ms|
  {
    if ms == [] then Ok(FinalParts(unprocessed))
    else
      match AddPart(unprocessed, ms[0].name, ms[0].text)
      case TypeError(p) => TypeError(p)
      case Ok(step) =>
        match SegmentFrom(step.unprocessed, ms[1..])
        case TypeError(p) => TypeError(p)
        case Ok(rest) => Ok(step.pushed + rest)
  }

  /** The parts of `value` for its matches `ms`. */
  function StringPartsOf(value: string, ms: seq<Match>): (r: Result<seq<Part>>)
    ensures r.TypeError? ==> r.property == "split"
    ensures r.Ok? ==> ArgNames(r.value) == MatchNames(ms) && NoEmptyText(r.value)
  {
    var parts := SegmentFrom(Some(value), ms);
    if parts.Ok? then
      SegmentArgNames(Some(value), ms);
      SegmentNoEmptyText(Some(value), ms);
      parts
    else parts
  }

  /** The builder object: the parts array and the unprocessed remainder. */
  class StringPartsBuilder {
    var stringPart: seq<Part>
    var unprocessedValue: Option<string>

    constructor (value: string)
      ensures stringPart == [] && unprocessedValue == Some(value)
    {
      stringPart := [];
      unprocessedValue := Some(value);
    }

    method Add(arg: Arg, argStringMatch: string) returns (r: Result<()>)
      modifies this
      ensures var step := AddPart(old(unprocessedValue), arg.name, argStringMatch);
        match step
        case TypeError(p) => r == TypeError(p) && stringPart == old(stringPart) && unprocessedValue == old(unprocessedValue)
        case Ok(s) => r == Ok(()) && stringPart == old(stringPart) + s.pushed && unprocessedValue == s.unprocessed
    {
      if unprocessedValue.None? {
        return TypeError("split");
      }
      var (before, after) := SplitFirstTwo(unprocessedValue.value, argStringMatch);
      unprocessedValue := after;
      if before != Some("") {
        var literal := if before.Some? then Text(before.value) else Undefined;
        stringPart := stringPart + [literal];
      }
      stringPart := stringPart + [ArgName(arg.name)];
      r := Ok(());
    }

    /** `get stringPart()`: the getter itself pushes the remainder. */
    method GetStringPart() returns (parts: seq<Part>)
      modifies this
      ensures parts == stringPart == old(stringPart) + FinalParts(old(unprocessedValue))
      ensures unprocessedValue == old(unprocessedValue)
    {
      if unprocessedValue != Some("") {
        var literal := if unprocessedValue.Some? then Text(unprocessedValue.value) else Undefined;
        stringPart := stringPart + [literal];
      }
      parts := stringPart;
    }
  }

  /** The names of the argument references, in order. */
  function ArgNames(parts: seq<Part>): (names: seq<string>)
    decreases |parts|
  {
    if parts == [] then []
    else (if parts[0].ArgName? then [parts[0].name] else []) + ArgNames(parts[1..])
  }

  function MatchNames(ms: seq<Match>): (names: seq<string>)
    ensures |names| == |ms| && forall i :: 0 <= i < |ms| ==> names[i] == ms[i].name
  {
    seq(|ms|, i requires 0 <= i < |ms| => ms[i].name)
  }

  lemma {:induction false} ArgNamesAppend(a: seq<Part>, b: seq<Part>)
    ensures ArgNames(a + b) == ArgNames(a) + ArgNames(b)
    decreases |a|
  {
    if a == [] {
      assert a + b == b;
    } else {
      assert (a + b)[0] == a[0] && (a + b)[1..] == a[1..] + b;
      ArgNamesAppend(a[1..], b);
    }
  }

  /** One reference per match, in match order: a name matched N times is
      referenced N times. */
  lemma {:induction false} SegmentArgNames(unprocessed: Option<string>, ms: seq<Match>)
    requires SegmentFrom(unprocessed, ms).Ok?
    ensures ArgNames(SegmentFrom(unprocessed, ms).value) == MatchNames(ms)
    decreases |ms|
  {
    if ms != [] {
      var step := AddPart(unprocessed, ms[0].name, ms[0].text).value;
      SegmentArgNames(step.unprocessed, ms[1..]);
      var n := |step.pushed|;
      assert step.pushed == step.pushed[..n - 1] + [ArgName(ms[0].name)];
      ArgNamesAppend(step.pushed[..n - 1], [ArgName(ms[0].name)]);
      assert ArgNames(step.pushed[..n - 1]) == [];
      ArgNamesAppend(step.pushed, SegmentFrom(step.unprocessed, ms[1..]).value);
      assert MatchNames(ms) == [ms[0].name] + MatchNames(ms[1..]);
    }
  }

  /** No literal part is empty. */
  predicate NoEmptyText(parts: seq<Part>) {
    forall i :: 0 <= i < |parts| ==> parts[i] != Text("")
  }

  lemma {:induction false} SegmentNoEmptyText(unprocessed: Option<string>, ms: seq<Match>)
    requires SegmentFrom(unprocessed, ms).Ok?
    ensures NoEmptyText(SegmentFrom(unprocessed, ms).value)
    decreases |ms|
  {
    if ms != [] {
      var step := AddPart(unprocessed, ms[0].name, ms[0].text).value;
      SegmentNoEmptyText(step.unprocessed, ms[1..]);
    }
  }

  /** With non-empty match texts, which real matches always have, an
      `undefined` part can only be the last one. */
  lemma {:induction false} SegmentUndefinedOnlyLast(unprocessed: Option<string>, ms: seq<Match>)
    requires SegmentFrom(unprocessed, ms).Ok?
    requires forall i :: 0 <= i < |ms| ==> ms[i].text != []
    ensures var parts := SegmentFrom(unprocessed, ms).value;
      forall i :: 0 <= i < |parts| - 1 ==> parts[i] != Undefined
    decreases |ms|
  {
    if ms != [] {
      var step := AddPart(unprocessed, ms[0].name, ms[0].text).value;
      SegmentUndefinedOnlyLast(step.unprocessed, ms[1..]);
      assert SplitFirstTwo(unprocessed.value, ms[0].text).0.Some?;
    }
  }

  /** Each match text splits the remainder left by the previous ones in
      exactly two pieces: it occurs there, and not again after itself. */
  predicate SplitsEachOnce(rest: string, ms: seq<Match>)
    decreases |ms|
  {
    ms == [] ||
      (SplitsOnce(rest, ms[0].text) && SplitsEachOnce(SplitFirstTwo(rest, ms[0].text).1.value, ms[1..]))
  }

  /** The text the parts spell when each reference is replaced by the text
      of the next match. */
  function Render(parts: seq<Part>, ms: seq<Match>): string
    decreases |parts|
  {
    if parts == [] then ""
    else
      match parts[0]
      case Text(t) => t + Render(parts[1..], ms)
      case ArgName(_) =>
        if ms == [] then Render(parts[1..], ms) else ms[0].text + Render(parts[1..], ms[1..])
      case Undefined => Render(parts[1..], ms)
  }

  /** When each match text occurs once in what is left of the string, the
      builder succeeds, pushes no `undefined`, and the parts spell the
      string back. */
  lemma {:induction false} SegmentRoundTrip(rest: string, ms: seq<Match>)
    requires SplitsEachOnce(rest, ms)
    ensures SegmentFrom(Some(rest), ms).Ok?
    ensures Undefined !in SegmentFrom(Some(rest), ms).value
    ensures Render(SegmentFrom(Some(rest), ms).value, ms) == rest
    decreases |ms|
  {
    if ms != [] {
      var m := ms[0];
      SplitOnceRebuilds(rest, m.text);
      var (before, after) := SplitFirstTwo(rest, m.text);
      SegmentRoundTrip(after.value, ms[1..]);
      var tail := SegmentFrom(after, ms[1..]).value;
      var reference := [ArgName(m.name)] + tail;
      assert reference[1..] == tail;
      assert Render(reference, ms) == m.text + after.value;
      if before.value != "" {
        var parts := [Text(before.value)] + reference;
        assert parts[1..] == reference;
        assert SegmentFrom(Some(rest), ms).value == parts;
      } else {
        assert SegmentFrom(Some(rest), ms).value == reference;
      }
    }
  }

  /** No two literal parts are adjacent. */
  predicate NoAdjacentText(parts: seq<Part>) {
    forall i :: 0 <= i < |parts| - 1 ==> !(parts[i].Text? && parts[i + 1].Text?)
  }

  lemma {:induction false} SegmentNoAdjacentText(unprocessed: Option<string>, ms: seq<Match>)
    requires SegmentFrom(unprocessed, ms).Ok?
    ensures NoAdjacentText(SegmentFrom(unprocessed, ms).value)
    decreases |ms|
  {
    if ms != [] {
      var step := AddPart(unprocessed, ms[0].name, ms[0].text).value;
      SegmentNoAdjacentText(step.unprocessed, ms[1..]);
      var rest := SegmentFrom(step.unprocessed, ms[1..]).value;
      var parts := step.pushed + rest;
      forall i | 0 <= i < |parts| - 1
        ensures !(parts[i].Text? && parts[i + 1].Text?)
      {
        if i >= |step.pushed| {
          assert parts[i] == rest[i - |step.pushed|] && parts[i + 1] == rest[i + 1 - |step.pushed|];
        }
      }
    }
  }

  /** The builder on `{a:b}x{a:b}y` with both occurrences as matches. */
  lemma RepeatedMatchTextParts()
    ensures StringPartsOf("{a:b}x{a:b}y", [Match(0, "{a:b}", "a", "b"), Match(6, "{a:b}", "a", "b")])
         == Ok([ArgName("a"), Text("x"), ArgName("a"), Undefined])
  {
    var s := "{a:b}x{a:b}y";
    assert OccursAt(s, "{a:b}", 0);
    assert s[5..10][0] == 'x';
    assert !OccursAt(s, "{a:b}", 5);
    assert s[6..11] == "{a:b}";
    assert OccursAt(s, "{a:b}", 6);
    assert IndexOf(s, "{a:b}", 5) == Some(6);
    assert IndexOf(s, "{a:b}", 0) == Some(0);
    assert s[5..6] == "x";
    assert SplitFirstTwo(s, "{a:b}") == (Some(""), Some("x"));
    assert SplitFirstTwo("x", "{a:b}") == (Some("x"), None);
    var m := Match(0, "{a:b}", "a", "b");
    var m' := Match(6, "{a:b}", "a", "b");
    assert [] + [ArgName("a")] == [ArgName("a")];
    assert [Text("x")] + [ArgName("a")] == [Text("x"), ArgName("a")];
    assert [Text("x"), ArgName("a")] + [Undefined] == [Text("x"), ArgName("a"), Undefined];
    assert [ArgName("a")] + [Text("x"), ArgName("a"), Undefined] == [ArgName("a"), Text("x"), ArgName("a"), Undefined];
    assert AddPart(Some(s), "a", "{a:b}") == Ok(Step([ArgName("a")], Some("x")));
    assert AddPart(Some("x"), "a", "{a:b}") == Ok(Step([Text("x"), ArgName("a")], None));
    assert [m, m'][1..] == [m'];
    assert SegmentFrom(Some("x"), [m']) == Ok([Text("x"), ArgName("a"), Undefined]);
  }

  /** A match text that occurs again later loses everything after its
      second occurrence: in `{a:b}x{a:b}y` both occurrences are matches,
      the first `split` keeps only `x`, the second finds nothing, and the
      getter pushes `undefined`. */
  lemma RepeatedMatchTextLosesRest(s: string)
    requires s == "{a:b}x{a:b}y"
    ensures AllMatches(s) == [Match(0, "{a:b}", "a", "b"), Match(6, "{a:b}", "a", "b")]
    ensures StringPartsOf(s, AllMatches(s)) == Ok([ArgName("a"), Text("x"), ArgName("a"), Undefined])
  {
    RepeatedPlaceholderMatches(s);
    RepeatedMatchTextParts();
  }

  /** The builder on `{a:b}x\{a:b}y` with the first occurrence as its only
      match. */
  lemma EscapedRepeatParts()
    ensures StringPartsOf("{a:b}x\\{a:b}y", [Match(0, "{a:b}", "a", "b")]) == Ok([ArgName("a"), Text("x\\")])
  {
    var s := "{a:b}x\\{a:b}y";
    assert OccursAt(s, "{a:b}", 0);
    assert s[5..10][0] == 'x' && s[6..11][0] == '\\';
    assert !OccursAt(s, "{a:b}", 5) && !OccursAt(s, "{a:b}", 6);
    assert s[7..12] == "{a:b}";
    assert OccursAt(s, "{a:b}", 7);
    assert IndexOf(s, "{a:b}", 5) == Some(7);
    assert IndexOf(s, "{a:b}", 0) == Some(0);
    assert s[5..7] == "x\\";
    assert SplitFirstTwo(s, "{a:b}") == (Some(""), Some("x\\"));
    assert [] + [ArgName("a")] == [ArgName("a")];
    assert AddPart(Some(s), "a", "{a:b}") == Ok(Step([ArgName("a")], Some("x\\")));
    assert [Match(0, "{a:b}", "a", "b")][1..] == [];
    assert SegmentFrom(Some("x\\"), []) == Ok([Text("x\\")]);
    assert [ArgName("a")] + [Text("x\\")] == [ArgName("a"), Text("x\\")];
  }

  /** An occurrence of the match text that is not itself a match still
      cuts the remainder: in `{a:b}x\{a:b}y` the escaped second `{a:b}`
      is no match, yet the first `split` keeps only `x\`, so the `y` is
      lost and no `undefined` is pushed. */
  lemma EscapedRepeatLosesRest(s: string)
    requires s == "{a:b}x\\{a:b}y"
    ensures AllMatches(s) == [Match(0, "{a:b}", "a", "b")]
    ensures StringPartsOf(s, AllMatches(s)) == Ok([ArgName("a"), Text("x\\")])
  {
    EscapedRepeatMatches(s);
    EscapedRepeatParts();
  }

  /** The builder on `{a:b}{a:b}{a:b}` with all three occurrences as
      matches. */
  lemma ThirdOccurrenceParts()
    ensures StringPartsOf("{a:b}{a:b}{a:b}", [Match(0, "{a:b}", "a", "b"), Match(5, "{a:b}", "a", "b"), Match(10, "{a:b}", "a", "b")])
         == TypeError("split")
  {
    var s := "{a:b}{a:b}{a:b}";
    assert OccursAt(s, "{a:b}", 0);
    assert s[5..10] == "{a:b}";
    assert OccursAt(s, "{a:b}", 5);
    assert SplitFirstTwo(s, "{a:b}") == (Some(""), Some(""));
    assert SplitFirstTwo("", "{a:b}") == (Some(""), None);
  }

  /** A third occurrence then splits `undefined`, which throws: all three
      occurrences in `{a:b}{a:b}{a:b}` are matches, and the second `add`
      already leaves `undefined`. */
  lemma ThirdOccurrenceThrows(s: string)
    requires s == "{a:b}{a:b}{a:b}"
    ensures AllMatches(s) == [Match(0, "{a:b}", "a", "b"), Match(5, "{a:b}", "a", "b"), Match(10, "{a:b}", "a", "b")]
    ensures StringPartsOf(s, AllMatches(s)) == TypeError("split")
  {
    TriplePlaceholderMatches(s);
    ThirdOccurrenceParts();
  }
}
