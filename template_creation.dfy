/** `createTemplate`: the template literal for a parts sequence. The head
    is the first part when it is literal text; every argument reference
    becomes a span whose literal is the text right after it. */
module TemplateCreation {
  import opened Wrappers
  import opened Intermediate
  import opened StringParts
  import opened TsAst
  import opened Placeholders

  /** The text of the part after position `i` when that part is literal
      text, `""` otherwise (also past the end). */
  function NextText(parts: seq<Part>, i: nat): string {
    if i + 1 < |parts| && parts[i + 1].Text? then parts[i + 1].text else ""
  }

  /** The head: the first part when it is literal text, `""` otherwise,
      and `""` for no parts at all. */
  function Head(parts: seq<Part>): string {
    if |parts| > 0 && parts[0].Text? then parts[0].text else ""
  }

  /** The span for the reference `name` at position `i`: a tail when the
      reference is the last or the second-to-last part, a middle otherwise. */
  function SpanAt(parts: seq<Part>, i: nat, name: string): TemplateSpan {
    var text := NextText(parts, i);
    TemplateSpan(name, if i == |parts| - 1 || i == |parts| - 2 then TemplateTail(text) else TemplateMiddle(text))
  }

  /** The spans of the parts from position `i` on: literal text gives none,
      a reference gives one, and an `undefined` part throws when its
      `name` is read. */
  function SpansFrom(parts: seq<Part>, i: nat): Result<seq<TemplateSpan>>
    decreases |parts| - i
  {
    if i >= |parts| then Ok([])
    else
      match parts[i]
      case Text(_) => SpansFrom(parts, i + 1)
      case Undefined => TypeError("name")
      case ArgName(name) =>
        match SpansFrom(parts, i + 1)
        case TypeError(p) => TypeError(p)
        case Ok(rest) => Ok([SpanAt(parts, i, name)] + rest)
  }

  /** `createTemplate`: the head, then one span per reference, each
      naming the referenced argument; an `undefined` part throws at the
      read of its `name`. */
  function CreateTemplate(stringParts: seq<Part>): (r: Result<Expression>)
    ensures r.TypeError? ==> r.property == "name"
    ensures r.Ok? ==> r.value.TemplateExpression? && Identifiers(r.value.spans) == ArgNames(stringParts)
  {
    SpansFromError(stringParts, 0);
    match SpansFrom(stringParts, 0)
    case TypeError(p) => TypeError(p)
    case Ok(spans) =>
      SpanIdentifiers(stringParts, 0);
      assert stringParts[0..] == stringParts;
      Ok(TemplateExpression(Head(stringParts), spans))
  }

  /** `createTemplate` succeeds exactly when no part is `undefined`, and
      otherwise throws reading `name`; its head is the leading text. */
  lemma CreateTemplateOk(parts: seq<Part>)
    ensures CreateTemplate(parts).Ok? <==> Undefined !in parts
    ensures CreateTemplate(parts).TypeError? ==> CreateTemplate(parts).property == "name"
    ensures CreateTemplate(parts).Ok? ==>
      && CreateTemplate(parts).value.TemplateExpression?
      && CreateTemplate(parts).value.head == Head(parts)
  {
    SpansFromThrows(parts, 0);
    SpansFromError(parts, 0);
  }

  /** The only error the spans can raise is the read of `name`. */
  lemma {:induction false} SpansFromError(parts: seq<Part>, i: nat)
    ensures SpansFrom(parts, i).TypeError? ==> SpansFrom(parts, i).property == "name"
    decreases |parts| - i
  {
    if i < |parts| {
      SpansFromError(parts, i + 1);
    }
  }

  /** The positions of the references from position `i` on, in order. */
  function ArgPositions(parts: seq<Part>, i: nat): (ps: seq<nat>)
    ensures forall k :: 0 <= k < |ps| ==> i <= ps[k] < |parts| && parts[ps[k]].ArgName?
    decreases |parts| - i
  {
    if i >= |parts| then []
    else if parts[i].ArgName? then [i] + ArgPositions(parts, i + 1)
    else ArgPositions(parts, i + 1)
  }

  /** Building the template throws exactly when a part is `undefined`. */
  lemma {:induction false} SpansFromThrows(parts: seq<Part>, i: nat)
    ensures SpansFrom(parts, i).TypeError? <==> exists k :: i <= k < |parts| && parts[k] == Undefined
    decreases |parts| - i
  {
    if i < |parts| {
      SpansFromThrows(parts, i + 1);
    }
  }

  /** `spans[k]` is the span of the reference at `ps[k]`: it names that
      reference, carries the text right after it, and is a tail exactly
      when the reference is the last or the second-to-last part. */
  predicate SpansAt(parts: seq<Part>, spans: seq<TemplateSpan>, ps: seq<nat>)
    requires forall k :: 0 <= k < |ps| ==> ps[k] < |parts| && parts[ps[k]].ArgName?
  {
    && |spans| == |ps|
    && forall k :: 0 <= k < |ps| ==>
         && spans[k].identifier == parts[ps[k]].name
         && spans[k].literal.text == NextText(parts, ps[k])
         && (spans[k].literal.TemplateTail? <==> ps[k] + 2 >= |parts|)
  }

  /** One span per reference, in order: the `k`-th span names the `k`-th
      reference, carries the text right after it, and is a tail exactly
      when that reference is the last or second-to-last part. */
  lemma {:induction false} SpansFromAreReferences(parts: seq<Part>, i: nat)
    requires SpansFrom(parts, i).Ok?
    ensures SpansAt(parts, SpansFrom(parts, i).value, ArgPositions(parts, i))
    decreases |parts| - i
  {
    if i < |parts| {
      SpansFromAreReferences(parts, i + 1);
      if parts[i].ArgName? {
        var spans := SpansFrom(parts, i).value;
        var ps := ArgPositions(parts, i);
        forall k | 1 <= k < |ps|
          ensures spans[k] == SpansFrom(parts, i + 1).value[k - 1] && ps[k] == ArgPositions(parts, i + 1)[k - 1]
        {
        }
      }
    }
  }

  /** The identifiers of the spans are the names of the references. */
  lemma {:induction false} SpanIdentifiers(parts: seq<Part>, i: nat)
    requires i <= |parts| && SpansFrom(parts, i).Ok?
    ensures Identifiers(SpansFrom(parts, i).value) == ArgNames(parts[i..])
    decreases |parts| - i
  {
    if i < |parts| {
      SpanIdentifiers(parts, i + 1);
      assert parts[i..] == [parts[i]] + parts[i + 1..];
      ArgNamesAppend([parts[i]], parts[i + 1..]);
      if parts[i].ArgName? {
        var spans := SpansFrom(parts, i).value;
        assert spans == [SpanAt(parts, i, parts[i].name)] + SpansFrom(parts, i + 1).value;
      }
    } else {
      assert parts[i..] == [];
    }
  }

  function Identifiers(spans: seq<TemplateSpan>): (ids: seq<string>)
    ensures |ids| == |spans| && forall k :: 0 <= k < |spans| ==> ids[k] == spans[k].identifier
  {
    seq(|spans|, k requires 0 <= k < |spans| => spans[k].identifier)
  }

  /** Literal text and references alternate: no two neighbours are both
      text or both references. */
  predicate Alternating(parts: seq<Part>) {
    forall i :: 0 <= i < |parts| - 1 ==> (parts[i].Text? <==> !parts[i + 1].Text?)
  }

  /** On alternating parts only the last span is a tail. */
  lemma OnlyLastSpanIsTail(parts: seq<Part>)
    requires Alternating(parts) && CreateTemplate(parts).Ok?
    ensures forall k :: 0 <= k < |CreateTemplate(parts).value.spans| ==>
      (CreateTemplate(parts).value.spans[k].literal.TemplateTail? <==> k == |CreateTemplate(parts).value.spans| - 1)
  {
    SpansFromThrows(parts, 0);
    var ps := ArgPositions(parts, 0);
    SpansFromAreReferences(parts, 0);
    ArgPositionsSpread(parts, 0);
    if |ps| > 0 {
      ArgPositionsLast(parts, 0);
    }
    var spans := CreateTemplate(parts).value.spans;
    forall k | 0 <= k < |spans| ensures spans[k].literal.TemplateTail? <==> k == |spans| - 1 {
      if k < |spans| - 1 {
        assert ps[k] + 2 <= ps[k + 1] < |parts|;
      }
    }
  }

  /** Consecutive positions are at least two apart. */
  predicate Spread(ps: seq<nat>) {
    forall k :: 0 <= k < |ps| - 1 ==> ps[k] + 2 <= ps[k + 1]
  }

  /** On alternating parts, consecutive references are two positions apart. */
  lemma {:induction false} ArgPositionsSpread(parts: seq<Part>, i: nat)
    requires Alternating(parts)
    ensures Spread(ArgPositions(parts, i))
    decreases |parts| - i
  {
    if i < |parts| {
      ArgPositionsSpread(parts, i + 1);
      var ps := ArgPositions(parts, i);
      var rest := ArgPositions(parts, i + 1);
      if parts[i].ArgName? {
        assert ps == [i] + rest;
        if |rest| > 0 {
          assert rest[0] != i + 1;
        }
        forall k | 0 <= k < |ps| - 1 ensures ps[k] + 2 <= ps[k + 1] {
          if k > 0 {
            assert ps[k] == rest[k - 1] && ps[k + 1] == rest[k];
          }
        }
      } else {
        assert ps == rest;
      }
    }
  }

  /** On alternating parts with no `undefined` part, the last reference is
      the last or the second-to-last part. */
  lemma {:induction false} ArgPositionsLast(parts: seq<Part>, i: nat)
    requires Alternating(parts) && Undefined !in parts && |ArgPositions(parts, i)| > 0
    ensures var ps := ArgPositions(parts, i);
      ps[|ps| - 1] + 2 >= |parts|
    decreases |parts| - i
  {
    var ps := ArgPositions(parts, i);
    var rest := ArgPositions(parts, i + 1);
    if !parts[i].ArgName? {
      assert ps == rest;
      ArgPositionsLast(parts, i + 1);
    } else if |rest| > 0 {
      assert ps == [i] + rest;
      ArgPositionsLast(parts, i + 1);
      assert ps[|ps| - 1] == rest[|rest| - 1];
    } else {
      assert ps == [i];
      if i + 2 < |parts| {
        assert false;
      }
    }
  }

  lemma {:induction false} ArgPositionsEmpty(parts: seq<Part>, i: nat, k: nat)
    requires ArgPositions(parts, i) == [] && i <= k < |parts|
    ensures !parts[k].ArgName?
    decreases k - i
  {
    if k > i {
      ArgPositionsEmpty(parts, i + 1, k);
    }
  }

  /** When the last two parts are both references, both of their spans
      are tails. */
  lemma TrailingReferencesBothTail(parts: seq<Part>)
    requires |parts| >= 2 && parts[|parts| - 2].ArgName? && parts[|parts| - 1].ArgName?
    requires CreateTemplate(parts).Ok?
    ensures var spans := CreateTemplate(parts).value.spans;
      |spans| >= 2 && spans[|spans| - 2].literal.TemplateTail? && spans[|spans| - 1].literal.TemplateTail?
  {
    SpansFromAreReferences(parts, 0);
    ArgPositionsEnd(parts, 0);
  }

  /** The last two positions of the references are the last two parts
      when both of those parts are references. */
  lemma {:induction false} ArgPositionsEnd(parts: seq<Part>, i: nat)
    requires i <= |parts| - 2 && parts[|parts| - 2].ArgName? && parts[|parts| - 1].ArgName?
    ensures |ArgPositions(parts, i)| >= 2
    ensures ArgPositions(parts, i)[|ArgPositions(parts, i)| - 2] == |parts| - 2
    ensures ArgPositions(parts, i)[|ArgPositions(parts, i)| - 1] == |parts| - 1
    decreases |parts| - i
  {
    if i < |parts| - 2 {
      ArgPositionsEnd(parts, i + 1);
    } else {
      assert ArgPositions(parts, i + 2) == [];
      assert ArgPositions(parts, i + 1) == [i + 1];
      assert ArgPositions(parts, i) == [i, i + 1];
    }
  }

  /** The text the template spells when the `k`-th substitution is the
      text of the `k`-th match, as `Render` does for parts. */
  function SpansRender(spans: seq<TemplateSpan>, ms: seq<Match>): string
    decreases |spans|
  {
    if spans == [] then ""
    else if ms == [] then spans[0].literal.text + SpansRender(spans[1..], ms)
    else ms[0].text + spans[0].literal.text + SpansRender(spans[1..], ms[1..])
  }

  function TemplateRender(template: Expression, ms: seq<Match>): string
    requires template.TemplateExpression?
  {
    template.head + SpansRender(template.spans, ms)
  }

  /** The parts from position `i` on, without the literal text at `i`
      (which the span of the reference before it already carries). */
  function SkipText(parts: seq<Part>, i: nat): seq<Part>
    requires i <= |parts|
  {
    if i < |parts| && parts[i].Text? then parts[i + 1..] else parts[i..]
  }

  lemma {:induction false} SpansRenderFrom(parts: seq<Part>, i: nat, ms: seq<Match>)
    requires i <= |parts| && Undefined !in parts && NoAdjacentText(parts)
    requires SpansFrom(parts, i).Ok?
    ensures SpansRender(SpansFrom(parts, i).value, ms) == Render(SkipText(parts, i), ms)
    decreases |parts| - i
  {
    if i < |parts| {
      assert parts[i..][0] == parts[i] && parts[i..][1..] == parts[i + 1..];
      match parts[i]
      case Text(_) =>
        SpansRenderFrom(parts, i + 1, ms);
        assert i + 1 < |parts| ==> !parts[i + 1].Text?;
      case ArgName(name) =>
        var rest := SpansFrom(parts, i + 1).value;
        var spans := [SpanAt(parts, i, name)] + rest;
        assert spans[1..] == rest;
        var ms' := if ms == [] then ms else ms[1..];
        SpansRenderFrom(parts, i + 1, ms');
        if i + 1 < |parts| && parts[i + 1].Text? {
          assert parts[i + 1..][0] == parts[i + 1] && parts[i + 1..][1..] == parts[i + 2..];
        }
    }
  }

  /** With no `undefined` part and no two literal parts next to each other,
      the template builds and spells the same text as the parts, whatever
      is substituted for the references. */
  lemma TemplateRendersParts(parts: seq<Part>, ms: seq<Match>)
    requires Undefined !in parts && NoAdjacentText(parts)
    ensures CreateTemplate(parts).Ok?
    ensures TemplateRender(CreateTemplate(parts).value, ms) == Render(parts, ms)
  {
    SpansFromThrows(parts, 0);
    SpansRenderFrom(parts, 0, ms);
    assert parts[0..] == parts;
    if |parts| > 0 && parts[0].Text? {
      assert Render(parts, ms) == parts[0].text + Render(parts[1..], ms);
    }
  }
}
