/** The placeholder grammar, a hand-written scanner for the regular expression
    `(?<!\\){\s*([^:\s]+)\s*:\s*([^}\s]+)\s*(?<!\\)}`, and the sequence of
    matches that repeated `exec` calls with the `g` flag enumerate. */
module Placeholders {
  import opened Wrappers
  import opened JsStrings

  /** The three character classes of the expression: `\s`, the name
      group's `[^:\s]` and the type group's `[^}\s]`. */
  datatype CharClass = Space | NameChar | TypeChar

  predicate In(cls: CharClass, c: char) {
    match cls
    case Space => IsWhitespace(c)
    case NameChar => c != ':' && !IsWhitespace(c)
    case TypeChar => c != '}' && !IsWhitespace(c)
  }

  /** The end of the longest run of `cls` characters starting at `i`. */
  function RunEnd(s: string, i: nat, cls: CharClass): (j: nat)
    requires i <= |s|
    ensures i <= j <= |s|
    decreases |s| - i
  {
    if i == |s| || !In(cls, s[i]) then i else RunEnd(s, i + 1, cls)
  }

  /** The run is made of `cls` characters and is as long as it can be. */
  lemma {:induction false} RunEndIsMaximalRun(s: string, i: nat, cls: CharClass)
    requires i <= |s|
    ensures forall k :: i <= k < RunEnd(s, i, cls) ==> In(cls, s[k])
    ensures RunEnd(s, i, cls) == |s| || !In(cls, s[RunEnd(s, i, cls)])
    decreases |s| - i
  {
    if i < |s| && In(cls, s[i]) {
      RunEndIsMaximalRun(s, i + 1, cls);
    }
  }

  /** One match: its position, the whole matched text, and the two groups. */
  datatype Match = Match(index: nat, text: string, name: string, typeToken: string) {
    function End(): nat { index + |text| }
  }

  /** Whether the character before position `i` is not a backslash (the
      look-behind `(?<!\\)`). */
  predicate NotEscaped(s: string, i: nat)
    requires i <= |s|
  {
    i == 0 || s[i - 1] != '\\'
  }

  /** Where the groups of a candidate match starting at `i` end: `a` after
      the first whitespace, `b` after the name, `c` after the second
      whitespace (the colon's position), `d` after the third whitespace, `e`
      after the type token and `f` after the last whitespace (the closing
      brace's position). */
  datatype Layout = Layout(a: nat, b: nat, c: nat, d: nat, e: nat, f: nat)

  function ScanLayout(s: string, i: nat): (l: Layout)
    requires i < |s|
    ensures i < l.a <= l.b <= l.c <= l.d <= l.e <= l.f <= |s|
  {
    var a := RunEnd(s, i + 1, Space);
    var b := RunEnd(s, a, NameChar);
    var c := RunEnd(s, b, Space);
    var d := if c < |s| then RunEnd(s, c + 1, Space) else c;
    var e := RunEnd(s, d, TypeChar);
    var f := RunEnd(s, e, Space);
    Layout(a, b, c, d, e, f)
  }

  /** The layout is a match: non-empty name and type token, a colon at `c`
      and an unescaped closing brace at `f`. */
  predicate Accepts(s: string, l: Layout) {
    && l.a < l.b && l.c < |s| && s[l.c] == ':'
    && l.d < l.e && 0 < l.f < |s| && s[l.f] == '}' && NotEscaped(s, l.f)
  }

  /** The match of the placeholder regular expression starting exactly at
      position `i`, if any. Every quantifier is greedy and is followed by a
      character it cannot consume, so backtracking never finds another match
      and one left-to-right pass decides it. */
  function MatchAt(s: string, i: nat): (r: Option<Match>)
    ensures r.Some? ==> r.value.index == i && r.value.End() <= |s|
    ensures r.Some? ==> r.value.text == s[i..r.value.End()] && |r.value.text| >= 5
  {
    if i < |s| && s[i] == '{' && NotEscaped(s, i) then
      var l := ScanLayout(s, i);
      if Accepts(s, l) then Some(Match(i, s[i..l.f + 1], s[l.a..l.b], s[l.d..l.e]))
      else None
    else None
  }

  predicate AllIn(s: string, cls: CharClass) {
    forall k :: 0 <= k < |s| ==> In(cls, s[k])
  }

  /** The declarative form of a placeholder: `{`, optional whitespace, a
      non-empty name without `:` or whitespace, optional whitespace, `:`,
      optional whitespace, a non-empty type token without `}` or whitespace,
      optional whitespace and a `}` that does not follow a backslash. */
  predicate PlaceholderShape(text: string, w1: string, name: string, w2: string,
                             w3: string, typeToken: string, w4: string)
  {
    && text == "{" + (w1 + (name + (w2 + (":" + (w3 + (typeToken + (w4 + "}")))))))
    && AllIn(w1, Space) && AllIn(w2, Space)
    && AllIn(w3, Space) && AllIn(w4, Space)
    && name != [] && AllIn(name, NameChar)
    && typeToken != [] && AllIn(typeToken, TypeChar)
    && text[|text| - 2] != '\\'
  }

  lemma {:induction false} RunEndIs(s: string, i: nat, j: nat, cls: CharClass)
    requires i <= j <= |s|
    requires forall k :: i <= k < j ==> In(cls, s[k])
    requires j == |s| || !In(cls, s[j])
    ensures RunEnd(s, i, cls) == j
    decreases j - i
  {
    if i < j {
      RunEndIs(s, i + 1, j, cls);
    }
  }

  /** A slice of `s` that spells `x + rest` spells `x` and then `rest`. */
  lemma Peel(s: string, i: nat, x: string, rest: string)
    requires i + |x| + |rest| <= |s| && s[i..i + |x| + |rest|] == x + rest
    ensures s[i..i + |x|] == x && s[i + |x|..i + |x| + |rest|] == rest
  {
    assert s[i..i + |x|] == s[i..i + |x| + |rest|][..|x|];
    assert s[i + |x|..i + |x| + |rest|] == s[i..i + |x| + |rest|][|x|..];
  }

  /** Two adjacent slices of `s` make up the slice that spans both. */
  lemma Stitch(s: string, i: nat, j: nat, k: nat)
    requires i <= j <= k <= |s|
    ensures s[i..k] == s[i..j] + s[j..k]
  {
  }

  lemma AllInSlice(s: string, i: nat, j: nat, cls: CharClass)
    requires i <= j <= |s|
    requires forall k :: i <= k < j ==> In(cls, s[k])
    ensures AllIn(s[i..j], cls)
  {
    assert forall k :: 0 <= k < j - i ==> s[i..j][k] == s[i + k];
  }

  /** The text a layout spans is made of its pieces. */
  lemma LayoutText(s: string, i: nat, l: Layout)
    requires i < l.a <= l.b <= l.c < l.d <= l.e <= l.f < |s|
    requires s[i] == '{' && s[l.c] == ':' && s[l.f] == '}'
    ensures s[i..l.f + 1] == "{" + (s[i + 1..l.a] + (s[l.a..l.b] + (s[l.b..l.c] + (":" + (s[l.c + 1..l.d] + (s[l.d..l.e] + (s[l.e..l.f] + "}")))))))
  {
    var f := l.f;
    assert s[f..f + 1] == "}";
    assert s[l.c..l.c + 1] == ":";
    assert s[i..i + 1] == "{";
    Stitch(s, l.e, f, f + 1);
    var t7 := s[l.e..f] + "}";
    Stitch(s, l.d, l.e, f + 1);
    var t6 := s[l.d..l.e] + t7;
    assert s[l.d..f + 1] == t6;
    Stitch(s, l.c + 1, l.d, f + 1);
    var t5 := s[l.c + 1..l.d] + t6;
    assert s[l.c + 1..f + 1] == t5;
    Stitch(s, l.c, l.c + 1, f + 1);
    var t4 := ":" + t5;
    assert s[l.c..f + 1] == t4;
    Stitch(s, l.b, l.c, f + 1);
    var t3 := s[l.b..l.c] + t4;
    assert s[l.b..f + 1] == t3;
    Stitch(s, l.a, l.b, f + 1);
    var t2 := s[l.a..l.b] + t3;
    assert s[l.a..f + 1] == t2;
    Stitch(s, i + 1, l.a, f + 1);
    var t1 := s[i + 1..l.a] + t2;
    assert s[i + 1..f + 1] == t1;
    Stitch(s, i, i + 1, f + 1);
    assert s[i..f + 1] == "{" + t1;
  }

  /** An accepted layout spells a placeholder of the declarative shape. */
  lemma LayoutShape(s: string, i: nat, l: Layout)
    requires i < l.a <= l.b <= l.c < l.d <= l.e <= l.f < |s|
    requires s[i] == '{' && Accepts(s, l)
    requires AllIn(s[i + 1..l.a], Space) && AllIn(s[l.a..l.b], NameChar) && AllIn(s[l.b..l.c], Space)
    requires AllIn(s[l.c + 1..l.d], Space) && AllIn(s[l.d..l.e], TypeChar) && AllIn(s[l.e..l.f], Space)
    ensures PlaceholderShape(s[i..l.f + 1], s[i + 1..l.a], s[l.a..l.b], s[l.b..l.c],
                             s[l.c + 1..l.d], s[l.d..l.e], s[l.e..l.f])
  {
    LayoutText(s, i, l);
    var text := s[i..l.f + 1];
    assert text[|text| - 2] == s[l.f - 1];
  }

  /** The runs the scanner skips are made of their class's characters. */
  lemma ScanLayoutRuns(s: string, i: nat)
    requires i < |s|
    ensures var l := ScanLayout(s, i);
      && AllIn(s[i + 1..l.a], Space) && AllIn(s[l.a..l.b], NameChar) && AllIn(s[l.b..l.c], Space)
      && (l.c < |s| ==> AllIn(s[l.c + 1..l.d], Space))
      && AllIn(s[l.d..l.e], TypeChar) && AllIn(s[l.e..l.f], Space)
  {
    var l := ScanLayout(s, i);
    RunEndIsMaximalRun(s, i + 1, Space);
    RunEndIsMaximalRun(s, l.a, NameChar);
    RunEndIsMaximalRun(s, l.b, Space);
    RunEndIsMaximalRun(s, l.d, TypeChar);
    RunEndIsMaximalRun(s, l.e, Space);
    AllInSlice(s, i + 1, l.a, Space);
    AllInSlice(s, l.a, l.b, NameChar);
    AllInSlice(s, l.b, l.c, Space);
    if l.c < |s| {
      RunEndIsMaximalRun(s, l.c + 1, Space);
      AllInSlice(s, l.c + 1, l.d, Space);
    }
    AllInSlice(s, l.d, l.e, TypeChar);
    AllInSlice(s, l.e, l.f, Space);
  }

  /** Every match the scanner finds has the declarative shape and an
      unescaped opening brace. */
  lemma MatchAtSound(s: string, i: nat)
    requires MatchAt(s, i).Some?
    ensures var m := MatchAt(s, i).value;
      && NotEscaped(s, i)
      && exists w1, w2, w3, w4 :: PlaceholderShape(m.text, w1, m.name, w2, w3, m.typeToken, w4)
  {
    var l := ScanLayout(s, i);
    assert Accepts(s, l);
    var m := MatchAt(s, i).value;
    assert m == Match(i, s[i..l.f + 1], s[l.a..l.b], s[l.d..l.e]);
    ScanLayoutRuns(s, i);
    LayoutShape(s, i, l);
    assert PlaceholderShape(m.text, s[i + 1..l.a], m.name, s[l.b..l.c], s[l.c + 1..l.d], m.typeToken, s[l.e..l.f]);
  }

  /** A slice of `s` that spells a run of `cls` characters. */
  lemma SliceRun(s: string, lo: nat, x: string, cls: CharClass)
    requires lo + |x| <= |s| && s[lo..lo + |x|] == x && AllIn(x, cls)
    ensures forall k :: lo <= k < lo + |x| ==> In(cls, s[k])
  {
    forall k | lo <= k < lo + |x|
      ensures In(cls, s[k])
    {
      assert s[k] == x[k - lo];
    }
  }

  /** The positions a layout names are where the scanner's runs end. */
  lemma ScanLayoutIs(s: string, i: nat, l: Layout)
    requires i < l.a <= l.b <= l.c < l.d <= l.e <= l.f < |s|
    requires forall k :: i + 1 <= k < l.a ==> In(Space, s[k])
    requires forall k :: l.a <= k < l.b ==> In(NameChar, s[k])
    requires forall k :: l.b <= k < l.c ==> In(Space, s[k])
    requires forall k :: l.c + 1 <= k < l.d ==> In(Space, s[k])
    requires forall k :: l.d <= k < l.e ==> In(TypeChar, s[k])
    requires forall k :: l.e <= k < l.f ==> In(Space, s[k])
    requires !In(Space, s[l.a]) && !In(NameChar, s[l.b]) && !In(Space, s[l.c])
    requires !In(Space, s[l.d]) && !In(TypeChar, s[l.e]) && !In(Space, s[l.f])
    ensures ScanLayout(s, i) == l
  {
    RunEndIs(s, i + 1, l.a, Space);
    RunEndIs(s, l.a, l.b, NameChar);
    RunEndIs(s, l.b, l.c, Space);
    RunEndIs(s, l.c + 1, l.d, Space);
    RunEndIs(s, l.d, l.e, TypeChar);
    RunEndIs(s, l.e, l.f, Space);
  }

  /** The opening brace, the first whitespace, the name and the second
      whitespace of a placeholder found at `i`. */
  lemma HeadSlices(s: string, i: nat, w1: string, name: string, w2: string, rest: string)
    requires i + 1 + |w1| + |name| + |w2| + |rest| <= |s|
    requires s[i..i + 1 + |w1| + |name| + |w2| + |rest|] == "{" + (w1 + (name + (w2 + rest)))
    ensures s[i] == '{' && s[i + 1..i + 1 + |w1|] == w1
    ensures s[i + 1 + |w1|..i + 1 + |w1| + |name|] == name
    ensures s[i + 1 + |w1| + |name|..i + 1 + |w1| + |name| + |w2|] == w2
    ensures s[i + 1 + |w1| + |name| + |w2|..i + 1 + |w1| + |name| + |w2| + |rest|] == rest
  {
    var a := i + 1 + |w1|;
    var b := a + |name|;
    Peel(s, i, "{", w1 + (name + (w2 + rest)));
    Peel(s, i + 1, w1, name + (w2 + rest));
    Peel(s, a, name, w2 + rest);
    Peel(s, b, w2, rest);
    assert s[i] == s[i..i + 1][0];
  }

  /** The colon, the third whitespace, the type token, the last whitespace
      and the closing brace of a placeholder whose colon is at `c`. */
  lemma TailSlices(s: string, c: nat, w3: string, typeToken: string, w4: string)
    requires c + 1 + |w3| + |typeToken| + |w4| + 1 <= |s|
    requires s[c..c + 1 + |w3| + |typeToken| + |w4| + 1] == ":" + (w3 + (typeToken + (w4 + "}")))
    ensures s[c] == ':' && s[c + 1..c + 1 + |w3|] == w3
    ensures s[c + 1 + |w3|..c + 1 + |w3| + |typeToken|] == typeToken
    ensures s[c + 1 + |w3| + |typeToken|..c + 1 + |w3| + |typeToken| + |w4|] == w4
    ensures s[c + 1 + |w3| + |typeToken| + |w4|] == '}'
  {
    var d := c + 1 + |w3|;
    var e := d + |typeToken|;
    var f := e + |w4|;
    Peel(s, c, ":", w3 + (typeToken + (w4 + "}")));
    Peel(s, c + 1, w3, typeToken + (w4 + "}"));
    Peel(s, d, typeToken, w4 + "}");
    Peel(s, e, w4, "}");
    assert s[c] == s[c..c + 1][0];
    assert s[f] == s[f..f + 1][0];
  }

  /** The scanner's layout, when accepted, is the match. */
  lemma AcceptedLayoutMatch(s: string, i: nat, l: Layout)
    requires i < |s| && s[i] == '{' && NotEscaped(s, i)
    requires ScanLayout(s, i) == l && Accepts(s, l)
    ensures MatchAt(s, i) == Some(Match(i, s[i..l.f + 1], s[l.a..l.b], s[l.d..l.e]))
  {
  }

  /** A layout whose runs and delimiters are all in place is the match. */
  lemma LayoutMatch(s: string, i: nat, l: Layout)
    requires i < l.a < l.b <= l.c < l.d < l.e <= l.f < |s|
    requires s[i] == '{' && NotEscaped(s, i)
    requires s[l.c] == ':' && s[l.f] == '}' && s[l.f - 1] != '\\'
    requires forall k :: i + 1 <= k < l.a ==> In(Space, s[k])
    requires forall k :: l.a <= k < l.b ==> In(NameChar, s[k])
    requires forall k :: l.b <= k < l.c ==> In(Space, s[k])
    requires forall k :: l.c + 1 <= k < l.d ==> In(Space, s[k])
    requires forall k :: l.d <= k < l.e ==> In(TypeChar, s[k])
    requires forall k :: l.e <= k < l.f ==> In(Space, s[k])
    requires In(NameChar, s[l.a]) && In(TypeChar, s[l.d])
    ensures MatchAt(s, i) == Some(Match(i, s[i..l.f + 1], s[l.a..l.b], s[l.d..l.e]))
  {
    assert !In(NameChar, s[l.b]) by {
      if l.b < l.c {
        assert In(Space, s[l.b]);
      }
    }
    assert !In(TypeChar, s[l.e]) by {
      if l.e < l.f {
        assert In(Space, s[l.e]);
      }
    }
    ScanLayoutIs(s, i, l);
    AcceptedLayoutMatch(s, i, l);
  }

  /** The pieces of a placeholder text found at `i` sit where the layout
      `l` of their lengths says. */
  lemma ShapePositions(s: string, i: nat, l: Layout, text: string, w1: string, name: string,
                       w2: string, w3: string, typeToken: string, w4: string)
    requires text == "{" + (w1 + (name + (w2 + (":" + (w3 + (typeToken + (w4 + "}")))))))
    requires i + |text| <= |s| && s[i..i + |text|] == text
    requires l.a == i + 1 + |w1| && l.b == l.a + |name| && l.c == l.b + |w2|
    requires l.d == l.c + 1 + |w3| && l.e == l.d + |typeToken| && l.f == l.e + |w4|
    ensures l.f == i + |text| - 1 && s[i..l.f + 1] == text
    ensures s[i] == '{' && s[i + 1..l.a] == w1 && s[l.a..l.b] == name && s[l.b..l.c] == w2
    ensures s[l.c] == ':' && s[l.c + 1..l.d] == w3 && s[l.d..l.e] == typeToken
    ensures s[l.e..l.f] == w4 && s[l.f] == '}'
  {
    HeadSlices(s, i, w1, name, w2, ":" + (w3 + (typeToken + (w4 + "}"))));
    TailSlices(s, l.c, w3, typeToken, w4);
  }

  /** A layout whose runs are slices of their classes' characters, with a
      non-empty name and type token, is the match. */
  lemma SlicesMatch(s: string, i: nat, l: Layout)
    requires i < l.a < l.b <= l.c < l.d < l.e <= l.f < |s|
    requires s[i] == '{' && NotEscaped(s, i)
    requires s[l.c] == ':' && s[l.f] == '}' && s[l.f - 1] != '\\'
    requires AllIn(s[i + 1..l.a], Space) && AllIn(s[l.a..l.b], NameChar) && AllIn(s[l.b..l.c], Space)
    requires AllIn(s[l.c + 1..l.d], Space) && AllIn(s[l.d..l.e], TypeChar) && AllIn(s[l.e..l.f], Space)
    ensures MatchAt(s, i) == Some(Match(i, s[i..l.f + 1], s[l.a..l.b], s[l.d..l.e]))
  {
    SliceRun(s, i + 1, s[i + 1..l.a], Space);
    SliceRun(s, l.a, s[l.a..l.b], NameChar);
    SliceRun(s, l.b, s[l.b..l.c], Space);
    SliceRun(s, l.c + 1, s[l.c + 1..l.d], Space);
    SliceRun(s, l.d, s[l.d..l.e], TypeChar);
    SliceRun(s, l.e, s[l.e..l.f], Space);
    LayoutMatch(s, i, l);
  }

  /** Every occurrence of the declarative shape at an unescaped position is
      the match the scanner finds there. */
  lemma MatchAtComplete(s: string, i: nat, text: string, w1: string, name: string,
                        w2: string, w3: string, typeToken: string, w4: string)
    requires PlaceholderShape(text, w1, name, w2, w3, typeToken, w4)
    requires i + |text| <= |s| && s[i..i + |text|] == text && NotEscaped(s, i)
    ensures MatchAt(s, i) == Some(Match(i, text, name, typeToken))
  {
    var a := i + 1 + |w1|;
    var c := a + |name| + |w2|;
    var d := c + 1 + |w3|;
    var l := Layout(a, a + |name|, c, d, d + |typeToken|, d + |typeToken| + |w4|);
    ShapePositions(s, i, l, text, w1, name, w2, w3, typeToken, w4);
    assert s[l.f - 1] == text[|text| - 2];
    SlicesMatch(s, i, l);
  }

  /** No position in `[from, to)` starts a match. */
  ghost predicate NoMatchIn(s: string, from: nat, to: nat) {
    forall k :: from <= k < to ==> MatchAt(s, k).None?
  }

  /** What `exec` of the global expression finds when it starts looking at
      `from` (its `lastIndex`): the leftmost match at or after `from`. */
  function FirstMatchFrom(s: string, from: nat): (r: Option<Match>)
    ensures r.Some? ==> from <= r.value.index < r.value.End() <= |s|
    decreases |s| - from
  {
    if from >= |s| then None
    else
      match MatchAt(s, from)
      case Some(m) => Some(m)
      case None => FirstMatchFrom(s, from + 1)
  }

  /** `exec` finds a match, and no match starts between `from` and it; when
      it finds none, no match starts at or after `from`. */
  lemma {:induction false} FirstMatchFromIsLeftmost(s: string, from: nat)
    ensures FirstMatchFrom(s, from).Some? ==>
      && MatchAt(s, FirstMatchFrom(s, from).value.index) == FirstMatchFrom(s, from)
      && NoMatchIn(s, from, FirstMatchFrom(s, from).value.index)
    ensures FirstMatchFrom(s, from).None? ==> NoMatchIn(s, from, |s|)
    decreases |s| - from
  {
    if from < |s| && MatchAt(s, from).None? {
      FirstMatchFromIsLeftmost(s, from + 1);
      assert FirstMatchFrom(s, from) == FirstMatchFrom(s, from + 1);
    }
  }

  /** The matches repeated `exec` calls enumerate from `from` on: each call
      resumes at the end of the previous match, and the first failure ends
      the enumeration. */
  function MatchesFrom(s: string, from: nat): (ms: seq<Match>)
    decreases |s| - from
  {
    match FirstMatchFrom(s, from)
    case None => []
    case Some(m) => [m] + MatchesFrom(s, m.End())
  }

  /** The matches of the whole string, as `getAllMatches` yields them:
      each match's text is the slice of the string at its position, and
      since every match spans at least five characters and none overlap,
      there is at most one match per five characters. */
  function AllMatches(s: string): (ms: seq<Match>)
    ensures 5 * |ms| <= |s|
    ensures forall i :: 0 <= i < |ms| ==> OccursAt(s, ms[i].text, ms[i].index)
  {
    MatchesFromSlices(s, 0);
    MatchesFrom(s, 0)
  }

  lemma {:induction false} MatchesFromSlices(s: string, from: nat)
    ensures var ms := MatchesFrom(s, from);
      && (forall i :: 0 <= i < |ms| ==>
            from <= ms[i].index && ms[i].End() <= |s| && ms[i].text == s[ms[i].index..ms[i].End()])
      && (ms != [] ==> from + 5 * |ms| <= |s|)
    decreases |s| - from
  {
    FirstMatchFromIsLeftmost(s, from);
    match FirstMatchFrom(s, from)
    case None =>
    case Some(m) =>
      var rest := MatchesFrom(s, m.End());
      MatchesFromSlices(s, m.End());
      var ms := MatchesFrom(s, from);
      assert ms == [m] + rest;
      forall i | 0 < i < |ms|
        ensures from <= ms[i].index && ms[i].End() <= |s| && ms[i].text == s[ms[i].index..ms[i].End()]
      {
        assert ms[i] == rest[i - 1];
      }
  }

  /** The declarative description of the enumeration from `from` on: the
      first element is a match that starts at or after `from` with no match
      starting in between, the rest is the enumeration from its end, and
      an empty sequence means no match starts at or after `from`. */
  ghost predicate IsMatchSequence(s: string, from: nat, ms: seq<Match>)
    decreases |ms|
  {
    if |ms| == 0 then NoMatchIn(s, from, |s|)
    else
      && from <= ms[0].index && NoMatchIn(s, from, ms[0].index)
      && MatchAt(s, ms[0].index) == Some(ms[0])
      && IsMatchSequence(s, ms[0].End(), ms[1..])
  }

  lemma {:induction false} MatchesFromIsMatchSequence(s: string, from: nat)
    ensures IsMatchSequence(s, from, MatchesFrom(s, from))
    decreases |s| - from
  {
    FirstMatchFromIsLeftmost(s, from);
    match FirstMatchFrom(s, from)
    case None =>
    case Some(m) =>
      var ms := MatchesFrom(s, from);
      MatchesFromIsMatchSequence(s, m.End());
      assert ms[1..] == MatchesFrom(s, m.End());
  }

  /** Every match of such a sequence is at least five characters long. */
  lemma {:induction false} MatchSequenceNonEmpty(s: string, from: nat, ms: seq<Match>)
    requires IsMatchSequence(s, from, ms)
    ensures forall i :: 0 <= i < |ms| ==> |ms[i].text| >= 5
    decreases |ms|
  {
    if |ms| > 0 {
      var rest := ms[1..];
      assert IsMatchSequence(s, ms[0].End(), rest);
      MatchSequenceNonEmpty(s, ms[0].End(), rest);
      forall i | 0 < i < |ms| ensures |ms[i].text| >= 5 {
        assert ms[i] == rest[i - 1];
      }
    }
  }

  /** A match with no match before it, from `from` on, is what `exec`
      finds from `from`. */
  lemma LeftmostIsFirst(s: string, from: nat, m: Match)
    requires from <= m.index && NoMatchIn(s, from, m.index) && MatchAt(s, m.index) == Some(m)
    ensures FirstMatchFrom(s, from) == Some(m)
  {
    var first := FirstMatchFrom(s, from);
    FirstMatchFromIsLeftmost(s, from);
    if first.None? {
      assert false;
    } else if first.value.index < m.index {
      assert false;
    } else if first.value.index > m.index {
      assert false;
    }
  }

  /** The enumeration is the only sequence of that description. */
  lemma {:induction false} MatchSequenceUnique(s: string, from: nat, ms: seq<Match>)
    requires IsMatchSequence(s, from, ms)
    ensures ms == MatchesFrom(s, from)
    decreases |s| - from
  {
    FirstMatchFromIsLeftmost(s, from);
    if |ms| > 0 {
      var m := ms[0];
      LeftmostIsFirst(s, from, m);
      MatchSequenceUnique(s, m.End(), ms[1..]);
      assert ms == [m] + ms[1..];
    }
  }

  /** Consecutive elements of the enumeration do not overlap and appear in
      order of position. */
  lemma {:induction false} MatchSequenceOrdered(s: string, from: nat, ms: seq<Match>, j: nat)
    requires IsMatchSequence(s, from, ms) && 0 < j < |ms|
    ensures ms[j - 1].End() <= ms[j].index
    decreases j
  {
    if j > 1 {
      MatchSequenceOrdered(s, ms[0].End(), ms[1..], j - 1);
    }
  }

  /** A string yields no match exactly when no position starts one. */
  lemma NoMatchesIff(s: string)
    ensures AllMatches(s) == [] <==> forall k :: 0 <= k < |s| ==> MatchAt(s, k).None?
  {
    MatchesFromIsMatchSequence(s, 0);
    if AllMatches(s) != [] {
      var m := AllMatches(s)[0];
      assert MatchAt(s, m.index).Some? && m.index < |s|;
    }
  }

  /** A string without an opening brace at or after `lo` has no match there. */
  lemma NoBraceNoMatch(s: string, lo: nat)
    requires forall k :: lo <= k < |s| ==> s[k] != '{'
    ensures NoMatchIn(s, lo, |s|)
  {
  }

  /** An escaped opening brace starts no match. */
  lemma EscapedOpeningBrace()
    ensures AllMatches("\\{a:string}") == []
  {
    var s := "\\{a:string}";
    assert s[1] == '{' && s[0] == '\\';
    NoBraceNoMatch(s, 2);
    NoMatchesIff(s);
  }

  /** In `{a:string\}` the type token runs up to the escaped brace. */
  lemma EscapedClosingBraceLayout()
    ensures ScanLayout("{a:string\\}", 0) == Layout(1, 2, 2, 3, 10, 10)
  {
    var s := "{a:string\\}";
    RunEndIs(s, 1, 1, Space);
    RunEndIs(s, 1, 2, NameChar);
    RunEndIs(s, 2, 2, Space);
    RunEndIs(s, 3, 3, Space);
    RunEndIs(s, 3, 10, TypeChar);
    RunEndIs(s, 10, 10, Space);
  }

  /** An escaped closing brace closes no match. */
  lemma EscapedClosingBrace()
    ensures AllMatches("{a:string\\}") == []
  {
    var s := "{a:string\\}";
    EscapedClosingBraceLayout();
    assert MatchAt(s, 0).None?;
    NoBraceNoMatch(s, 1);
    NoMatchesIff(s);
  }

  /** `{a:b}` is a placeholder of the shortest kind: one-character name
      and type token, no whitespace. */
  lemma ShortestPlaceholder(s: string, i: nat)
    requires i + 5 <= |s| && NotEscaped(s, i)
    requires s[i] == '{' && s[i + 1] == 'a' && s[i + 2] == ':' && s[i + 3] == 'b' && s[i + 4] == '}'
    ensures MatchAt(s, i) == Some(Match(i, "{a:b}", "a", "b"))
  {
    assert s[i..i + 5] == "{a:b}";
    assert PlaceholderShape("{a:b}", "", "a", "", "", "b", "");
    MatchAtComplete(s, i, "{a:b}", "", "a", "", "", "b", "");
  }

  /** A match with nothing matching before it, followed by an enumeration
      from its end, is an enumeration from `from`. */
  lemma MatchSequenceCons(s: string, from: nat, m: Match, rest: seq<Match>)
    requires from <= m.index && NoMatchIn(s, from, m.index) && MatchAt(s, m.index) == Some(m)
    requires IsMatchSequence(s, m.End(), rest)
    ensures IsMatchSequence(s, from, [m] + rest)
  {
    assert ([m] + rest)[1..] == rest;
  }

  /** With every `{` from `lo` on escaped, no match starts there. */
  lemma OnlyEscapedBraces(s: string, lo: nat)
    requires forall k :: lo <= k < |s| && s[k] == '{' ==> k > 0 && s[k - 1] == '\\'
    ensures NoMatchIn(s, lo, |s|)
  {
  }

  /** A match at the start, with no other match after it, is the only
      match of the string. */
  lemma OneMatch(s: string, m0: Match)
    requires m0.index == 0 && MatchAt(s, 0) == Some(m0) && NoMatchIn(s, m0.End(), |s|)
    ensures AllMatches(s) == [m0]
  {
    MatchSequenceCons(s, 0, m0, []);
    assert [m0] + [] == [m0];
    MatchSequenceUnique(s, 0, [m0]);
  }

  /** Two matches with no other match before, between or after them are
      all the matches of the string. */
  lemma TwoMatches(s: string, m0: Match, m1: Match)
    requires MatchAt(s, m0.index) == Some(m0) && MatchAt(s, m1.index) == Some(m1)
    requires NoMatchIn(s, 0, m0.index) && m0.End() <= m1.index
    requires NoMatchIn(s, m0.End(), m1.index) && NoMatchIn(s, m1.End(), |s|)
    ensures AllMatches(s) == [m0, m1]
  {
    MatchSequenceCons(s, m0.End(), m1, []);
    MatchSequenceCons(s, 0, m0, [m1]);
    MatchSequenceUnique(s, 0, [m0] + [m1]);
  }

  /** Three adjacent matches covering the whole string are all its
      matches. */
  lemma ThreeAdjacentMatches(s: string, m0: Match, m1: Match, m2: Match)
    requires m0.index == 0 && m1.index == m0.End() && m2.index == m1.End() && m2.End() == |s|
    requires MatchAt(s, m0.index) == Some(m0) && MatchAt(s, m1.index) == Some(m1) && MatchAt(s, m2.index) == Some(m2)
    ensures AllMatches(s) == [m0, m1, m2]
  {
    MatchSequenceCons(s, m1.End(), m2, []);
    MatchSequenceCons(s, m0.End(), m1, [m2]);
    MatchSequenceCons(s, 0, m0, [m1] + [m2]);
    assert [m0] + ([m1] + [m2]) == [m0, m1, m2];
    MatchSequenceUnique(s, 0, [m0, m1, m2]);
  }

  /** In `{a:b}x{a:b}y` both occurrences of `{a:b}` are matches. */
  lemma RepeatedPlaceholderMatches(s: string)
    requires s == "{a:b}x{a:b}y"
    ensures AllMatches(s) == [Match(0, "{a:b}", "a", "b"), Match(6, "{a:b}", "a", "b")]
  {
    assert s[0] == '{' && s[1] == 'a' && s[2] == ':' && s[3] == 'b' && s[4] == '}';
    assert s[6] == '{' && s[7] == 'a' && s[8] == ':' && s[9] == 'b' && s[10] == '}' && s[5] == 'x' && s[11] == 'y';
    ShortestPlaceholder(s, 0);
    ShortestPlaceholder(s, 6);
    NoBraceNoMatch(s, 11);
    assert MatchAt(s, 5).None?;
    TwoMatches(s, Match(0, "{a:b}", "a", "b"), Match(6, "{a:b}", "a", "b"));
  }

  /** In `{a:b}x\{a:b}y` the second occurrence of `{a:b}` is escaped, so
      only the first is a match. */
  lemma EscapedRepeatMatches(s: string)
    requires s == "{a:b}x\\{a:b}y"
    ensures AllMatches(s) == [Match(0, "{a:b}", "a", "b")]
  {
    assert s[0] == '{' && s[1] == 'a' && s[2] == ':' && s[3] == 'b' && s[4] == '}';
    assert s[6] == '\\' && s[7] == '{';
    assert forall k :: 5 <= k < |s| && k != 7 ==> s[k] != '{';
    ShortestPlaceholder(s, 0);
    OnlyEscapedBraces(s, 5);
    OneMatch(s, Match(0, "{a:b}", "a", "b"));
  }

  /** In `{a:b}{a:b}{a:b}` all three occurrences are matches. */
  lemma TriplePlaceholderMatches(s: string)
    requires s == "{a:b}{a:b}{a:b}"
    ensures AllMatches(s)
         == [Match(0, "{a:b}", "a", "b"), Match(5, "{a:b}", "a", "b"), Match(10, "{a:b}", "a", "b")]
  {
    assert s[0] == '{' && s[1] == 'a' && s[2] == ':' && s[3] == 'b' && s[4] == '}';
    assert s[5] == '{' && s[6] == 'a' && s[7] == ':' && s[8] == 'b' && s[9] == '}' && s[4] != '\\';
    assert s[10] == '{' && s[11] == 'a' && s[12] == ':' && s[13] == 'b' && s[14] == '}' && s[9] != '\\';
    ShortestPlaceholder(s, 0);
    ShortestPlaceholder(s, 5);
    ShortestPlaceholder(s, 10);
    ThreeAdjacentMatches(s, Match(0, "{a:b}", "a", "b"), Match(5, "{a:b}", "a", "b"), Match(10, "{a:b}", "a", "b"));
  }
}
