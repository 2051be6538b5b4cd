/** The few JavaScript string primitives the converter relies on:
    the `\s` character class, `String.prototype.split`, `/^\d+$/` and `parseInt(_, 10)`. */
module JsStrings {
  import opened Wrappers

  /** The characters the regular-expression class `\s` matches
      (WhiteSpace and LineTerminator of ECMAScript). */
  predicate IsWhitespace(c: char) {
    || c == '\t' || c == '\n' || c == '\U{000B}' || c == '\U{000C}' || c == '\r' || c == ' '
    || c == '\U{00A0}' || c == '\U{1680}' || ('\U{2000}' <= c <= '\U{200A}')
    || c == '\U{2028}' || c == '\U{2029}' || c == '\U{202F}' || c == '\U{205F}'
    || c == '\U{3000}' || c == '\U{FEFF}'
  }

  predicate IsDigit(c: char) {
    '0' <= c <= '9'
  }

  /** `/^\d+$/.test(s)`: a non-empty run of ASCII digits. */
  predicate IsDigits(s: string) {
    |s| > 0 && forall k :: 0 <= k < |s| ==> IsDigit(s[k])
  }

  /** Whether `sep` occurs in `s` starting at position `k`. */
  predicate OccursAt(s: string, sep: string, k: nat) {
    k + |sep| <= |s| && s[k..k + |sep|] == sep
  }

  /** The first position at or after `from` where `sep` occurs in `s`. */
  function IndexOf(s: string, sep: string, from: nat): (r: Option<nat>)
    ensures r.Some? ==> from <= r.value && OccursAt(s, sep, r.value)
    ensures forall k :: from <= k && (r.None? || k < r.value) ==> !OccursAt(s, sep, k)
    decreases |s| - from
  {
    if from + |sep| > |s| then None
    else if OccursAt(s, sep, from) then Some(from)
    else IndexOf(s, sep, from + 1)
  }

  /** Elements 0 and 1 of the array `s.split(sep)`; `None` stands for the
      `undefined` read past the end of a shorter array. A non-empty
      separator cuts at each of its occurrences, scanning on from the end of
      the previous one; the empty separator cuts between characters, and
      `"".split("")` is the empty array. */
  function SplitFirstTwo(s: string, sep: string): (r: (Option<string>, Option<string>))
    ensures r.0.None? ==> sep == [] && s == []
    ensures r.0.Some? ==> r.0.value <= s
    ensures sep != [] ==> (r.1.Some? <==> IndexOf(s, sep, 0).Some?)
    ensures sep != [] && r.1.Some? ==> r.0.Some? && r.0.value + sep + r.1.value <= s
  {
    if sep == [] then
      (if |s| >= 1 then Some(s[..1]) else None, if |s| >= 2 then Some(s[1..2]) else None)
    else
      match IndexOf(s, sep, 0)
      case None => (Some(s), None)
      case Some(k) =>
        var rest := k + |sep|;
        assert s[..k] + sep == s[..rest];
        match IndexOf(s, sep, rest)
        case None =>
          assert s[..k] + sep + s[rest..] == s;
          (Some(s[..k]), Some(s[rest..]))
        case Some(k2) =>
          assert s[..k] + sep + s[rest..k2] == s[..k2];
          (Some(s[..k]), Some(s[rest..k2]))
  }

  /** For a non-empty separator, neither element `split` yields holds the
      separator: each is cut where the separator first occurs. */
  lemma SplitPiecesLackSeparator(s: string, sep: string)
    requires sep != []
    ensures var r := SplitFirstTwo(s, sep);
      && r.0.Some? && (forall k :: !OccursAt(r.0.value, sep, k))
      && (r.1.Some? ==> forall k :: !OccursAt(r.1.value, sep, k))
  {
    match IndexOf(s, sep, 0)
    case None =>
      NoOccurrenceIn(s, sep, 0, |s|);
      assert s[0..|s|] == s;
    case Some(k) =>
      var rest := k + |sep|;
      NoOccurrenceIn(s, sep, 0, k);
      assert s[0..k] == s[..k];
      match IndexOf(s, sep, rest)
      case None =>
        NoOccurrenceIn(s, sep, rest, |s|);
        assert s[rest..|s|] == s[rest..];
      case Some(k2) =>
        NoOccurrenceIn(s, sep, rest, k2);
  }

  /** A stretch of `s` in which `sep` starts nowhere holds no occurrence
      of `sep` of its own. */
  lemma NoOccurrenceIn(s: string, sep: string, from: nat, to: nat)
    requires sep != [] && from <= to <= |s|
    requires forall k :: from <= k < to ==> !OccursAt(s, sep, k)
    ensures forall k :: !OccursAt(s[from..to], sep, k)
  {
    forall k: nat | OccursAt(s[from..to], sep, k)
      ensures false
    {
      var t := s[from..to];
      assert k + |sep| <= |t|;
      var inner, outer := t[k..k + |sep|], s[from + k..from + k + |sep|];
      forall j | 0 <= j < |sep| ensures inner[j] == outer[j] {
        assert t[k + j] == s[from + k + j];
      }
      assert inner == outer;
      assert OccursAt(s, sep, from + k);
    }
  }

  /** A separator that occurs in `s` and does not occur again after the end
      of its first occurrence: `split` then cuts `s` in exactly two pieces. */
  predicate SplitsOnce(s: string, sep: string) {
    && sep != []
    && match IndexOf(s, sep, 0)
       case None => false
       case Some(k) => IndexOf(s, sep, k + |sep|).None?
  }

  /** When the separator splits `s` once, the two pieces are the text before
      and after its occurrence, and they rebuild `s` around it. */
  lemma SplitOnceRebuilds(s: string, sep: string)
    requires SplitsOnce(s, sep)
    ensures var (p0, p1) := SplitFirstTwo(s, sep);
            p0.Some? && p1.Some? && p0.value + sep + p1.value == s
  {
    var k := IndexOf(s, sep, 0).value;
    assert s[..k] + sep + s[k + |sep|..] == s by {
      assert s[k..k + |sep|] == sep;
      assert s == s[..k] + s[k..k + |sep|] + s[k + |sep|..];
    }
  }

  /** The value of a string of decimal digits. */
  function DecimalValue(digits: string): (v: nat)
    requires forall k :: 0 <= k < |digits| ==> IsDigit(digits[k])
  {
    if digits == [] then 0
    else
      assert IsDigit(digits[|digits| - 1]);
      DecimalValue(digits[..|digits| - 1]) * 10 + (digits[|digits| - 1] as int - '0' as int)
  }

  /** The length of the run of digits at the start of `s`. */
  function DigitRunLength(s: string): (n: nat)
    ensures n <= |s|
    ensures forall k :: 0 <= k < n ==> IsDigit(s[k])
    ensures n == |s| || !IsDigit(s[n])
  {
    if s == [] || !IsDigit(s[0]) then 0 else 1 + DigitRunLength(s[1..])
  }

  /** The length of the run of whitespace at the start of `s`. */
  function WhitespaceRunLength(s: string): (n: nat)
    ensures n <= |s|
    ensures n == |s| || !IsWhitespace(s[n])
  {
    if s == [] || !IsWhitespace(s[0]) then 0 else 1 + WhitespaceRunLength(s[1..])
  }

  /** `parseInt(s, 10)`: leading whitespace and one sign are skipped, the
      following run of digits is read; `None` stands for `NaN` (no digit). */
  function ParseInt(s: string): (r: Option<int>)
    ensures IsDigits(s) ==> r == Some(DecimalValue(s))
    ensures |s| > 0 && s[0] == '-' && IsDigits(s[1..]) ==> r == Some(-(DecimalValue(s[1..]) as int))
    ensures |s| > 0 && !IsWhitespace(s[0]) && !IsDigit(s[0]) && s[0] != '-' && s[0] != '+' ==> r.None?
  {
    var w := WhitespaceRunLength(s);
    assert |s| > 0 && !IsWhitespace(s[0]) ==> w == 0;
    var t := s[w..];
    assert w == 0 ==> t == s;
    var negative := |t| > 0 && t[0] == '-';
    var u := if |t| > 0 && (t[0] == '-' || t[0] == '+') then t[1..] else t;
    DigitRunIsAll(u);
    assert u[..|u|] == u;
    var n := DigitRunLength(u);
    var magnitude: int := if n == 0 then 0 else DecimalValue(u[..n]);
    if n == 0 then None
    else if negative then Some(-magnitude)
    else Some(magnitude)
  }

  /** On a key made only of digits, `parseInt` reads the whole key. */
  lemma ParseIntOfDigits(s: string)
    requires IsDigits(s)
    ensures ParseInt(s) == Some(DecimalValue(s))
  {
    assert WhitespaceRunLength(s) == 0;
    assert s[0..] == s;
    DigitRunIsAll(s);
    assert s[..|s|] == s;
  }

  lemma {:induction false} DigitRunIsAll(s: string)
    ensures (forall k :: 0 <= k < |s| ==> IsDigit(s[k])) ==> DigitRunLength(s) == |s|
  {
    if s != [] && forall k :: 0 <= k < |s| ==> IsDigit(s[k]) {
      assert forall k :: 0 <= k < |s[1..]| ==> IsDigit(s[1..][k]) by {
        forall k | 0 <= k < |s[1..]| ensures IsDigit(s[1..][k]) { assert s[1..][k] == s[k + 1]; }
      }
      DigitRunIsAll(s[1..]);
    }
  }
}
