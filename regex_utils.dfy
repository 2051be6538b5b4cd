/** The left-to-right enumeration of placeholder matches: a regular
    expression object whose `lastIndex` the global `exec` advances, and the
    generator that drives a fresh clone of it until the first failure. */
module RegexUtils {
  import opened Wrappers
  import opened Placeholders

  /** The placeholder expression compiled with the `g` flag. Its only state
      is `lastIndex`, where the next `exec` starts looking. */
  class PlaceholderRegex {
    var lastIndex: nat

    constructor ()
      ensures lastIndex == 0
    {
      lastIndex := 0;
    }

    /** `exec` with the `g` flag: the leftmost match at or after `lastIndex`;
        on success `lastIndex` moves to the end of the match, on failure it
        is reset to 0. */
    method Exec(value: string) returns (m: Option<Match>)
      modifies this
      ensures m == FirstMatchFrom(value, old(lastIndex))
      ensures lastIndex == if m.Some? then m.value.End() else 0
    {
      m := FirstMatchFrom(value, lastIndex);
      if m.Some? {
        lastIndex := m.value.End();
      } else {
        lastIndex := 0;
      }
    }
  }

  /** `getAllMatches`: clones the expression, so the argument's `lastIndex`
      neither matters nor changes, then yields every successful `exec` and
      stops at the first failure. The yielded sequence is the enumeration
      `AllMatches`, which is leftmost-first and non-overlapping. */
  method GetAllMatches(value: string, regex: PlaceholderRegex) returns (matches: seq<Match>)
    ensures matches == AllMatches(value)
  {
    var clone := new PlaceholderRegex();
    matches := [];
    var found := clone.Exec(value);
    MatchesFromStep(value, 0);
    if found.Some? {
      assert [] + [found.value] == [found.value];
    }
    while found.Some?
      invariant found.Some? ==> found.value.index < found.value.End() == clone.lastIndex <= |value|
      invariant found.Some? ==> AllMatches(value) == matches + [found.value] + MatchesFrom(value, found.value.End())
      invariant found.None? ==> AllMatches(value) == matches
      decreases if found.Some? then |value| - found.value.index else 0
    {
      var previous := found.value;
      matches := matches + [previous];
      found := clone.Exec(value);
      MatchesFromStep(value, previous.End());
      if found.Some? {
        AppendAssoc(matches, [found.value], MatchesFrom(value, found.value.End()));
      }
    }
  }

  /** One step of the enumeration: the first match from `from` on, then the
      enumeration from its end. */
  lemma MatchesFromStep(value: string, from: nat)
    ensures MatchesFrom(value, from) ==
      if FirstMatchFrom(value, from).Some?
      then [FirstMatchFrom(value, from).value] + MatchesFrom(value, FirstMatchFrom(value, from).value.End())
      else []
  {
  }
}
