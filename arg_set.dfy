/** `createArgSet`: the placeholder arguments of one function, keyed by
    name in a `Map` that keeps the first argument added under each name. */
module ArgSets {
  import opened Wrappers
  import opened OrderedMaps
  import opened Intermediate

  /** The `[name, arg]` pairs the Map is built from. */
  function NamedEntries(args: seq<Arg>): (es: seq<Entry<Arg>>)
    ensures |es| == |args| && forall i :: 0 <= i < |args| ==> es[i] == Entry(args[i].name, args[i])
  {
    seq(|args|, i requires 0 <= i < |args| => Entry(args[i].name, args[i]))
  }

  lemma NamedEntriesAppend(a: seq<Arg>, b: seq<Arg>)
    ensures NamedEntries(a + b) == NamedEntries(a) + NamedEntries(b)
  {
  }

  /** A set created from one argument holds just that argument. */
  lemma SingleArgSet(arg: Arg)
    ensures PutAll([], NamedEntries([arg])) == [Entry(arg.name, arg)]
  {
    var es := NamedEntries([arg]);
    assert es[..0] == [];
    assert PutAll([], es) == Put([], arg.name, arg);
  }

  /** Every argument is stored under its own name. */
  predicate KeyedByName(m: seq<Entry<Arg>>) {
    forall i :: 0 <= i < |m| ==> m[i].value.name == m[i].key
  }

  lemma PutKeyedByName(m: seq<Entry<Arg>>, arg: Arg)
    requires KeyedByName(m)
    ensures KeyedByName(Put(m, arg.name, arg))
  {
    var r := Put(m, arg.name, arg);
    forall i | 0 <= i < |r|
      ensures r[i].value.name == r[i].key
    {
      assert r[i] == Entry(arg.name, arg) || (i < |m| && r[i] == m[i]);
    }
  }

  /** The position of the first argument named `name`, if there is one. */
  function FirstNamed(args: seq<Arg>, name: string): (r: Option<nat>)
    ensures r.Some? ==> r.value < |args| && args[r.value].name == name
    ensures r.Some? ==> forall k :: 0 <= k < r.value ==> args[k].name != name
    ensures r.None? ==> forall k :: 0 <= k < |args| ==> args[k].name != name
  {
    IndexOfKey(NamedEntries(args), name)
  }

  /** `r` is what first-wins insertion of `args` after `init` yields:
      `init` stays in front, no name appears twice, every name of `args`
      is present, and after `init` come the names `init` lacked, each with
      the FIRST argument of that name, in the order of first appearance. */
  ghost predicate ArgsFirstWins(init: seq<Arg>, args: seq<Arg>, r: seq<Arg>) {
    && |init| <= |r| && r[..|init|] == init
    && (forall i, j :: 0 <= i < j < |r| ==> r[i].name != r[j].name)
    && (forall j :: 0 <= j < |args| ==> exists i :: 0 <= i < |r| && r[i].name == args[j].name)
    && (forall i :: |init| <= i < |r| ==>
          && (forall k :: 0 <= k < |init| ==> init[k].name != r[i].name)
          && FirstNamed(args, r[i].name).Some?
          && r[i] == args[FirstNamed(args, r[i].name).value])
    && (forall i1, i2 :: |init| <= i1 < i2 < |r| ==>
          && FirstNamed(args, r[i1].name).Some? && FirstNamed(args, r[i2].name).Some?
          && FirstNamed(args, r[i1].name).value < FirstNamed(args, r[i2].name).value)
  }

  /** Adding `args` one at a time to a set holding `m` is first-wins
      insertion after the arguments of `m`. */
  lemma AddedArgsFirstWins(m: seq<Entry<Arg>>, args: seq<Arg>)
    requires DistinctKeys(m) && KeyedByName(m)
    ensures ArgsFirstWins(Values(m), args, Values(AddAllIfAbsent(m, NamedEntries(args))))
  {
    var es := NamedEntries(args);
    var e := AddAllIfAbsent(m, es);
    AddAllIfAbsentFirstWins(m, es);
    FirstWinsKeyedByName(m, es, e);
    var r := Values(e);
    assert r[..|m|] == Values(m);
    forall i, j | 0 <= i < j < |r| ensures r[i].name != r[j].name {
      assert r[i].name == e[i].key && r[j].name == e[j].key;
    }
    ArgsCovered(m, args, e, r);
    ArgsAddedFirst(m, args, e, r);
    forall i1, i2 | |m| <= i1 < i2 < |r|
      ensures && FirstNamed(args, r[i1].name).Some? && FirstNamed(args, r[i2].name).Some?
              && FirstNamed(args, r[i1].name).value < FirstNamed(args, r[i2].name).value
    {
      OrderedPair(m, args, e, r, i1, i2);
    }
  }

  /** First-wins insertion of named entries into a map keyed by name keeps
      it keyed by name. */
  lemma FirstWinsKeyedByName(m: seq<Entry<Arg>>, es: seq<Entry<Arg>>, e: seq<Entry<Arg>>)
    requires KeyedByName(m) && FirstWins(m, es, e)
    requires forall j :: 0 <= j < |es| ==> es[j].value.name == es[j].key
    ensures KeyedByName(e)
  {
    forall i | 0 <= i < |e| ensures e[i].value.name == e[i].key {
      if i < |m| {
        assert e[i] == m[i];
      }
    }
  }

  /** Every name of `args` ends up in the set. */
  lemma ArgsCovered(m: seq<Entry<Arg>>, args: seq<Arg>, e: seq<Entry<Arg>>, r: seq<Arg>)
    requires FirstWins(m, NamedEntries(args), e) && KeyedByName(e) && r == Values(e)
    ensures forall j :: 0 <= j < |args| ==> exists i :: 0 <= i < |r| && r[i].name == args[j].name
  {
    var es := NamedEntries(args);
    forall j | 0 <= j < |args| ensures exists i :: 0 <= i < |r| && r[i].name == args[j].name {
      assert es[j].key == args[j].name;
      IndexOfKeyIs(es, es[j].key, FirstNamed(args, args[j].name).value);
      assert HasKey(e, args[j].name);
      var i := IndexOfKey(e, args[j].name).value;
      assert r[i].name == args[j].name;
    }
  }

  /** Each argument added after `m` is the first of its name in `args`. */
  lemma ArgsAddedFirst(m: seq<Entry<Arg>>, args: seq<Arg>, e: seq<Entry<Arg>>, r: seq<Arg>)
    requires FirstWins(m, NamedEntries(args), e) && KeyedByName(e) && r == Values(e)
    ensures forall i :: |m| <= i < |r| ==>
      && (forall k :: 0 <= k < |m| ==> Values(m)[k].name != r[i].name)
      && FirstNamed(args, r[i].name).Some?
      && r[i] == args[FirstNamed(args, r[i].name).value]
  {
    forall i | |m| <= i < |r|
      ensures forall k :: 0 <= k < |m| ==> Values(m)[k].name != r[i].name
      ensures FirstNamed(args, r[i].name).Some? && r[i] == args[FirstNamed(args, r[i].name).value]
    {
      assert r[i].name == e[i].key;
      assert !HasKey(m, e[i].key);
      forall k | 0 <= k < |m| ensures Values(m)[k].name != r[i].name {
        assert e[k] == m[k];
      }
    }
  }

  /** Two arguments added after `m` follow their first appearance in `args`. */
  lemma OrderedPair(m: seq<Entry<Arg>>, args: seq<Arg>, e: seq<Entry<Arg>>, r: seq<Arg>, i1: nat, i2: nat)
    requires FirstWins(m, NamedEntries(args), e) && KeyedByName(e) && r == Values(e)
    requires |m| <= i1 < i2 < |r|
    ensures && FirstNamed(args, r[i1].name).Some? && FirstNamed(args, r[i2].name).Some?
            && FirstNamed(args, r[i1].name).value < FirstNamed(args, r[i2].name).value
  {
    var es := NamedEntries(args);
    assert r[i1].name == e[i1].key && r[i2].name == e[i2].key;
    assert IndexOfKey(es, e[i1].key).value < IndexOfKey(es, e[i2].key).value;
  }

  class ArgSet {
    var argMap: seq<Entry<Arg>>

    ghost predicate Valid()
      reads this
    {
      DistinctKeys(argMap) && KeyedByName(argMap)
    }

    /** `new Map(initialArgs.map(...))`: the initial arguments set in
        order, a later one with a repeated name replacing the earlier in
        its place. */
    constructor (initialArgs: seq<Arg>)
      ensures argMap == PutAll([], NamedEntries(initialArgs))
      ensures Valid()
    {
      var es := NamedEntries(initialArgs);
      var m: seq<Entry<Arg>> := [];
      var i := 0;
      while i < |es|
        invariant 0 <= i <= |es|
        invariant m == PutAll([], es[..i])
        invariant DistinctKeys(m) && KeyedByName(m)
      {
        PutAllStep([], es, i);
        PutKeyedByName(m, initialArgs[i]);
        m := Put(m, es[i].key, es[i].value);
        i := i + 1;
      }
      assert es[..|es|] == es;
      argMap := m;
    }

    /** `add(arg)`: an argument whose name is already present changes
        nothing; a new name is appended. */
    method Add(arg: Arg)
      requires Valid()
      modifies this
      ensures Valid()
      ensures argMap == AddIfAbsent(old(argMap), arg.name, arg)
    {
      if HasKey(argMap, arg.name) {
        return;
      }
      PutKeyedByName(argMap, arg);
      argMap := Put(argMap, arg.name, arg);
    }

    /** `get args()`: the stored arguments in insertion order, each name once. */
    method Args() returns (args: seq<Arg>)
      requires Valid()
      ensures args == Values(argMap)
      ensures forall i, j :: 0 <= i < j < |args| ==> args[i].name != args[j].name
    {
      args := Values(argMap);
    }
  }
}
