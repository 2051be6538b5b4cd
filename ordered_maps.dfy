/** Insertion-ordered maps keyed by strings: the JavaScript `Map`s of the
    converter, and objects whose keys are taken in `Object.keys` order. */
module OrderedMaps {
  import opened Wrappers

  datatype Entry<V> = Entry(key: string, value: V)

  /** The position of the first entry with key `k`. */
  function IndexOfKey<V>(m: seq<Entry<V>>, k: string): (r: Option<nat>)
    ensures r.Some? ==> r.value < |m| && m[r.value].key == k
    ensures r.Some? ==> forall i :: 0 <= i < r.value ==> m[i].key != k
    ensures r.None? ==> forall i :: 0 <= i < |m| ==> m[i].key != k
  {
    if m == [] then None
    else if m[0].key == k then Some(0)
    else match IndexOfKey(m[1..], k)
      case None => None
      case Some(i) => Some(i + 1)
  }

  /** `map.has(k)` */
  predicate HasKey<V>(m: seq<Entry<V>>, k: string) {
    IndexOfKey(m, k).Some?
  }

  /** `map.get(k)`, `None` standing for `undefined`. */
  function Get<V>(m: seq<Entry<V>>, k: string): Option<V> {
    match IndexOfKey(m, k)
    case None => None
    case Some(i) => Some(m[i].value)
  }

  predicate DistinctKeys<V>(m: seq<Entry<V>>) {
    forall i, j :: 0 <= i < j < |m| ==> m[i].key != m[j].key
  }

  function Keys<V>(m: seq<Entry<V>>): (ks: seq<string>)
    ensures |ks| == |m| && forall i :: 0 <= i < |m| ==> ks[i] == m[i].key
  {
    if m == [] then [] else [m[0].key] + Keys(m[1..])
  }

  /** `Array.from(map.values())` */
  function Values<V>(m: seq<Entry<V>>): (vs: seq<V>)
    ensures |vs| == |m| && forall i :: 0 <= i < |m| ==> vs[i] == m[i].value
  {
    if m == [] then [] else [m[0].value] + Values(m[1..])
  }

  /** `map.set(k, v)`: an existing key keeps its position and takes the new
      value; a new key is appended. */
  function Put<V>(m: seq<Entry<V>>, k: string, v: V): (r: seq<Entry<V>>)
    ensures Get(r, k) == Some(v)
    ensures forall k' :: k' != k ==> Get(r, k') == Get(m, k')
    ensures Keys(r) == if HasKey(m, k) then Keys(m) else Keys(m) + [k]
    ensures DistinctKeys(m) ==> DistinctKeys(r)
    ensures forall i :: 0 <= i < |r| ==> r[i] == Entry(k, v) || (i < |m| && r[i] == m[i])
  {
    match IndexOfKey(m, k)
    case Some(i) =>
      var r := m[i := Entry(k, v)];
      ReplacedEntry(m, k, v, i, r);
      ReplacedKeys(m, k, v, i, r);
      r
    case None =>
      var r := m + [Entry(k, v)];
      AppendedEntry(m, k, v, r);
      r
  }

  /** Replacing the entry of key `k` changes only the value found for `k`. */
  lemma ReplacedEntry<V>(m: seq<Entry<V>>, k: string, v: V, i: nat, r: seq<Entry<V>>)
    requires IndexOfKey(m, k) == Some(i) && r == m[i := Entry(k, v)]
    ensures Get(r, k) == Some(v)
    ensures forall k' :: k' != k ==> Get(r, k') == Get(m, k')
  {
    ReplacedIndexes(m, k, v, i, r);
  }

  lemma ReplacedIndexes<V>(m: seq<Entry<V>>, k: string, v: V, i: nat, r: seq<Entry<V>>)
    requires IndexOfKey(m, k) == Some(i) && r == m[i := Entry(k, v)]
    ensures forall k' :: IndexOfKey(r, k') == IndexOfKey(m, k')
  {
    forall k' ensures IndexOfKey(r, k') == IndexOfKey(m, k') {
      SameKeysSameIndex(m, r, k');
    }
  }

  /** Replacing the entry of key `k` leaves the keys as they are. */
  lemma ReplacedKeys<V>(m: seq<Entry<V>>, k: string, v: V, i: nat, r: seq<Entry<V>>)
    requires IndexOfKey(m, k) == Some(i) && r == m[i := Entry(k, v)]
    ensures Keys(r) == Keys(m)
    ensures DistinctKeys(m) ==> DistinctKeys(r)
  {
    assert forall j :: 0 <= j < |m| ==> r[j].key == m[j].key;
  }

  /** Appending an entry for a new key `k` changes only the value found
      for `k`. */
  lemma AppendedEntry<V>(m: seq<Entry<V>>, k: string, v: V, r: seq<Entry<V>>)
    requires IndexOfKey(m, k) == None && r == m + [Entry(k, v)]
    ensures Get(r, k) == Some(v)
    ensures forall k' :: k' != k ==> Get(r, k') == Get(m, k')
    ensures Keys(r) == Keys(m) + [k]
    ensures DistinctKeys(m) ==> DistinctKeys(r)
  {
    forall k' ensures IndexOfKey(r, k') == if HasKey(m, k') then IndexOfKey(m, k') else if k == k' then Some(|m|) else None {
      AppendedIndex(m, Entry(k, v), k');
    }
  }

  /** Setting a key the map does not hold appends it. */
  lemma PutNew<V>(m: seq<Entry<V>>, k: string, v: V)
    requires !HasKey(m, k)
    ensures Put(m, k, v) == m + [Entry(k, v)]
  {
  }

  /** `if (!map.has(k)) map.set(k, v)`: the value first stored under a key stays. */
  function AddIfAbsent<V>(m: seq<Entry<V>>, k: string, v: V): (r: seq<Entry<V>>)
  {
    if HasKey(m, k) then m else m + [Entry(k, v)]
  }

  /** Each entry of `es` set in turn, as `new Map(es)` does on top of `m`. */
  function PutAll<V>(m: seq<Entry<V>>, es: seq<Entry<V>>): seq<Entry<V>>
    decreases |es|
  {
    if es == [] then m
    else
      var n := |es| - 1;
      Put(PutAll(m, es[..n]), es[n].key, es[n].value)
  }

  /** Setting one more entry extends `PutAll` by one `Put`. */
  lemma PutAllStep<V>(m: seq<Entry<V>>, es: seq<Entry<V>>, i: nat)
    requires i < |es|
    ensures PutAll(m, es[..i + 1]) == Put(PutAll(m, es[..i]), es[i].key, es[i].value)
  {
    assert es[..i + 1][..i] == es[..i];
  }

  /** Each entry of `es` added in turn with `AddIfAbsent`. */
  function AddAllIfAbsent<V>(m: seq<Entry<V>>, es: seq<Entry<V>>): seq<Entry<V>>
    decreases |es|
  {
    if es == [] then m
    else
      var n := |es| - 1;
      AddIfAbsent(AddAllIfAbsent(m, es[..n]), es[n].key, es[n].value)
  }

  /** Adding one more entry extends `AddAllIfAbsent` by one `AddIfAbsent`. */
  lemma AddAllIfAbsentStep<V>(m: seq<Entry<V>>, es: seq<Entry<V>>, i: nat)
    requires i < |es|
    ensures AddAllIfAbsent(m, es[..i + 1]) == AddIfAbsent(AddAllIfAbsent(m, es[..i]), es[i].key, es[i].value)
  {
    assert es[..i + 1][..i] == es[..i];
  }

  /** Adding `a` and then `b` is adding `a + b`. */
  lemma {:induction false} AddAllIfAbsentAppend<V>(m: seq<Entry<V>>, a: seq<Entry<V>>, b: seq<Entry<V>>)
    ensures AddAllIfAbsent(AddAllIfAbsent(m, a), b) == AddAllIfAbsent(m, a + b)
    decreases |b|
  {
    if b == [] {
      assert a + b == a;
    } else {
      var n := |b| - 1;
      AddAllIfAbsentAppend(m, a, b[..n]);
      LastOfAppend(a, b);
      AddAllIfAbsentLast(m, a + b);
    }
  }

  /** Dropping the last element of `a + b`, for a non-empty `b`, drops the
      last element of `b`. */
  lemma LastOfAppend<T>(a: seq<T>, b: seq<T>)
    requires b != []
    ensures (a + b)[..|a + b| - 1] == a + b[..|b| - 1]
    ensures (a + b)[|a + b| - 1] == b[|b| - 1]
  {
  }

  /** `AddAllIfAbsent` over a non-empty sequence adds its last entry last. */
  lemma AddAllIfAbsentLast<V>(m: seq<Entry<V>>, es: seq<Entry<V>>)
    requires es != []
    ensures AddAllIfAbsent(m, es) ==
      AddIfAbsent(AddAllIfAbsent(m, es[..|es| - 1]), es[|es| - 1].key, es[|es| - 1].value)
  {
  }

  /** The keys of a non-empty map are its first key and the keys of the rest. */
  lemma HasKeyTail<V>(m: seq<Entry<V>>, k: string)
    requires m != []
    ensures HasKey(m, k) <==> m[0].key == k || HasKey(m[1..], k)
  {
  }

  /** A position holding `k`, with no `k` before it, is the first. */
  lemma IndexOfKeyIs<V>(m: seq<Entry<V>>, k: string, i: nat)
    requires i < |m| && m[i].key == k
    requires forall j :: 0 <= j < i ==> m[j].key != k
    ensures IndexOfKey(m, k) == Some(i)
  {
  }

  lemma IndexOfKeyNone<V>(m: seq<Entry<V>>, k: string)
    requires forall j :: 0 <= j < |m| ==> m[j].key != k
    ensures IndexOfKey(m, k) == None
  {
  }

  /** Two maps with the same keys at the same positions find a key at the same place. */
  lemma SameKeysSameIndex<V>(m: seq<Entry<V>>, r: seq<Entry<V>>, k: string)
    requires |m| == |r| && forall i :: 0 <= i < |m| ==> m[i].key == r[i].key
    ensures IndexOfKey(r, k) == IndexOfKey(m, k)
  {
    match IndexOfKey(m, k)
    case None => IndexOfKeyNone(r, k);
    case Some(i) => IndexOfKeyIs(r, k, i);
  }

  /** Appending an entry leaves the position of every key already present. */
  lemma AppendedIndex<V>(m: seq<Entry<V>>, e: Entry<V>, k: string)
    ensures IndexOfKey(m + [e], k) ==
      if HasKey(m, k) then IndexOfKey(m, k)
      else if e.key == k then Some(|m|) else None
  {
    var r := m + [e];
    match IndexOfKey(m, k)
    case Some(i) => IndexOfKeyIs(r, k, i);
    case None =>
      if e.key == k {
        IndexOfKeyIs(r, k, |m|);
      } else {
        IndexOfKeyNone(r, k);
      }
  }

  /** `AddIfAbsent` keeps the first value: a key already present changes nothing. */
  lemma AddIfAbsentKeepsFirst<V>(m: seq<Entry<V>>, k: string, v: V)
    ensures HasKey(m, k) ==> AddIfAbsent(m, k, v) == m
    ensures Get(AddIfAbsent(m, k, v), k) == if HasKey(m, k) then Get(m, k) else Some(v)
    ensures forall k' :: k' != k ==> Get(AddIfAbsent(m, k, v), k') == Get(m, k')
  {
    AppendedIndex(m, Entry(k, v), k);
    forall k' | k' != k ensures Get(AddIfAbsent(m, k, v), k') == Get(m, k') {
      AppendedIndex(m, Entry(k, v), k');
    }
  }

  /** `r` is what adding the entries `es` to `m` with first-wins semantics
      must give: it starts with `m`, holds each key once, holds exactly the
      keys of `m` and `es`, every key new to `m` carries the value of its
      first entry in `es`, and the new keys are ordered by where they first
      occur in `es`. */
  ghost predicate FirstWins<V>(m: seq<Entry<V>>, es: seq<Entry<V>>, r: seq<Entry<V>>) {
    && DistinctKeys(r)
    && |m| <= |r| && r[..|m|] == m
    && (forall k :: HasKey(r, k) <==> HasKey(m, k) || HasKey(es, k))
    && (forall j :: |m| <= j < |r| ==>
          && !HasKey(m, r[j].key)
          && IndexOfKey(es, r[j].key).Some?
          && r[j] == es[IndexOfKey(es, r[j].key).value])
    && (forall j1, j2 :: |m| <= j1 < j2 < |r| ==>
          IndexOfKey(es, r[j1].key).Some? && IndexOfKey(es, r[j2].key).Some? &&
          IndexOfKey(es, r[j1].key).value < IndexOfKey(es, r[j2].key).value)
  }

  /** Adding entries one at a time with `AddIfAbsent` is first-wins insertion. */
  lemma {:induction false} AddAllIfAbsentFirstWins<V>(m: seq<Entry<V>>, es: seq<Entry<V>>)
    requires DistinctKeys(m)
    ensures FirstWins(m, es, AddAllIfAbsent(m, es))
    decreases |es|
  {
    if es == [] {
      forall k ensures !HasKey(es, k) { IndexOfKeyNone(es, k); }
      assert m[..|m|] == m;
    } else {
      var n := |es| - 1;
      AddAllIfAbsentFirstWins(m, es[..n]);
      assert es == es[..n] + [es[n]];
      FirstWinsStep(m, es[..n], es[n], AddAllIfAbsent(m, es[..n]));
    }
  }

  lemma FirstWinsStep<V>(m: seq<Entry<V>>, es: seq<Entry<V>>, e: Entry<V>, r: seq<Entry<V>>)
    requires FirstWins(m, es, r)
    ensures FirstWins(m, es + [e], AddIfAbsent(r, e.key, e.value))
  {
    if HasKey(r, e.key) {
      assert AddIfAbsent(r, e.key, e.value) == r;
      FirstWinsSameMap(m, es, e, r);
    } else {
      FirstWinsAppend(m, es, e, r);
    }
  }

  lemma FirstWinsSameMap<V>(m: seq<Entry<V>>, es: seq<Entry<V>>, e: Entry<V>, r: seq<Entry<V>>)
    requires FirstWins(m, es, r)
    requires HasKey(r, e.key)
    ensures FirstWins(m, es + [e], r)
  {
    var es2 := es + [e];
    forall k ensures IndexOfKey(es2, k) == if HasKey(es, k) then IndexOfKey(es, k) else if e.key == k then Some(|es|) else None {
      AppendedIndex(es, e, k);
    }
    forall j | |m| <= j < |r| ensures es2[IndexOfKey(es2, r[j].key).value] == es[IndexOfKey(es, r[j].key).value] {
      assert IndexOfKey(es2, r[j].key) == IndexOfKey(es, r[j].key);
    }
  }

  lemma FirstWinsAppend<V>(m: seq<Entry<V>>, es: seq<Entry<V>>, e: Entry<V>, r: seq<Entry<V>>)
    requires FirstWins(m, es, r)
    requires !HasKey(r, e.key)
    ensures FirstWins(m, es + [e], r + [e])
  {
    AppendedIndexes(es, e);
    AppendedIndexes(r, e);
    AppendedDistinct(r, e);
    assert (r + [e])[..|m|] == r[..|m|];
    FirstWinsAppendEntries(m, es, e, r);
    FirstWinsAppendOrder(m, es, e, r);
  }

  /** Appending an entry leaves the position of every key already present,
      for all keys at once. */
  lemma AppendedIndexes<V>(m: seq<Entry<V>>, e: Entry<V>)
    ensures forall k ::
              IndexOfKey(m + [e], k) ==
              if HasKey(m, k) then IndexOfKey(m, k)
              else if e.key == k then Some(|m|) else None
  {
    forall k ensures IndexOfKey(m + [e], k) ==
      (if HasKey(m, k) then IndexOfKey(m, k)
       else if e.key == k then Some(|m|) else None)
    {
      AppendedIndex(m, e, k);
    }
  }

  /** Appending an entry for a new key keeps the keys distinct. */
  lemma AppendedDistinct<V>(m: seq<Entry<V>>, e: Entry<V>)
    requires DistinctKeys(m) && !HasKey(m, e.key)
    ensures DistinctKeys(m + [e])
  {
    var r := m + [e];
    forall i, j | 0 <= i < j < |r| ensures r[i].key != r[j].key {
      if j == |m| {
        assert r[i] == m[i];
        IndexOfKeyIs(m, m[i].key, i);
      }
    }
  }

  /** The entries of `r + [e]` past `m` come from `es + [e]`. */
  lemma FirstWinsAppendEntries<V>(m: seq<Entry<V>>, es: seq<Entry<V>>, e: Entry<V>, r: seq<Entry<V>>)
    requires FirstWins(m, es, r)
    requires !HasKey(r, e.key)
    ensures forall j :: |m| <= j < |r| + 1 ==>
      && !HasKey(m, (r + [e])[j].key)
      && IndexOfKey(es + [e], (r + [e])[j].key).Some?
      && (r + [e])[j] == (es + [e])[IndexOfKey(es + [e], (r + [e])[j].key).value]
  {
    var es2, r2 := es + [e], r + [e];
    AppendedIndexes(es, e);
    assert !HasKey(m, e.key) && !HasKey(es, e.key);
    forall j | |m| <= j < |r2|
      ensures && !HasKey(m, r2[j].key)
              && IndexOfKey(es2, r2[j].key).Some?
              && r2[j] == es2[IndexOfKey(es2, r2[j].key).value]
    {
      if j < |r| {
        assert r2[j] == r[j];
      }
    }
  }

  /** The new keys of `r + [e]` stay ordered by first occurrence in `es + [e]`. */
  lemma FirstWinsAppendOrder<V>(m: seq<Entry<V>>, es: seq<Entry<V>>, e: Entry<V>, r: seq<Entry<V>>)
    requires FirstWins(m, es, r)
    requires !HasKey(r, e.key)
    ensures forall j1, j2 :: |m| <= j1 < j2 < |r| + 1 ==>
      IndexOfKey(es + [e], (r + [e])[j1].key).Some? && IndexOfKey(es + [e], (r + [e])[j2].key).Some? &&
      IndexOfKey(es + [e], (r + [e])[j1].key).value < IndexOfKey(es + [e], (r + [e])[j2].key).value
  {
    var es2, r2 := es + [e], r + [e];
    AppendedIndexes(es, e);
    assert !HasKey(es, e.key);
    forall j1, j2 | |m| <= j1 < j2 < |r2|
      ensures IndexOfKey(es2, r2[j1].key).Some? && IndexOfKey(es2, r2[j2].key).Some? &&
              IndexOfKey(es2, r2[j1].key).value < IndexOfKey(es2, r2[j2].key).value
    {
      assert r2[j1] == r[j1];
      if j2 < |r| {
        assert r2[j2] == r[j2];
      }
    }
  }

  /** The entries whose key is not `k`, in order. */
  function WithoutKey<V>(m: seq<Entry<V>>, k: string): (r: seq<Entry<V>>)
    ensures forall e :: e in r ==> e in m && e.key != k
  {
    if m == [] then []
    else (if m[0].key == k then [] else [m[0]]) + WithoutKey(m[1..], k)
  }

  /** A map without the key `k` is left as it is by the filter. */
  lemma {:induction false} WithoutKeyAbsent<V>(m: seq<Entry<V>>, k: string)
    requires !HasKey(m, k)
    ensures WithoutKey(m, k) == m
    decreases |m|
  {
    if m != [] {
      HasKeyTail(m, k);
      WithoutKeyAbsent(m[1..], k);
      assert [m[0]] + m[1..] == m;
    }
  }

  /** The filter keeps every entry not keyed `k`. */
  lemma {:induction false} WithoutKeyKeeps<V>(m: seq<Entry<V>>, k: string)
    ensures forall i :: 0 <= i < |m| && m[i].key != k ==> m[i] in WithoutKey(m, k)
    decreases |m|
  {
    if m != [] {
      var t := m[1..];
      WithoutKeyKeeps(t, k);
      assert WithoutKey(m, k) == (if m[0].key == k then [] else [m[0]]) + WithoutKey(t, k);
      forall i | 0 < i < |m| && m[i].key != k ensures m[i] in WithoutKey(m, k) {
        assert m[i] == t[i - 1];
      }
    }
  }

  /** On a map with distinct keys the filter keeps keys distinct, and when
      the map holds `k` it drops exactly one entry. */
  lemma {:induction false} WithoutKeyDistinct<V>(m: seq<Entry<V>>, k: string)
    requires DistinctKeys(m)
    ensures DistinctKeys(WithoutKey(m, k))
    ensures HasKey(m, k) ==> |WithoutKey(m, k)| == |m| - 1
    decreases |m|
  {
    if m != [] {
      var e := m[0];
      var t := m[1..];
      var rest := WithoutKey(t, k);
      assert DistinctKeys(t);
      WithoutKeyDistinct(t, k);
      assert WithoutKey(m, k) == (if e.key == k then [] else [e]) + rest;
      forall j | 0 <= j < |rest| ensures rest[j].key != e.key {
        assert rest[j] in t;
      }
      HasKeyTail(m, k);
      if e.key == k {
        assert !HasKey(t, k) by {
          IndexOfKeyNone(t, k);
        }
        WithoutKeyAbsent(t, k);
      }
    }
  }

}
