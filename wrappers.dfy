/** Option and the outcome of a JavaScript evaluation that may throw. */
module Wrappers {

  datatype Option<+T> = None | Some(value: T)

  /** Either a value, or the `TypeError` JavaScript throws when a property
      (`split`, `name`, `0`, ...) is read on `undefined`. */
  datatype Result<+T> = Ok(value: T) | TypeError(property: string)

  /** `xs.map(f)` where `f` may throw: the results in order, or the error
      of the first element whose evaluation throws. */
  function MapAll<A, B>(f: A -> Result<B>, xs: seq<A>): Result<seq<B>>
    decreases |xs|
  {
    if xs == [] then Ok([])
    else
      match f(xs[0])
      case TypeError(p) => TypeError(p)
      case Ok(y) =>
        match MapAll(f, xs[1..])
        case TypeError(p) => TypeError(p)
        case Ok(ys) => Ok([y] + ys)
  }

  /** The map succeeds exactly when every element evaluates, and then
      holds one result per element, in order. */
  lemma {:induction false} MapAllSpec<A, B>(f: A -> Result<B>, xs: seq<A>)
    ensures MapAll(f, xs).Ok? <==> forall i :: 0 <= i < |xs| ==> f(xs[i]).Ok?
    ensures MapAll(f, xs).Ok? ==>
      && |MapAll(f, xs).value| == |xs|
      && forall i :: 0 <= i < |xs| ==> f(xs[i]) == Ok(MapAll(f, xs).value[i])
    decreases |xs|
  {
    if xs != [] {
      var tail := xs[1..];
      MapAllSpec(f, tail);
      forall i | 0 < i < |xs| ensures xs[i] == tail[i - 1] { }
      if MapAll(f, xs).Ok? {
        var ys := MapAll(f, xs).value;
        forall i | 0 < i < |xs| ensures f(xs[i]) == Ok(ys[i]) {
          assert ys[i] == MapAll(f, tail).value[i - 1];
        }
      }
    }
  }

  /** The map throws only what one of its elements throws. */
  lemma {:induction false} MapAllError<A, B>(f: A -> Result<B>, xs: seq<A>)
    ensures MapAll(f, xs).TypeError? ==>
      exists i :: 0 <= i < |xs| && f(xs[i]) == TypeError(MapAll(f, xs).property)
    decreases |xs|
  {
    if xs != [] && f(xs[0]).Ok? {
      var tail := xs[1..];
      MapAllError(f, tail);
      if MapAll(f, xs).TypeError? {
        var i :| 0 <= i < |tail| && f(tail[i]) == TypeError(MapAll(f, tail).property);
        assert xs[i + 1] == tail[i];
      }
    }
  }

  /** When the first element throws, the map throws its error. */
  lemma MapAllFirstError<A, B>(f: A -> Result<B>, xs: seq<A>, k: nat)
    requires k < |xs| && f(xs[k]).TypeError?
    requires forall i :: 0 <= i < k ==> f(xs[i]).Ok?
    ensures MapAll(f, xs) == TypeError(f(xs[k]).property)
    decreases k
  {
    if k > 0 {
      MapAllFirstError(f, xs[1..], k - 1);
    }
  }

  /** Concatenation is associative. */
  lemma AppendAssoc<T>(a: seq<T>, b: seq<T>, c: seq<T>)
    ensures (a + b) + c == a + (b + c)
  {
  }
}
