/** The object helpers of `src/lib/utils.ts`: `keys` and `transform`. */
module Utils {
  import opened JsObjects

  /** `keys(obj)`: the object's own keys, in enumeration order. */
  function Keys<V>(obj: Object<V>): (ks: seq<string>)
    ensures |ks| == |obj|
    ensures forall i :: 0 <= i < |obj| ==> ks[i] == obj[i].0
    ensures forall k :: k in ks <==> HasKey(obj, k)
  {
    seq(|obj|, i requires 0 <= i < |obj| => obj[i].0)
  }

  /** The accumulator after the iteratee has been applied, in key order, to
      every property of `obj`, starting from `acc`: the meaning of
      `transform`. One application per key, and the last property is visited
      last. */
  function Fold<T, V>(obj: Object<T>, iteratee: (Object<V>, string, T) -> Object<V>, acc: Object<V>): Object<V>
  {
    if obj == [] then acc
    else iteratee(Fold(obj[..|obj| - 1], iteratee, acc), obj[|obj| - 1].0, obj[|obj| - 1].1)
  }

  /** With an iteratee that leaves the accumulator alone, `transform` returns
      the initial accumulator unchanged. */
  lemma {:induction false} FoldNoOp<T, V>(obj: Object<T>, iteratee: (Object<V>, string, T) -> Object<V>, acc: Object<V>)
    requires forall a, k, v :: iteratee(a, k, v) == a
    ensures Fold(obj, iteratee, acc) == acc
  {
    if obj != [] {
      FoldNoOp(obj[..|obj| - 1], iteratee, acc);
    }
  }

  /** Folding over a longer object continues from where the shorter prefix
      stopped: the iteratee sees the properties one at a time, in order. */
  lemma {:induction false} FoldAppend<T, V>(a: Object<T>, b: Object<T>, iteratee: (Object<V>, string, T) -> Object<V>, acc: Object<V>)
    ensures Fold(a + b, iteratee, acc) == Fold(b, iteratee, Fold(a, iteratee, acc))
  {
    if b == [] {
      assert a + b == a;
    } else {
      var b' := b[..|b| - 1];
      assert (a + b)[..|a + b| - 1] == a + b';
      FoldAppend(a, b', iteratee, acc);
    }
  }

  /** `transform(obj, iteratee, accumulator)`: visits the keys of `obj`
      in order, hands the iteratee the accumulator, the key and `obj[key]`,
      lets the iteratee update the accumulator in place, and returns that
      same accumulator object. */
  method Transform<T, V>(obj: Object<T>, iteratee: (Object<V>, string, T) -> Object<V>, accumulator: Dict<V>)
    returns (result: Dict<V>)
    requires WellFormed(obj)
    modifies accumulator
    ensures result == accumulator
    ensures result.entries == Fold(obj, iteratee, old(accumulator.entries))
  {
    var ks := Keys(obj);
    var i := 0;
    while i < |ks|
      invariant 0 <= i <= |ks|
      invariant accumulator.entries == Fold(obj[..i], iteratee, old(accumulator.entries))
    {
      var key := ks[i];
      GetAt(obj, i);
      var value := Get(obj, key).value;
      assert obj[..i + 1][..i] == obj[..i];
      accumulator.entries := iteratee(accumulator.entries, key, value);
      i := i + 1;
    }
    assert obj[..i] == obj;
    result := accumulator;
  }
}
