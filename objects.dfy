/** Plain JavaScript objects with string keys, as the style code uses them.

    An object is the sequence of its own enumerable properties in insertion
    order (the order `Object.keys` reports for non-integer keys). Keys are
    distinct: `WellFormed` is the representation invariant every object keeps.
 */
module JsObjects {

  datatype Option<+T> = None | Some(value: T)

  type Object<V> = seq<(string, V)>

  /** The keys of an object are pairwise distinct. */
  ghost predicate WellFormed<V>(o: Object<V>) {
    forall i, j :: 0 <= i < j < |o| ==> o[i].0 != o[j].0
  }

  predicate HasKey<V>(o: Object<V>, k: string) {
    exists i :: 0 <= i < |o| && o[i].0 == k
  }

  /** Property read `o[k]`: the value stored under `k`, or None (`undefined`). */
  function Get<V>(o: Object<V>, k: string): (r: Option<V>)
    ensures r.Some? <==> HasKey(o, k)
  {
    if o == [] then None
    else if o[0].0 == k then Some(o[0].1)
    else
      assert HasKey(o, k) <==> HasKey(o[1..], k) by {
        if HasKey(o, k) {
          var i :| 0 <= i < |o| && o[i].0 == k;
          assert o[1..][i - 1].0 == k;
        }
        if HasKey(o[1..], k) {
          var i :| 0 <= i < |o[1..]| && o[1..][i].0 == k;
          assert o[i + 1].0 == k;
        }
      }
      Get(o[1..], k)
  }

  /** Property assignment `o[k] = v`: an existing key keeps its position and
      takes the new value; a new key is appended at the end. */
  function Put<V>(o: Object<V>, k: string, v: V): Object<V>
  {
    if o == [] then [(k, v)]
    else if o[0].0 == k then [(k, v)] + o[1..]
    else [o[0]] + Put(o[1..], k, v)
  }

  /** Reading after an assignment sees the assigned value under its key and
      the old value under every other key. */
  lemma {:induction false} GetPut<V>(o: Object<V>, k: string, v: V, k': string)
    ensures Get(Put(o, k, v), k') == if k' == k then Some(v) else Get(o, k')
  {
    if o != [] && o[0].0 != k {
      GetPut(o[1..], k, v, k');
    }
  }

  /** Assigning to an absent key appends exactly one property. */
  lemma {:induction false} PutFresh<V>(o: Object<V>, k: string, v: V)
    requires !HasKey(o, k)
    ensures Put(o, k, v) == o + [(k, v)]
  {
    if o != [] {
      assert o[0].0 != k;
      PutFresh(o[1..], k, v);
      assert [o[0]] + (o[1..] + [(k, v)]) == o + [(k, v)];
    }
  }

  /** The key set after an assignment is the old key set plus `k`. */
  lemma {:induction false} HasKeyPut<V>(o: Object<V>, k: string, v: V, k': string)
    ensures HasKey(Put(o, k, v), k') <==> k' == k || HasKey(o, k')
  {
    GetPut(o, k, v, k');
  }

  /** Assignment keeps the keys distinct. */
  lemma {:induction false} PutWellFormed<V>(o: Object<V>, k: string, v: V)
    requires WellFormed(o)
    ensures WellFormed(Put(o, k, v))
  {
    if o != [] {
      var tail := o[1..];
      assert WellFormed(tail) by {
        forall i, j | 0 <= i < j < |tail| ensures tail[i].0 != tail[j].0 {
          assert tail[i] == o[i + 1] && tail[j] == o[j + 1];
        }
      }
      if o[0].0 == k {
        var r := [(k, v)] + tail;
        forall i, j | 0 <= i < j < |r| ensures r[i].0 != r[j].0 {
          assert r[i].0 == o[i].0 && r[j].0 == o[j].0;
        }
      } else {
        PutWellFormed(tail, k, v);
        var p := Put(tail, k, v);
        var r := [o[0]] + p;
        forall i, j | 0 <= i < j < |r| ensures r[i].0 != r[j].0 {
          if i == 0 {
            assert r[j] == p[j - 1];
            assert HasKey(p, r[j].0);
            HasKeyPut(tail, k, v, r[j].0);
            if r[j].0 != k {
              var m :| 0 <= m < |tail| && tail[m].0 == r[j].0;
              assert o[m + 1].0 == r[j].0;
            }
          }
        }
      }
    }
  }

  /** In a well-formed object, reading the key at position `i` yields the
      value stored at position `i`. */
  lemma {:induction false} GetAt<V>(o: Object<V>, i: nat)
    requires WellFormed(o) && i < |o|
    ensures Get(o, o[i].0) == Some(o[i].1)
  {
    if i > 0 {
      assert o[0].0 != o[i].0;
      var tail := o[1..];
      assert WellFormed(tail) by {
        forall a, b | 0 <= a < b < |tail| ensures tail[a].0 != tail[b].0 {
          assert tail[a] == o[a + 1] && tail[b] == o[b + 1];
        }
      }
      GetAt(tail, i - 1);
    }
  }

  /** A mutable object, used where the source builds an object by assigning
      into it property by property. */
  class Dict<V> {
    var entries: Object<V>

    /** `{}` */
    constructor ()
      ensures entries == []
    {
      entries := [];
    }

    /** `this[k] = v` */
    method Set(k: string, v: V)
      modifies this
      ensures entries == Put(old(entries), k, v)
    {
      entries := Put(entries, k, v);
    }
  }
}
