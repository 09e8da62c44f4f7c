/**
 * A plain JavaScript object used as a dictionary: an association list whose
 * order is the order in which keys were first assigned, which is the order
 * `Object.entries` enumerates them in.
 */
module JsObject {
  import opened Wrappers

  type Object<V> = seq<(string, V)>

  /** `Object.keys(o)`. */
  function Keys<V>(o: Object<V>): (ks: seq<string>)
    ensures |ks| == |o| && forall i :: 0 <= i < |o| ==> ks[i] == o[i].0
  {
    if o == [] then [] else [o[0].0] + Keys(o[1..])
  }

  /** A JavaScript object never holds the same key twice. */
  predicate UniqueKeys<V>(o: Object<V>) {
    forall i, j :: 0 <= i < j < |o| ==> o[i].0 != o[j].0
  }

  /** `o[k]`: the value stored under `k`, `None` standing for `undefined`. */
  function Get<V>(o: Object<V>, k: string): (r: Option<V>)
    ensures r.Some? <==> k in Keys(o)
  {
    if o == [] then None
    else if o[0].0 == k then Some(o[0].1)
    else Get(o[1..], k)
  }

  /** `o[k] = v`: updates the value in place when `k` is present, and appends the pair otherwise. */
  function Set<V>(o: Object<V>, k: string, v: V): (r: Object<V>)
    ensures k in Keys(o) ==> Keys(r) == Keys(o)
    ensures k !in Keys(o) ==> r == o + [(k, v)]
  {
    if o == [] then [(k, v)]
    else if o[0].0 == k then [(k, v)] + o[1..]
    else
      var rest := Set(o[1..], k, v);
      assert o == [o[0]] + o[1..];
      [o[0]] + rest
  }

  /** After `o[k] = v`, `k` holds `v` and every other key holds what it held before. */
  lemma {:induction false} SetGet<V>(o: Object<V>, k: string, v: V, k': string)
    ensures Get(Set(o, k, v), k') == if k' == k then Some(v) else Get(o, k')
  {
    if o != [] && o[0].0 != k {
      var rest := Set(o[1..], k, v);
      assert ([o[0]] + rest)[1..] == rest;
      SetGet(o[1..], k, v, k');
    }
  }

  /** Assignment never creates a second copy of a key. */
  lemma SetKeepsKeysUnique<V>(o: Object<V>, k: string, v: V)
    requires UniqueKeys(o)
    ensures UniqueKeys(Set(o, k, v))
  {
    var r := Set(o, k, v);
    forall i, j | 0 <= i < j < |r| ensures r[i].0 != r[j].0 {
      assert Keys(r)[i] == r[i].0 && Keys(r)[j] == r[j].0;
      if k !in Keys(o) && j == |o| {
        assert r[i].0 == Keys(o)[i];
      } else {
        assert Keys(r)[i] == Keys(o)[i] && Keys(r)[j] == Keys(o)[j];
      }
    }
  }

  /** In an object without repeated keys, looking up the key at position `i` gives the value at position `i`. */
  lemma {:induction false} GetAt<V>(o: Object<V>, i: nat)
    requires UniqueKeys(o) && i < |o|
    ensures Get(o, o[i].0) == Some(o[i].1)
  {
    if i > 0 {
      GetAt(o[1..], i - 1);
    }
  }
}
