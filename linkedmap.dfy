/**
 * A `LinkedHashMap<String, String>` as the sequence of its bindings in
 * insertion order: `put` on a present key overwrites in place, on a new key
 * appends; `remove` drops the binding and keeps the order of the rest.
 */
module LinkedMap {
  import opened Wrappers

  datatype Binding = Binding(key: string, value: string)

  type Bindings = seq<Binding>

  /** The keys in iteration order. */
  function Keys(m: Bindings): (r: seq<string>)
    ensures |r| == |m| && forall i :: 0 <= i < |m| ==> r[i] == m[i].key
  {
    if m == [] then [] else [m[0].key] + Keys(m[1..])
  }

  predicate HasKey(m: Bindings, k: string) {
    k in Keys(m)
  }

  /** No key is bound twice, as in any map. */
  predicate UniqueKeys(m: Bindings) {
    forall i, j :: 0 <= i < j < |m| ==> m[i].key != m[j].key
  }

  /** `get`: the value bound to `k`, if any. */
  function Get(m: Bindings, k: string): (r: Option<string>)
    ensures r.None? <==> !HasKey(m, k)
  {
    if m == [] then None
    else if m[0].key == k then Some(m[0].value)
    else Get(m[1..], k)
  }

  /** `getOrDefault`. */
  function GetOrDefault(m: Bindings, k: string, d: string): (r: string)
    ensures !HasKey(m, k) ==> r == d
    ensures HasKey(m, k) ==> Get(m, k) == Some(r)
  {
    match Get(m, k)
    case None => d
    case Some(v) => v
  }

  /** The keys and lookups of a list with one binding in front. */
  lemma ConsLookups(b: Binding, rest: Bindings)
    ensures Keys([b] + rest) == [b.key] + Keys(rest)
    ensures forall k :: Get([b] + rest, k) == if b.key == k then Some(b.value) else Get(rest, k)
  {
    assert ([b] + rest)[1..] == rest;
  }

  /** `put`: overwrite the binding in place, or append a new one. */
  function Put(m: Bindings, k: string, v: string): (r: Bindings)
    ensures Get(r, k) == Some(v)
    ensures forall k' :: k' != k ==> Get(r, k') == Get(m, k')
    ensures HasKey(m, k) ==> Keys(r) == Keys(m)
    ensures !HasKey(m, k) ==> r == m + [Binding(k, v)]
  {
    if m == [] then
      ConsLookups(Binding(k, v), []);
      [Binding(k, v)]
    else
      assert m == [m[0]] + m[1..];
      ConsLookups(m[0], m[1..]);
      if m[0].key == k then
        ConsLookups(Binding(k, v), m[1..]);
        [Binding(k, v)] + m[1..]
      else
        var rest := Put(m[1..], k, v);
        PutStep(m[0], m[1..], rest, k, v);
        [m[0]] + rest
  }

  /** A `put` behind a binding for another key: what holds of the tail holds of the whole list. */
  lemma PutStep(b: Binding, tail: Bindings, rest: Bindings, k: string, v: string)
    requires b.key != k
    requires Get(rest, k) == Some(v)
    requires forall k' :: k' != k ==> Get(rest, k') == Get(tail, k')
    requires HasKey(tail, k) ==> Keys(rest) == Keys(tail)
    requires !HasKey(tail, k) ==> rest == tail + [Binding(k, v)]
    ensures Get([b] + rest, k) == Some(v)
    ensures forall k' :: k' != k ==> Get([b] + rest, k') == Get([b] + tail, k')
    ensures HasKey([b] + tail, k) ==> Keys([b] + rest) == Keys([b] + tail)
    ensures !HasKey([b] + tail, k) ==> [b] + rest == [b] + tail + [Binding(k, v)]
  {
    PutStepLookups(b, tail, rest, k);
    PutStepKeys(b, tail, rest, k);
    if !HasKey(tail, k) {
      ConsAppend(b, tail, Binding(k, v));
    }
  }

  lemma ConsAppend(b: Binding, tail: Bindings, last: Binding)
    ensures [b] + (tail + [last]) == [b] + tail + [last]
  {
  }

  /** Lookups in front of two lists that agree on every key other than `k` agree too. */
  lemma PutStepLookups(b: Binding, tail: Bindings, rest: Bindings, k: string)
    requires b.key != k
    requires forall k' :: k' != k ==> Get(rest, k') == Get(tail, k')
    ensures Get([b] + rest, k) == Get(rest, k)
    ensures forall k' :: k' != k ==> Get([b] + rest, k') == Get([b] + tail, k')
  {
    ConsLookups(b, rest);
    ConsLookups(b, tail);
  }

  /** Whether `k` is bound is decided by the tail, and equal tail keys give equal keys. */
  lemma PutStepKeys(b: Binding, tail: Bindings, rest: Bindings, k: string)
    requires b.key != k
    requires HasKey(tail, k) ==> Keys(rest) == Keys(tail)
    ensures HasKey([b] + tail, k) == HasKey(tail, k)
    ensures HasKey(tail, k) ==> Keys([b] + rest) == Keys([b] + tail)
  {
    assert ([b] + rest)[1..] == rest;
    assert ([b] + tail)[1..] == tail;
  }

  /** `put` keeps the keys duplicate-free. */
  lemma {:induction false} PutUnique(m: Bindings, k: string, v: string)
    requires UniqueKeys(m)
    ensures UniqueKeys(Put(m, k, v))
  {
    if m != [] && m[0].key != k {
      var rest := Put(m[1..], k, v);
      assert UniqueKeys(m[1..]);
      PutUnique(m[1..], k, v);
      assert !HasKey(m[1..], m[0].key) by {
        forall i | 0 <= i < |m[1..]| ensures Keys(m[1..])[i] != m[0].key {
          assert m[1..][i] == m[i + 1];
        }
      }
      forall j | 0 <= j < |rest| ensures rest[j].key != m[0].key {
        assert Keys(rest)[j] == rest[j].key;
        assert Get(rest, m[0].key) == Get(m[1..], m[0].key);
      }
      assert Put(m, k, v) == [m[0]] + rest;
    }
  }

  /** Every binding after a `put` is the new one or was there before. */
  lemma {:induction false} PutBindings(m: Bindings, k: string, v: string)
    ensures forall b :: b in Put(m, k, v) ==> b in m || b == Binding(k, v)
    decreases |m|
  {
    if m != [] && m[0].key != k {
      PutBindings(m[1..], k, v);
      assert Put(m, k, v) == [m[0]] + Put(m[1..], k, v);
    }
  }

  /** `remove`: drop the binding of `k`, keeping the order of the others. */
  function Remove(m: Bindings, k: string): (r: Bindings)
    ensures !HasKey(r, k)
    ensures forall k' :: k' != k ==> Get(r, k') == Get(m, k')
    ensures !HasKey(m, k) ==> r == m
    ensures forall b :: b in r ==> b in m
    ensures UniqueKeys(m) ==> UniqueKeys(r)
  {
    if m == [] then []
    else
      assert m == [m[0]] + m[1..];
      ConsLookups(m[0], m[1..]);
      var rest := Remove(m[1..], k);
      assert UniqueKeys(m) ==> UniqueKeys(m[1..]);
      if m[0].key == k then
        rest
      else
        ConsLookups(m[0], rest);
        assert UniqueKeys(m) ==> forall j :: 0 <= j < |rest| ==> rest[j].key != m[0].key by {
          if UniqueKeys(m) {
            forall j | 0 <= j < |rest| ensures rest[j].key != m[0].key {
              assert rest[j] in rest;
            }
          }
        }
        [m[0]] + rest
  }

  /** With unique keys, `get` returns the value of the one binding of `k`. */
  lemma {:induction false} GetOfUnique(m: Bindings, i: nat)
    requires UniqueKeys(m) && i < |m|
    ensures Get(m, m[i].key) == Some(m[i].value)
  {
    if i > 0 {
      assert UniqueKeys(m[1..]);
      GetOfUnique(m[1..], i - 1);
    }
  }

  /** Two duplicate-free binding lists with the same keys in the same order and the same lookups are equal. */
  lemma {:induction false} SameLookupsEqual(a: Bindings, b: Bindings)
    requires UniqueKeys(a) && UniqueKeys(b) && Keys(a) == Keys(b)
    requires forall k :: Get(a, k) == Get(b, k)
    ensures a == b
  {
    forall i | 0 <= i < |a| ensures a[i] == b[i] {
      GetOfUnique(a, i);
      GetOfUnique(b, i);
    }
  }
}
