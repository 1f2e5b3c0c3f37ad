/** A map to which items are added one after the other under a key of their own, the last one under a key staying. */
module LastWriter {
  import opened Prelude

  function PutAll<V>(m: map<string, V>, items: seq<V>, key: V -> string): map<string, V> {
    if items == [] then m
    else
      var last := items[|items| - 1];
      PutAll(m, items[..|items| - 1], key)[key(last) := last]
  }

  /** The last item with a key. */
  function LastOf<V>(items: seq<V>, key: V -> string, k: string): (r: Option<V>)
    ensures r.Some? ==> r.value in items && key(r.value) == k
    ensures r.None? ==> forall i :: 0 <= i < |items| ==> key(items[i]) != k
  {
    if items == [] then None
    else
      var last := items[|items| - 1];
      if key(last) == k then Some(last) else LastOf(items[..|items| - 1], key, k)
  }

  /** It is the item with no other of that key behind it. */
  lemma {:induction false} LastIs<V>(items: seq<V>, key: V -> string, i: nat)
    requires i < |items| && forall j :: i < j < |items| ==> key(items[j]) != key(items[i])
    ensures LastOf(items, key, key(items[i])) == Some(items[i])
    decreases |items|
  {
    if i < |items| - 1 {
      LastIs(items[..|items| - 1], key, i);
    }
  }

  function Lookup<V>(m: map<string, V>, k: string): Option<V> {
    if k in m then Some(m[k]) else None
  }

  lemma {:induction false} PutAllConcat<V>(m: map<string, V>, a: seq<V>, b: seq<V>, key: V -> string)
    ensures PutAll(m, a + b, key) == PutAll(PutAll(m, a, key), b, key)
    decreases |b|
  {
    if b == [] {
      assert a + b == a;
    } else {
      assert (a + b)[..|a + b| - 1] == a + b[..|b| - 1];
      PutAllConcat(m, a, b[..|b| - 1], key);
    }
  }

  /** A lookup finds the last item added under the key, or else what was there before. */
  lemma {:induction false} LookupIsLast<V>(m: map<string, V>, items: seq<V>, key: V -> string, k: string)
    ensures Lookup(PutAll(m, items, key), k)
         == if LastOf(items, key, k).Some? then LastOf(items, key, k) else Lookup(m, k)
    decreases |items|
  {
    if items != [] {
      LookupIsLast(m, items[..|items| - 1], key, k);
    }
  }
}
