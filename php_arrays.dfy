/**
  PHP arrays with string keys, as the transport uses them: an ordered list of
  (key, value) entries. Assigning to a key that is present overwrites its value
  where it stands; assigning to a new key appends it. `array_merge` of arrays
  with string keys is the same assignment applied to every entry in turn.
 */
module PhpArrays {
  import opened Optional

  /** The keys of an array, in order. */
  function Keys<V>(m: seq<(string, V)>): seq<string>
  {
    seq(|m|, i requires 0 <= i < |m| => m[i].0)
  }

  /** No key occurs twice -- what every PHP array satisfies. */
  predicate DistinctKeys<V>(m: seq<(string, V)>) {
    forall i, j :: 0 <= i < j < |m| ==> m[i].0 != m[j].0
  }

  /** Position of the first entry with key `k`. */
  function IndexOf<V>(m: seq<(string, V)>, k: string): (r: Option<nat>)
    ensures r.Some? ==> r.value < |m| && m[r.value].0 == k
    ensures r.Some? ==> forall i :: 0 <= i < r.value ==> m[i].0 != k
    ensures r.None? ==> forall i :: 0 <= i < |m| ==> m[i].0 != k
  {
    if |m| == 0 then None
    else if m[0].0 == k then Some(0)
    else match IndexOf(m[1..], k)
      case Some(i) => Some(i + 1)
      case None => None
  }

  /** `$m[$k]`, or None when the key is absent. */
  function Lookup<V>(m: seq<(string, V)>, k: string): Option<V>
  {
    match IndexOf(m, k)
    case Some(i) => Some(m[i].1)
    case None => None
  }

  /** `$m[$k] = $v`. */
  function Put<V>(m: seq<(string, V)>, k: string, v: V): seq<(string, V)>
  {
    match IndexOf(m, k)
    case Some(i) => m[i := (k, v)]
    case None => m + [(k, v)]
  }

  /** Assigns every entry of `kvs` to `m`, first to last. */
  function PutAll<V>(m: seq<(string, V)>, kvs: seq<(string, V)>): seq<(string, V)>
  {
    if |kvs| == 0 then m
    else
      var last := kvs[|kvs| - 1];
      Put(PutAll(m, kvs[..|kvs| - 1]), last.0, last.1)
  }

  /** Reference definition: each key once, at the position of its first occurrence. */
  function Dedup(ks: seq<string>): seq<string>
  {
    if |ks| == 0 then []
    else
      var d := Dedup(ks[..|ks| - 1]);
      if ks[|ks| - 1] in d then d else d + [ks[|ks| - 1]]
  }

  /** Reference definition: the value of the last entry with key `k`. */
  function LastValue<V>(kvs: seq<(string, V)>, k: string): Option<V>
  {
    if |kvs| == 0 then None
    else if kvs[|kvs| - 1].0 == k then Some(kvs[|kvs| - 1].1)
    else LastValue(kvs[..|kvs| - 1], k)
  }

  /** The first index of a key depends only on the keys. */
  lemma IndexOfByKeys<V>(a: seq<(string, V)>, b: seq<(string, V)>, k: string)
    requires Keys(a) == Keys(b)
    ensures IndexOf(a, k) == IndexOf(b, k)
  {
    assert |a| == |Keys(a)| == |Keys(b)| == |b|;
    assert forall i :: 0 <= i < |a| ==> a[i].0 == Keys(a)[i] == Keys(b)[i] == b[i].0;
  }

  /** The first index of a key is unchanged by appending entries. */
  lemma IndexOfAppend<V>(m: seq<(string, V)>, e: (string, V), k: string)
    requires IndexOf(m, k).Some? || e.0 != k
    ensures IndexOf(m + [e], k) == IndexOf(m, k)
  {
    var n := m + [e];
    assert forall i :: 0 <= i < |m| ==> n[i] == m[i];
  }

  /** What one assignment does to the keys and to every lookup. */
  lemma PutEffect<V>(m: seq<(string, V)>, k: string, v: V)
    ensures Keys(Put(m, k, v)) == if k in Keys(m) then Keys(m) else Keys(m) + [k]
    ensures forall k' :: Lookup(Put(m, k, v), k') == if k' == k then Some(v) else Lookup(m, k')
    ensures DistinctKeys(m) ==> DistinctKeys(Put(m, k, v))
    ensures forall e :: e in Put(m, k, v) ==> e in m || e == (k, v)
  {
    var n := Put(m, k, v);
    match IndexOf(m, k)
    case Some(i) =>
      assert Keys(m)[i] == k;
      assert Keys(n) == Keys(m);
      forall k' ensures Lookup(n, k') == if k' == k then Some(v) else Lookup(m, k') {
        IndexOfByKeys(n, m, k');
      }
    case None =>
      assert k !in Keys(m);
      assert Keys(n) == Keys(m) + [k];
      forall k' ensures Lookup(n, k') == if k' == k then Some(v) else Lookup(m, k') {
        if k' == k {
          assert n[|m|] == (k, v);
          assert IndexOf(n, k) == Some(|m|);
        } else {
          IndexOfAppend(m, (k, v), k');
        }
      }
  }

  /** Every key of `Dedup(ks)` is a key of `ks`, and no key appears twice. */
  lemma {:induction false} DedupSpec(ks: seq<string>)
    ensures forall k :: k in Dedup(ks) <==> k in ks
    ensures forall i, j :: 0 <= i < j < |Dedup(ks)| ==> Dedup(ks)[i] != Dedup(ks)[j]
    ensures |ks| > 0 ==> |Dedup(ks)| > 0
  {
    if |ks| > 0 {
      var init := ks[..|ks| - 1];
      DedupSpec(init);
      assert ks == init + [ks[|ks| - 1]];
    }
  }

  /**
    `array_merge` semantics: assigning every entry of `kvs` to an empty array
    yields distinct keys in the order of their first occurrence, each with the
    value of its last occurrence, and no entry that was not in `kvs`.
   */
  lemma {:induction false} PutAllFromEmpty<V>(kvs: seq<(string, V)>)
    ensures DistinctKeys(PutAll([], kvs))
    ensures Keys(PutAll([], kvs)) == Dedup(Keys(kvs))
    ensures forall k :: Lookup(PutAll([], kvs), k) == LastValue(kvs, k)
    ensures forall e :: e in PutAll([], kvs) ==> e in kvs
    decreases |kvs|
  {
    if |kvs| > 0 {
      var init := kvs[..|kvs| - 1];
      var last := kvs[|kvs| - 1];
      PutAllFromEmpty(init);
      var m := PutAll([], init);
      PutEffect(m, last.0, last.1);
      assert Keys(kvs)[..|kvs| - 1] == Keys(init);
      assert Keys(kvs)[|kvs| - 1] == last.0;
      forall e | e in PutAll([], kvs) ensures e in kvs {
        assert e in m ==> e in init;
        assert e in init ==> e in kvs;
      }
    }
  }

  /** An array whose keys are already distinct is copied unchanged. */
  lemma {:induction false} PutAllDistinct<V>(kvs: seq<(string, V)>)
    requires DistinctKeys(kvs)
    ensures PutAll([], kvs) == kvs
    decreases |kvs|
  {
    if |kvs| > 0 {
      var init := kvs[..|kvs| - 1];
      var last := kvs[|kvs| - 1];
      PutAllDistinct(init);
      assert IndexOf(init, last.0).None?;
      assert init + [last] == kvs;
    }
  }

  /** Assigning a key that none of `kvs` has appends it after the merge of `kvs`. */
  lemma PutAllAppendNew<V>(kvs: seq<(string, V)>, k: string, v: V)
    requires forall e :: e in kvs ==> e.0 != k
    ensures PutAll([], kvs + [(k, v)]) == PutAll([], kvs) + [(k, v)]
  {
    var all := kvs + [(k, v)];
    assert all[..|all| - 1] == kvs;
    PutAllFromEmpty(kvs);
    var m := PutAll([], kvs);
    assert forall i :: 0 <= i < |m| ==> m[i] in m;
    assert IndexOf(m, k).None?;
  }
}
