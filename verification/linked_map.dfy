/** `java.util.LinkedHashMap` as the parsers use it: a list of entries with
    distinct keys in insertion order. Re-inserting a present key keeps its
    position and replaces its value. */
module LinkedMap {
  import opened Results

  type Entries<K, V> = seq<(K, V)>

  function Keys<K, V>(m: Entries<K, V>): (ks: seq<K>)
    ensures |ks| == |m| && forall i :: 0 <= i < |m| ==> ks[i] == m[i].0
  {
    seq(|m|, i requires 0 <= i < |m| => m[i].0)
  }

  ghost predicate Distinct<K>(ks: seq<K>) {
    forall i, j :: 0 <= i < j < |ks| ==> ks[i] != ks[j]
  }

  ghost predicate Valid<K, V>(m: Entries<K, V>) {
    Distinct(Keys(m))
  }

  /** `map.get(k)`: the value stored under `k`, or null. */
  function Get<K(==), V>(m: Entries<K, V>, k: K): (r: Option<V>)
    ensures r.None? <==> k !in Keys(m)
    ensures r.Some? ==> exists i :: 0 <= i < |m| && m[i] == (k, r.value)
    ensures Valid(m) ==> forall i :: 0 <= i < |m| && m[i].0 == k ==> r == Some(m[i].1)
  {
    if k in Keys(m) then Some(m[FirstIndex(Keys(m), k)].1) else None
  }

  /** `map.put(k, v)`: a present key keeps its slot and takes the new value,
      a new key goes last. */
  function Put<K(==,!new), V>(m: Entries<K, V>, k: K, v: V): (r: Entries<K, V>)
    ensures Keys(r) == if k in Keys(m) then Keys(m) else Keys(m) + [k]
    ensures Valid(m) ==> Valid(r)
    ensures Get(r, k) == Some(v)
    ensures forall k' :: k' != k ==> Get(r, k') == Get(m, k')
  {
    if k in Keys(m) then
      var i := FirstIndex(Keys(m), k);
      var r := m[i := (k, v)];
      assert Keys(r) == Keys(m);
      r
    else
      var r := m + [(k, v)];
      assert Keys(r) == Keys(m) + [k];
      forall k' | k' in Keys(m) ensures FirstIndex(Keys(r), k') == FirstIndex(Keys(m), k') {
        FirstIndexOfExtension(Keys(m), k, k');
      }
      r
  }

  /** The map left by putting every pair, in order, into an empty map. */
  function FromPairs<K(==,!new), V>(ps: seq<(K, V)>): Entries<K, V>
  {
    if |ps| == 0 then [] else Put(FromPairs(ps[..|ps| - 1]), ps[|ps| - 1].0, ps[|ps| - 1].1)
  }

  /** Putting one more pair is one more `put`. */
  lemma FromPairsSnoc<K(!new), V>(ps: seq<(K, V)>, p: (K, V))
    ensures FromPairs(ps + [p]) == Put(FromPairs(ps), p.0, p.1)
  {
    assert (ps + [p])[..|ps|] == ps;
  }

  /** Position of the first pair whose key is `k`. */
  function FirstIndex<K(==)>(ks: seq<K>, k: K): (i: nat)
    requires k in ks
    ensures i < |ks| && ks[i] == k && forall t :: 0 <= t < i ==> ks[t] != k
  {
    if ks[0] == k then 0 else 1 + FirstIndex(ks[1..], k)
  }

  lemma FirstIndexOfExtension<K>(ks: seq<K>, x: K, k: K)
    requires k in ks
    ensures k in ks + [x] && FirstIndex(ks + [x], k) == FirstIndex(ks, k)
  {
    var i := FirstIndex(ks, k);
    assert (ks + [x])[i] == k;
  }

  /** The keys of all pairs but the last, and the last key. */
  lemma KeysOfInit<K, V>(ps: seq<(K, V)>)
    requires |ps| > 0
    ensures Keys(ps[..|ps| - 1]) == Keys(ps)[..|ps| - 1]
    ensures Keys(ps) == Keys(ps[..|ps| - 1]) + [ps[|ps| - 1].0]
  {
  }

  /** `ks` lists keys of `ref` in the order of their first occurrence there. */
  ghost predicate InFirstOccurrenceOrder<K>(ks: seq<K>, ref: seq<K>) {
    (forall i :: 0 <= i < |ks| ==> ks[i] in ref) &&
    forall i, j :: 0 <= i < j < |ks| ==> FirstIndex(ref, ks[i]) < FirstIndex(ref, ks[j])
  }

  lemma {:induction false} FromPairsKeySet<K(!new), V>(ps: seq<(K, V)>)
    ensures Valid(FromPairs(ps))
    ensures forall k :: k in Keys(FromPairs(ps)) <==> k in Keys(ps)
  {
    if |ps| > 0 {
      FromPairsKeySet(ps[..|ps| - 1]);
      KeysOfInit(ps);
    }
  }

  /** Putting `ps` gives one entry per distinct key, in the order in which
      each key first occurs in `ps`. */
  lemma {:induction false} FromPairsKeys<K(!new), V>(ps: seq<(K, V)>)
    ensures Valid(FromPairs(ps))
    ensures forall k :: k in Keys(FromPairs(ps)) <==> k in Keys(ps)
    ensures InFirstOccurrenceOrder(Keys(FromPairs(ps)), Keys(ps))
  {
    FromPairsKeySet(ps);
    if |ps| > 0 {
      var init := ps[..|ps| - 1];
      var p := ps[|ps| - 1];
      FromPairsKeys(init);
      KeysOfInit(ps);
      var m := FromPairs(init);
      var r := FromPairs(ps);
      assert r == Put(m, p.0, p.1);
      assert Keys(r) == if p.0 in Keys(m) then Keys(m) else Keys(m) + [p.0];
      KeysAfterPut(Keys(m), Keys(r), Keys(init), Keys(ps), p.0);
    }
  }

  /** One `put` of key `x` keeps the keys in first-occurrence order. */
  lemma KeysAfterPut<K>(before: seq<K>, after: seq<K>, ref: seq<K>, ref': seq<K>, x: K)
    requires forall k :: k in before <==> k in ref
    requires InFirstOccurrenceOrder(before, ref)
    requires after == if x in before then before else before + [x]
    requires ref' == ref + [x]
    ensures InFirstOccurrenceOrder(after, ref')
  {
    OrderExtends(before, ref, x);
  }

  /** Appending a key to the reference keeps the order of the keys already
      listed, and a key new to the reference may be listed last. */
  lemma OrderExtends<K>(ks: seq<K>, ref: seq<K>, x: K)
    requires InFirstOccurrenceOrder(ks, ref)
    ensures InFirstOccurrenceOrder(ks, ref + [x])
    ensures x !in ref ==> InFirstOccurrenceOrder(ks + [x], ref + [x])
  {
    forall k | k in ref ensures k in ref + [x] && FirstIndex(ref + [x], k) == FirstIndex(ref, k) {
      FirstIndexOfExtension(ref, x, k);
    }
    if x !in ref {
      var ks' := ks + [x];
      assert (ref + [x])[|ref|] == x;
      assert FirstIndex(ref + [x], x) == |ref|;
      forall i, j | 0 <= i < j < |ks'|
        ensures ks'[i] in ref + [x] && ks'[j] in ref + [x] &&
          FirstIndex(ref + [x], ks'[i]) < FirstIndex(ref + [x], ks'[j])
      {
        assert ks'[i] == ks[i];
        if j < |ks| {
          assert ks'[j] == ks[j];
        }
      }
    }
  }

  /** Each key ends up with the value of the LAST pair that carries it. */
  lemma {:induction false} FromPairsGet<K(!new), V>(ps: seq<(K, V)>, k: K, i: nat)
    requires i < |ps| && ps[i].0 == k
    requires forall j :: i < j < |ps| ==> ps[j].0 != k
    ensures Get(FromPairs(ps), k) == Some(ps[i].1)
  {
    if i < |ps| - 1 {
      FromPairsGet(ps[..|ps| - 1], k, i);
    }
  }

  /** A key that no pair carries is absent. */
  lemma {:induction false} FromPairsGetAbsent<K(!new), V>(ps: seq<(K, V)>, k: K)
    requires k !in Keys(ps)
    ensures Get(FromPairs(ps), k) == None
  {
    if |ps| > 0 {
      KeysOfInit(ps);
      FromPairsGetAbsent(ps[..|ps| - 1], k);
    }
  }

  /** The map has at most one entry per pair, exactly one when all keys are
      distinct; in that case it is the pair list itself. */
  lemma {:induction false} FromPairsSize<K(!new), V>(ps: seq<(K, V)>)
    ensures |FromPairs(ps)| <= |ps|
    ensures Distinct(Keys(ps)) ==> FromPairs(ps) == ps
  {
    if |ps| > 0 {
      var init := ps[..|ps| - 1];
      FromPairsSize(init);
      KeysOfInit(ps);
      if Distinct(Keys(ps)) {
        assert Distinct(Keys(init));
        assert ps[|ps| - 1].0 !in Keys(init);
        assert FromPairs(init) == init;
        assert Keys(FromPairs(init)) == Keys(init);
        assert init + [ps[|ps| - 1]] == ps;
      }
    }
  }
}
