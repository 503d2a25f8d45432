/** Sequence and map helpers shared by the model. */
module Seqs {

  /** Concatenation of a sequence of sequences, built from the back so that appending one
      more part extends the result by exactly that part. */
  function Flatten<T>(parts: seq<seq<T>>): seq<T>
  {
    if |parts| == 0 then [] else Flatten(parts[..|parts| - 1]) + parts[|parts| - 1]
  }

  lemma FlattenAppend<T>(parts: seq<seq<T>>, last: seq<T>)
    ensures Flatten(parts + [last]) == Flatten(parts) + last
  {
    assert (parts + [last])[..|parts|] == parts;
  }

  /** No element occurs twice. */
  predicate Distinct<T(==)>(s: seq<T>)
  {
    forall i, j :: 0 <= i < j < |s| ==> s[i] != s[j]
  }

  /** A database insert keyed on a primary key: a row whose key is already present is not
      inserted (the failed statement is ignored), otherwise it is added. */
  function PutIfAbsent<K, V>(m: map<K, V>, k: K, v: V): map<K, V>
  {
    if k in m then m else m[k := v]
  }

  /** The keys of a sequence of key/value pairs. */
  function Keys<K, V>(kvs: seq<(K, V)>): seq<K>
  {
    seq(|kvs|, i requires 0 <= i < |kvs| => kvs[i].0)
  }

  /** The set of keys of a sequence of key/value pairs. */
  function KeySet<K, V>(kvs: seq<(K, V)>): set<K>
    decreases |kvs|
  {
    if |kvs| == 0 then {} else {kvs[0].0} + KeySet(kvs[1..])
  }

  /** Inserting the pairs one after another, in order. */
  function PutAll<K, V>(m: map<K, V>, kvs: seq<(K, V)>): map<K, V>
    decreases |kvs|
  {
    if |kvs| == 0 then m else PutAll(PutIfAbsent(m, kvs[0].0, kvs[0].1), kvs[1..])
  }

  /** When every key is new and no key repeats, inserting one after another adds every pair
      and leaves every old entry alone. */
  lemma {:induction false} PutAllFresh<K, V>(m: map<K, V>, kvs: seq<(K, V)>)
    requires Distinct(Keys(kvs))
    requires forall i :: 0 <= i < |kvs| ==> kvs[i].0 !in m
    ensures PutAll(m, kvs).Keys == m.Keys + KeySet(kvs)
    ensures forall i :: 0 <= i < |kvs| ==> kvs[i].0 in PutAll(m, kvs) && PutAll(m, kvs)[kvs[i].0] == kvs[i].1
    ensures forall k :: k in m ==> PutAll(m, kvs)[k] == m[k]
    decreases |kvs|
  {
    if |kvs| > 0 {
      var m1 := PutIfAbsent(m, kvs[0].0, kvs[0].1);
      assert m1 == m[kvs[0].0 := kvs[0].1];
      var rest := kvs[1..];
      assert Keys(rest) == Keys(kvs)[1..];
      forall i | 0 <= i < |rest| ensures rest[i].0 !in m1 {
        assert rest[i] == kvs[i + 1];
        assert Keys(kvs)[0] != Keys(kvs)[i + 1];
      }
      PutAllFresh(m1, rest);
      var r := PutAll(m, kvs);
      assert r == PutAll(m1, rest);
      forall i | 0 <= i < |kvs| ensures kvs[i].0 in r && r[kvs[i].0] == kvs[i].1 {
        if i > 0 { assert rest[i - 1] == kvs[i]; }
      }
    }
  }

  /** The key set holds exactly the keys of the pairs. */
  lemma {:induction false} KeySetMembers<K, V>(kvs: seq<(K, V)>)
    ensures forall k :: k in KeySet(kvs) <==> exists i :: 0 <= i < |kvs| && kvs[i].0 == k
    decreases |kvs|
  {
    if |kvs| > 0 {
      KeySetMembers(kvs[1..]);
      assert forall i :: 1 <= i < |kvs| ==> kvs[i] == kvs[1..][i - 1];
    }
  }

  /** Inserting never drops or changes an entry already present. */
  lemma {:induction false} PutAllKeeps<K, V>(m: map<K, V>, kvs: seq<(K, V)>)
    ensures forall k :: k in m ==> k in PutAll(m, kvs) && PutAll(m, kvs)[k] == m[k]
    decreases |kvs|
  {
    if |kvs| > 0 {
      PutAllKeeps(PutIfAbsent(m, kvs[0].0, kvs[0].1), kvs[1..]);
    }
  }
}
