/** Insertion-ordered dictionaries.

    A JavaScript `Map`, and a plain object whose keys are not array indices,
    enumerate their keys in first-insertion order, and assigning to an
    existing key keeps its position. Every map the source builds (price maps,
    quantity records, aggregation maps) is modelled by this one type. */
module Assoc {
  import opened Wrappers

  type Assoc<K, V> = seq<(K, V)>

  /** Keys in enumeration order (`Object.keys`, `Map.prototype.keys`). */
  function KeyList<K(==,!new), V>(a: Assoc<K, V>): (r: seq<K>)
    ensures |r| == |a|
    ensures forall i :: 0 <= i < |a| ==> r[i] == a[i].0
  {
    if |a| == 0 then [] else [a[0].0] + KeyList(a[1..])
  }

  /** Values in enumeration order (`Array.from(m.values())`). */
  function Values<K(==,!new), V>(a: Assoc<K, V>): (r: seq<V>)
    ensures |r| == |a|
    ensures forall i :: 0 <= i < |a| ==> r[i] == a[i].1
  {
    if |a| == 0 then [] else [a[0].1] + Values(a[1..])
  }

  function Keys<K(==,!new), V>(a: Assoc<K, V>): set<K>
  {
    if |a| == 0 then {} else {a[0].0} + Keys(a[1..])
  }

  /** No key occurs twice. */
  ghost predicate UniqueKeys<K(!new), V>(a: Assoc<K, V>)
  {
    |a| == 0 || (a[0].0 !in Keys(a[1..]) && UniqueKeys(a[1..]))
  }

  /** Lookup (`m.get(k)`, `obj[k]`): the first entry with key `k`. */
  function Get<K(==,!new), V>(a: Assoc<K, V>, k: K): (r: Option<V>)
    ensures r.Some? <==> k in Keys(a)
  {
    if |a| == 0 then None
    else if a[0].0 == k then Some(a[0].1)
    else Get(a[1..], k)
  }

  /** Assignment (`m.set(k, v)`, `{...obj, [k]: v}`): an existing key keeps its
      position and gets the new value; a new key goes to the end. */
  function Set<K(==,!new), V>(a: Assoc<K, V>, k: K, v: V): (r: Assoc<K, V>)
    ensures Get(r, k) == Some(v)
    ensures forall j :: j != k ==> Get(r, j) == Get(a, j)
    ensures Keys(r) == Keys(a) + {k}
    ensures KeyList(r) == if k in Keys(a) then KeyList(a) else KeyList(a) + [k]
    ensures UniqueKeys(a) ==> UniqueKeys(r)
  {
    if |a| == 0 then [(k, v)]
    else if a[0].0 == k then [(k, v)] + a[1..]
    else [a[0]] + Set(a[1..], k, v)
  }

  /** The value of the last entry with key `k`, searching from the end. */
  function LastValue<K(==,!new), V>(es: seq<(K, V)>, k: K): Option<V>
  {
    if |es| == 0 then None
    else if es[|es| - 1].0 == k then Some(es[|es| - 1].1)
    else LastValue(es[..|es| - 1], k)
  }

  /** `new Map(entries)` and the `reduce((acc, e) => { acc[e.k] = e.v; ... }, {})`
      idiom: the entries assigned left to right. */
  function FromEntries<K(==,!new), V>(es: seq<(K, V)>): (r: Assoc<K, V>)
    ensures UniqueKeys(r)
    ensures forall k :: Get(r, k) == LastValue(es, k)
  {
    if |es| == 0 then []
    else Set(FromEntries(es[..|es| - 1]), es[|es| - 1].0, es[|es| - 1].1)
  }

  lemma {:induction false} GetOfUnique<K(!new), V>(a: Assoc<K, V>, i: nat)
    requires UniqueKeys(a)
    requires i < |a|
    ensures Get(a, a[i].0) == Some(a[i].1)
  {
    if i > 0 {
      GetOfUnique(a[1..], i - 1);
      KeyListKeys(a[1..], i - 1);
      assert a[0].0 != a[i].0;
    }
  }

  lemma {:induction false} KeyListKeys<K(!new), V>(a: Assoc<K, V>, i: nat)
    requires i < |a|
    ensures a[i].0 in Keys(a)
  {
    if i > 0 {
      KeyListKeys(a[1..], i - 1);
    }
  }

  /** With unique keys, two positions never hold the same key. */
  lemma {:induction false} UniqueKeysDistinct<K(!new), V>(a: Assoc<K, V>, i: nat, j: nat)
    requires UniqueKeys(a) && i < j < |a|
    ensures a[i].0 != a[j].0
  {
    if i == 0 {
      KeyListKeys(a[1..], j - 1);
    } else {
      UniqueKeysDistinct(a[1..], i - 1, j - 1);
    }
  }

  lemma UniqueKeysDistinctAll<K(!new), V>(a: Assoc<K, V>)
    requires UniqueKeys(a)
    ensures forall i, j :: 0 <= i < j < |a| ==> a[i].0 != a[j].0
  {
    forall i, j | 0 <= i < j < |a|
      ensures a[i].0 != a[j].0
    {
      UniqueKeysDistinct(a, i, j);
    }
  }

  /** With distinct keys, the last entry for a key is also the first. */
  lemma {:induction false} LastValueOfUnique<K(!new), V>(a: Assoc<K, V>, k: K)
    requires UniqueKeys(a)
    ensures LastValue(a, k) == Get(a, k)
  {
    if |a| > 0 {
      var n := |a| - 1;
      UniqueKeysPrefix(a);
      LastValueOfUnique(a[..n], k);
      if a[n].0 == k {
        GetOfUnique(a, n);
      } else {
        GetPrefix(a, k);
      }
    }
  }

  lemma {:induction false} UniqueKeysPrefix<K(!new), V>(a: Assoc<K, V>)
    requires UniqueKeys(a)
    requires |a| > 0
    ensures UniqueKeys(a[..|a| - 1])
    ensures Keys(a) == Keys(a[..|a| - 1]) + {a[|a| - 1].0}
    ensures a[|a| - 1].0 !in Keys(a[..|a| - 1])
  {
    if |a| > 1 {
      UniqueKeysPrefix(a[1..]);
      assert a[1..][..|a[1..]| - 1] == a[..|a| - 1][1..];
    }
  }

  lemma {:induction false} GetPrefix<K(!new), V>(a: Assoc<K, V>, k: K)
    requires |a| > 0
    requires a[|a| - 1].0 != k
    ensures Get(a, k) == Get(a[..|a| - 1], k)
  {
    if |a| > 1 && a[0].0 != k {
      GetPrefix(a[1..], k);
      assert a[1..][..|a[1..]| - 1] == a[..|a| - 1][1..];
    }
  }

  /** Rebuilding a map from its own entries gives the same map: the client's
      `new Map(list.map(...))` over a list with distinct keys loses nothing. */
  lemma {:induction false} FromEntriesOfUnique<K(!new), V>(a: Assoc<K, V>)
    requires UniqueKeys(a)
    ensures FromEntries(a) == a
  {
    if |a| > 0 {
      UniqueKeysPrefix(a);
      FromEntriesOfUnique(a[..|a| - 1]);
      SetLastEntry(a);
    }
  }

  /** Assigning the last entry to the rest of a list gives back the list,
      when the rest does not hold its key. */
  lemma SetLastEntry<K(!new), V>(a: Assoc<K, V>)
    requires |a| > 0 && a[|a| - 1].0 !in Keys(a[..|a| - 1])
    ensures Set(a[..|a| - 1], a[|a| - 1].0, a[|a| - 1].1) == a
  {
    var n := |a| - 1;
    SetAppends(a[..n], a[n].0, a[n].1);
    assert (a[n].0, a[n].1) == a[n];
    SnocLast(a);
  }

  lemma ConsAppend<T>(a: seq<T>, t: seq<T>)
    requires |a| > 0
    ensures [a[0]] + (a[1..] + t) == a + t
  {
  }

  lemma SnocLast<T>(a: seq<T>)
    requires |a| > 0
    ensures a[..|a| - 1] + [a[|a| - 1]] == a
  {
  }

  lemma {:induction false} SetAppends<K(!new), V>(a: Assoc<K, V>, k: K, v: V)
    requires k !in Keys(a)
    ensures Set(a, k, v) == a + [(k, v)]
  {
    if |a| > 0 {
      SetAppends(a[1..], k, v);
      ConsAppend(a, [(k, v)]);
    }
  }
}
