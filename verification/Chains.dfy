/** Chained hash tables: an array of buckets, each a list of entries, newest first. */
module Chains {
  import opened Common

  datatype Entry<K, V> = Entry(key: K, value: V)

  type Chain<K, V> = seq<Entry<K, V>>

  // ----- One chain -----

  function Lookup<K(==), V>(chain: Chain<K, V>, key: K): Option<V> {
    if chain == [] then None
    else if chain[0].key == key then Some(chain[0].value)
    else Lookup(chain[1..], key)
  }

  /** Replaces the value of a key that is there; otherwise puts a new entry in front. */
  function Store<K(==), V>(chain: Chain<K, V>, key: K, value: V): Chain<K, V> {
    if Lookup(chain, key).None? then [Entry(key, value)] + chain else Replace(chain, key, value)
  }

  function Replace<K(==), V>(chain: Chain<K, V>, key: K, value: V): (r: Chain<K, V>)
    ensures |r| == |chain|
  {
    if chain == [] then []
    else if chain[0].key == key then [Entry(key, value)] + chain[1..]
    else [chain[0]] + Replace(chain[1..], key, value)
  }

  function Sum<K, V>(f: V -> nat, chain: Chain<K, V>): nat {
    if chain == [] then 0 else f(chain[0].value) + Sum(f, chain[1..])
  }

  function At<V>(f: V -> nat, o: Option<V>): nat {
    if o.Some? then f(o.value) else 0
  }

  lemma {:induction false} ReplaceLookup<K, V>(chain: Chain<K, V>, key: K, value: V, k: K)
    requires Lookup(chain, key).Some?
    ensures Lookup(Replace(chain, key, value), k) == if k == key then Some(value) else Lookup(chain, k)
  {
    if chain[0].key == key {
    } else {
      ReplaceLookup(chain[1..], key, value, k);
    }
  }

  lemma {:induction false} ReplaceSum<K, V>(f: V -> nat, chain: Chain<K, V>, key: K, value: V)
    requires Lookup(chain, key).Some?
    ensures Sum(f, Replace(chain, key, value)) == Sum(f, chain) - f(Lookup(chain, key).value) + f(value)
  {
    if chain[0].key == key {
    } else {
      ReplaceSum(f, chain[1..], key, value);
    }
  }

  lemma {:induction false} StoreLookup<K, V>(chain: Chain<K, V>, key: K, value: V, k: K)
    ensures Lookup(Store(chain, key, value), k) == if k == key then Some(value) else Lookup(chain, k)
  {
    if Lookup(chain, key).Some? {
      ReplaceLookup(chain, key, value, k);
    } else {
      assert ([Entry(key, value)] + chain)[1..] == chain;
    }
  }

  lemma {:induction false} StoreSum<K, V>(f: V -> nat, chain: Chain<K, V>, key: K, value: V)
    ensures Sum(f, Store(chain, key, value)) == Sum(f, chain) - At(f, Lookup(chain, key)) + f(value)
  {
    if Lookup(chain, key).Some? {
      ReplaceSum(f, chain, key, value);
    } else {
      assert ([Entry(key, value)] + chain)[1..] == chain;
    }
  }

  lemma {:induction false} LookupSum<K, V>(f: V -> nat, chain: Chain<K, V>, key: K)
    ensures At(f, Lookup(chain, key)) <= Sum(f, chain)
  {
    if chain == [] || chain[0].key == key {
    } else {
      LookupSum(f, chain[1..], key);
    }
  }

  /** The first entry with the key decides both what is found and what is replaced. */
  lemma {:induction false} FirstDecides<K, V>(chain: Chain<K, V>, key: K, i: nat)
    requires i <= |chain| && forall j :: 0 <= j < i ==> chain[j].key != key
    requires i < |chain| ==> chain[i].key == key
    ensures Lookup(chain, key) == if i < |chain| then Some(chain[i].value) else None
    ensures i < |chain| ==> forall v :: Replace(chain, key, v) == chain[i := Entry(key, v)]
  {
    if i == 0 {
    } else {
      FirstDecides(chain[1..], key, i - 1);
    }
  }

  /** Walks the chain to the entry with the key; returns the chain's length if there is none. */
  method Find<K(==), V>(chain: Chain<K, V>, key: K) returns (i: nat)
    ensures i <= |chain|
    ensures Lookup(chain, key) == if i < |chain| then Some(chain[i].value) else None
    ensures i < |chain| ==> forall v :: Replace(chain, key, v) == chain[i := Entry(key, v)]
  {
    i := 0;
    while i < |chain| && chain[i].key != key
      invariant i <= |chain| && forall j :: 0 <= j < i ==> chain[j].key != key
    {
      i := i + 1;
    }
    FirstDecides(chain, key, i);
  }

  lemma {:induction false} SumUpdate<K, V>(f: V -> nat, chain: Chain<K, V>, i: nat, e: Entry<K, V>)
    requires i < |chain|
    ensures Sum(f, chain[i := e]) == Sum(f, chain) - f(chain[i].value) + f(e.value)
    ensures f(chain[i].value) <= Sum(f, chain)
  {
    if i > 0 {
      SumUpdate(f, chain[1..], i - 1, e);
      assert chain[i := e][1..] == chain[1..][i - 1 := e];
    } else {
      assert chain[0 := e][1..] == chain[1..];
    }
  }

  // ----- The whole table -----

  function Total<K, V>(f: V -> nat, buckets: seq<Chain<K, V>>): nat {
    if buckets == [] then 0 else Sum(f, buckets[0]) + Total(f, buckets[1..])
  }

  lemma {:induction false} TotalUpdate<K, V>(f: V -> nat, buckets: seq<Chain<K, V>>, b: nat, chain: Chain<K, V>)
    requires b < |buckets|
    ensures Total(f, buckets[b := chain]) == Total(f, buckets) - Sum(f, buckets[b]) + Sum(f, chain)
    ensures Sum(f, buckets[b]) <= Total(f, buckets)
  {
    if b > 0 {
      TotalUpdate(f, buckets[1..], b - 1, chain);
      assert buckets[b := chain][1..] == buckets[1..][b - 1 := chain];
    } else {
      assert buckets[0 := chain][1..] == buckets[1..];
    }
  }

  lemma {:induction false} TotalEmpty<K, V>(f: V -> nat, buckets: seq<Chain<K, V>>)
    requires forall b :: 0 <= b < |buckets| ==> buckets[b] == []
    ensures Total(f, buckets) == 0
  {
    if buckets == [] {
    } else {
      TotalEmpty(f, buckets[1..]);
    }
  }

  // ----- Reading and writing one key of the table -----

  function Slot<K>(hash: K -> nat, count: nat, key: K): (b: nat)
    requires count > 0
    ensures b < count
  {
    hash(key) % count
  }

  function LookupIn<K(==), V>(hash: K -> nat, buckets: seq<Chain<K, V>>, key: K): Option<V>
    requires |buckets| > 0
  {
    Lookup(buckets[Slot(hash, |buckets|, key)], key)
  }

  function StoreIn<K(==), V>(hash: K -> nat, buckets: seq<Chain<K, V>>, key: K, value: V): seq<Chain<K, V>>
    requires |buckets| > 0
  {
    var b := Slot(hash, |buckets|, key);
    buckets[b := Store(buckets[b], key, value)]
  }

  lemma StoreInLookup<K, V>(hash: K -> nat, buckets: seq<Chain<K, V>>, key: K, value: V, other: K)
    requires |buckets| > 0
    ensures LookupIn(hash, StoreIn(hash, buckets, key, value), other) ==
            if other == key then Some(value) else LookupIn(hash, buckets, other)
  {
    StoreLookup(buckets[Slot(hash, |buckets|, key)], key, value, other);
  }

  /** Storing a value moves a total by the difference to what the key had before. */
  lemma {:induction false} StoreInTotal<K, V>(f: V -> nat, hash: K -> nat, buckets: seq<Chain<K, V>>, key: K, value: V)
    requires |buckets| > 0
    ensures Total(f, StoreIn(hash, buckets, key, value)) ==
            Total(f, buckets) - At(f, LookupIn(hash, buckets, key)) + f(value)
    ensures At(f, LookupIn(hash, buckets, key)) <= Total(f, buckets)
  {
    var b := Slot(hash, |buckets|, key);
    TotalUpdate(f, buckets, b, Store(buckets[b], key, value));
    StoreSum(f, buckets[b], key, value);
    LookupSum(f, buckets[b], key);
  }

  /** Finds the key's entry and changes it in place, or puts a new entry at the head of its chain. */
  method Upsert<K(==, !new), V>(hash: K -> nat, buckets: seq<Chain<K, V>>, key: K, value: V)
    returns (after: seq<Chain<K, V>>)
    requires |buckets| > 0
    ensures after == StoreIn(hash, buckets, key, value)
    ensures forall other :: LookupIn(hash, after, other) ==
                            if other == key then Some(value) else LookupIn(hash, buckets, other)
  {
    var b := Slot(hash, |buckets|, key);
    var i := Find(buckets[b], key);
    after := buckets[b := if i < |buckets[b]| then buckets[b][i := Entry(key, value)] else [Entry(key, value)] + buckets[b]];
    assert after == StoreIn(hash, buckets, key, value);
    forall other {
      StoreInLookup(hash, buckets, key, value, other);
    }
  }
}
