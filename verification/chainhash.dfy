/**
 * The separate-chaining hash table ChainHash<TK, TV>.
 *
 * The table keeps an array of chains, a parallel array of per-bucket counts,
 * the number of entries and the number of occupied buckets. The key hash
 * (std::hash in chainhash.h) is the parameter `hash` of every operation.
 * Every operation is specified against `Contents`, the key-to-value map the
 * chains denote.
 */
module ChainHash {
  import opened Wrappers
  import opened Chains
  import opened Counters

  /** A bucket holding more entries than this after an insertion triggers a rehash. */
  const MaxCollision: int := 3

  /** Capacity of a table built without an explicit one. */
  const DefaultCapacity: int := 10

  /** The two exceptions the table raises. */
  datatype Error = KeyNotFound | IndexOutOfRange

  datatype Table<K, V> = Table(
    capacity: int,
    chains: seq<Chain<K, V>>,
    bucketSizes: seq<int>,
    nsize: int,
    usedBuckets: int)

  /** The arrays are as long as the capacity, which is positive. */
  ghost predicate Shaped<K, V>(t: Table<K, V>)
  {
    && t.capacity > 0
    && |t.chains| == t.capacity
    && |t.bucketSizes| == t.capacity
  }

  /** The counters agree with the chains. */
  ghost predicate Counted<K, V>(t: Table<K, V>)
  {
    && Shaped(t)
    && (forall i :: 0 <= i < t.capacity ==> t.bucketSizes[i] == |t.chains[i]|)
    && t.nsize == Sum(t.bucketSizes)
    && t.usedBuckets == CountUsed(t.bucketSizes)
  }

  /** Every entry caches its key's hash and sits in bucket `hashcode % capacity`. */
  ghost predicate Placed<K, V>(hash: K -> nat, t: Table<K, V>)
  {
    && t.capacity > 0
    && forall i, e :: 0 <= i < |t.chains| && e in t.chains[i] ==>
      e.hashcode == hash(e.key) && e.hashcode % t.capacity == i
  }

  /** The invariant every table reachable through the operations keeps. */
  ghost predicate Valid<K, V>(hash: K -> nat, t: Table<K, V>)
  {
    && Counted(t)
    && Placed(hash, t)
    && (forall i :: 0 <= i < |t.chains| ==> DistinctKeys(t.chains[i]))
  }

  /** The key-to-value map the table stands for. */
  ghost function Contents<K, V>(t: Table<K, V>): map<K, V>
  {
    MapOf(Flatten(t.chains))
  }

  /** Both sides describe the same partial map. */
  ghost predicate Agrees<K, V>(r: Option<V>, m: map<K, V>, k: K)
  {
    r == if k in m then Some(m[k]) else None
  }

  /** `capacity` buckets, all empty. */
  function EmptyTable<K, V>(capacity: int): (t: Table<K, V>)
    requires capacity > 0
  {
    Table(capacity, seq(capacity, _ => []), seq(capacity, _ => 0), 0, 0)
  }

  /** The constructor: an empty table with the requested number of buckets. */
  function Create<K, V>(hash: K -> nat, initialCapacity: int := DefaultCapacity): (t: Table<K, V>)
    requires initialCapacity > 0
    ensures Valid(hash, t)
    ensures Contents(t) == map[]
    ensures t.capacity == initialCapacity
    ensures t.nsize == 0
  {
    var t := EmptyTable(initialCapacity);
    EmptyTableValid(hash, t);
    t
  }

  lemma EmptyTableValid<K, V>(hash: K -> nat, t: Table<K, V>)
    requires t.capacity > 0
    requires t == EmptyTable(t.capacity)
    ensures Valid(hash, t)
    ensures Contents(t) == map[]
    ensures t.nsize == 0
  {
    ZerosCount(t.capacity);
    assert SumLengths(t.chains) == 0 by {
      SumLengthsOfEmpty(t.chains);
    }
  }

  lemma {:induction false} SumLengthsOfEmpty<K, V>(cs: seq<Chain<K, V>>)
    requires forall i :: 0 <= i < |cs| ==> cs[i] == []
    ensures SumLengths(cs) == 0
  {
    if cs != [] {
      SumLengthsOfEmpty(cs[1..]);
    }
  }

  /** Bucket of key `k`. */
  function BucketOf<K, V>(hash: K -> nat, t: Table<K, V>, k: K): (i: nat)
    requires t.capacity > 0
    ensures i < t.capacity
  {
    hash(k) % t.capacity
  }

  /**
   * The hash-directed scan of one bucket agrees with the whole map: only
   * the key's own bucket can hold it.
   */
  lemma LookupAgrees<K, V>(hash: K -> nat, t: Table<K, V>, k: K)
    requires Valid(hash, t)
    ensures Agrees(Find(t.chains[BucketOf(hash, t, k)], k), Contents(t), k)
  {
    FindInFlatten(t.chains, BucketOf(hash, t, k), k);
    FindIsMapOf(Flatten(t.chains), k);
  }

  /** A valid table whose every bucket scan agrees with `m` stands for `m`. */
  lemma ContentsByLookup<K(!new), V>(hash: K -> nat, t: Table<K, V>, m: map<K, V>)
    requires Valid(hash, t)
    requires forall k :: Agrees(Find(t.chains[BucketOf(hash, t, k)], k), m, k)
    ensures Contents(t) == m
  {
    var c := Contents(t);
    forall k ensures k in c <==> k in m {
      LookupAgrees(hash, t, k);
      assert Agrees(Find(t.chains[BucketOf(hash, t, k)], k), m, k);
    }
    forall k | k in m ensures c[k] == m[k] {
      LookupAgrees(hash, t, k);
      assert Agrees(Find(t.chains[BucketOf(hash, t, k)], k), m, k);
    }
    assert forall k :: k in c.Keys <==> k in m.Keys;
    assert c.Keys == m.Keys;
  }

  /** Every entry of a valid table is what the map holds for its key. */
  lemma EntryInContents<K, V>(hash: K -> nat, t: Table<K, V>, i: int, e: Entry<K, V>)
    requires Valid(hash, t)
    requires 0 <= i < t.capacity && e in t.chains[i]
    ensures e.key in Contents(t) && Contents(t)[e.key] == e.value
  {
    FindMember(t.chains[i], e);
    LookupAgrees(hash, t, e.key);
  }

  /** The number of entries is the number of keys in the map. */
  lemma SizeIsCardinality<K, V>(hash: K -> nat, t: Table<K, V>)
    requires Valid(hash, t)
    ensures t.nsize == |Contents(t)|
  {
    SumIsTotalLength(t.bucketSizes, t.chains);
    KeysUnique(hash, t);
    MapOfSize(Flatten(t.chains));
  }

  lemma {:induction false} SumIsTotalLength<K, V>(s: seq<int>, cs: seq<Chain<K, V>>)
    requires |s| == |cs|
    requires forall i :: 0 <= i < |s| ==> s[i] == |cs[i]|
    ensures Sum(s) == SumLengths(cs)
  {
    if s != [] {
      SumIsTotalLength(s[1..], cs[1..]);
    }
  }

  /** No two entries anywhere in a valid table share a key. */
  lemma KeysUnique<K, V>(hash: K -> nat, t: Table<K, V>)
    requires Valid(hash, t)
    ensures DistinctKeys(Flatten(t.chains))
  {
    FlattenDistinct(t.chains);
  }

  /** get: the value stored for `k`, or KeyNotFound. */
  function Get<K(==), V>(hash: K -> nat, t: Table<K, V>, k: K): (r: Result<V, Error>)
    requires Valid(hash, t)
    ensures r.Success? <==> k in Contents(t)
    ensures r.Success? ==> r.value == Contents(t)[k]
    ensures r.Failure? ==> r.error == KeyNotFound
  {
    LookupAgrees(hash, t, k);
    match Find(t.chains[BucketOf(hash, t, k)], k)
    case Some(v) => Success(v)
    case None => Failure(KeyNotFound)
  }

  /** contains: whether some entry has key `k`. */
  function Contains<K(==), V>(hash: K -> nat, t: Table<K, V>, k: K): (b: bool)
    requires Valid(hash, t)
    ensures b <==> k in Contents(t)
  {
    LookupAgrees(hash, t, k);
    Find(t.chains[BucketOf(hash, t, k)], k).Some?
  }

  /** size: the number of entries. */
  function Size<K, V>(hash: K -> nat, t: Table<K, V>): (n: int)
    requires Valid(hash, t)
    ensures n == |Contents(t)|
  {
    SizeIsCardinality(hash, t);
    t.nsize
  }

  /** bucket_count: the capacity. */
  function BucketCount<K, V>(hash: K -> nat, t: Table<K, V>): (n: int)
    requires Valid(hash, t)
    ensures n > 0 && n == |t.chains|
  {
    t.capacity
  }

  /** bucket_size: the length of chain `index`, or IndexOutOfRange. */
  function BucketSize<K, V>(hash: K -> nat, t: Table<K, V>, index: int): (r: Result<int, Error>)
    requires Valid(hash, t)
    ensures r.Failure? <==> index < 0 || index >= t.capacity
    ensures r.Failure? ==> r.error == IndexOutOfRange
    ensures r.Success? ==> r.value == |t.chains[index]|
  {
    if index < 0 || index >= t.capacity then Failure(IndexOutOfRange)
    else Success(t.bucketSizes[index])
  }

  /**
   * begin(index)..end(index): the entries of bucket `index`, head first. They
   * are exactly the map's entries whose key hashes to that bucket.
   */
  function Bucket<K, V>(hash: K -> nat, t: Table<K, V>, index: int): (es: Chain<K, V>)
    requires Valid(hash, t)
    requires 0 <= index < t.capacity
    ensures |es| == t.bucketSizes[index]
    ensures forall e :: e in es ==>
      BucketOf(hash, t, e.key) == index && e.key in Contents(t) && Contents(t)[e.key] == e.value
    ensures forall k :: k in Contents(t) && BucketOf(hash, t, k) == index ==>
      exists e :: e in es && e.key == k
  {
    var es := t.chains[index];
    forall e | e in es
      ensures e.key in Contents(t) && Contents(t)[e.key] == e.value
    {
      EntryInContents(hash, t, index, e);
    }
    forall k | k in Contents(t) && BucketOf(hash, t, k) == index
      ensures exists e :: e in es && e.key == k
    {
      LookupAgrees(hash, t, k);
    }
    es
  }

  /** Links entry `e` at the head of bucket `i` and updates the counters. */
  function InsertHead<K, V>(t: Table<K, V>, i: int, e: Entry<K, V>): Table<K, V>
    requires Shaped(t) && 0 <= i < t.capacity
  {
    var n := t.bucketSizes[i] + 1;
    Table(t.capacity,
          t.chains[i := [e] + t.chains[i]],
          t.bucketSizes[i := n],
          t.nsize + 1,
          if n == 1 then t.usedBuckets + 1 else t.usedBuckets)
  }

  /** Head insertion of an absent key into its own bucket adds exactly that key. */
  lemma InsertHeadCorrect<K(!new), V>(hash: K -> nat, t: Table<K, V>, e: Entry<K, V>)
    requires Valid(hash, t)
    requires e.hashcode == hash(e.key)
    requires e.key !in Contents(t)
    ensures var r := InsertHead(t, e.hashcode % t.capacity, e);
      && Valid(hash, r)
      && Contents(r) == Contents(t)[e.key := e.value]
      && r.capacity == t.capacity
      && r.nsize == t.nsize + 1
      && r.bucketSizes[e.hashcode % t.capacity] == t.bucketSizes[e.hashcode % t.capacity] + 1
  {
    var i := e.hashcode % t.capacity;
    var r := InsertHead(t, i, e);
    var c := t.chains[i];
    SumUpdate(t.bucketSizes, i, t.bucketSizes[i] + 1);
    CountUsedUpdate(t.bucketSizes, i, t.bucketSizes[i] + 1);
    LookupAgrees(hash, t, e.key);
    assert DistinctKeys([e] + c) by {
      forall p, q | 0 <= p < q < |[e] + c| ensures ([e] + c)[p].key != ([e] + c)[q].key {
        assert ([e] + c)[q] == c[q - 1];
        if p > 0 {
          assert ([e] + c)[p] == c[p - 1];
        } else {
          assert c[q - 1] in c;
        }
      }
    }
    assert Valid(hash, r);
    var m := Contents(t)[e.key := e.value];
    forall k ensures Agrees(Find(r.chains[BucketOf(hash, r, k)], k), m, k) {
      LookupAgrees(hash, t, k);
    }
    ContentsByLookup(hash, r, m);
  }

  /** Overwrites the value of entry `j` of bucket `i`; counters are untouched. */
  function Overwrite<K, V>(t: Table<K, V>, i: int, j: int, v: V): Table<K, V>
    requires Shaped(t) && 0 <= i < t.capacity && 0 <= j < |t.chains[i]|
  {
    t.(chains := t.chains[i := t.chains[i][j := t.chains[i][j].(value := v)]])
  }

  /** Overwriting the entry found for a present key rebinds exactly that key. */
  lemma OverwriteCorrect<K(!new), V>(hash: K -> nat, t: Table<K, V>, k: K, v: V)
    requires Valid(hash, t)
    requires FindIndex(t.chains[BucketOf(hash, t, k)], k).Some?
    ensures var i := BucketOf(hash, t, k);
      var r := Overwrite(t, i, FindIndex(t.chains[i], k).value, v);
      && Valid(hash, r)
      && Contents(r) == Contents(t)[k := v]
  {
    var i := BucketOf(hash, t, k);
    var c := t.chains[i];
    var j := FindIndex(c, k).value;
    var c' := c[j := c[j].(value := v)];
    var r := Overwrite(t, i, j, v);
    assert forall e :: e in c' ==> exists f :: f in c && f.key == e.key && f.hashcode == e.hashcode by {
      forall e | e in c' ensures exists f :: f in c && f.key == e.key && f.hashcode == e.hashcode {
        var p :| 0 <= p < |c'| && c'[p] == e;
        assert c[p] in c;
      }
    }
    assert Valid(hash, r);
    var m := Contents(t)[k := v];
    forall x ensures Agrees(Find(r.chains[BucketOf(hash, r, x)], x), m, x) {
      LookupAgrees(hash, t, x);
      FindAfterOverwrite(c, j, v, x);
    }
    ContentsByLookup(hash, r, m);
  }

  /** The fill-factor test of set: usedBuckets / capacity > 0.8, over the integers. */
  predicate NeedsGrowth<K, V>(t: Table<K, V>)
  {
    5 * t.usedBuckets > 4 * t.capacity
  }

  /**
   * Relinks `es` one by one at the head of their buckets in `t`, as the
   * relocation loop of rehashing does.
   */
  function RelinkAll<K(!new), V>(hash: K -> nat, t: Table<K, V>, es: Chain<K, V>): (r: Table<K, V>)
    requires Valid(hash, t)
    requires forall e :: e in es ==> e.hashcode == hash(e.key) && e.key !in Contents(t)
    requires DistinctKeys(es)
    ensures Valid(hash, r)
    ensures r.capacity == t.capacity
    ensures r.nsize == t.nsize + |es|
    ensures Contents(r) == Contents(t) + MapOf(es)
    decreases |es|
  {
    if es == [] then t
    else
      var e := es[0];
      var rest := es[1..];
      InsertHeadCorrect(hash, t, e);
      var t' := InsertHead(t, e.hashcode % t.capacity, e);
      assert DistinctKeys(rest) && forall f :: f in rest ==> f.key != e.key by {
        forall p, q | 0 <= p < q < |rest| ensures rest[p].key != rest[q].key {
          assert rest[p] == es[p + 1] && rest[q] == es[q + 1];
        }
        forall f | f in rest ensures f.key != e.key {
          var p :| 0 <= p < |rest| && rest[p] == f;
          assert es[p + 1] == f;
        }
      }
      KeyOfMapOf(rest, e.key);
      assert Contents(t') + MapOf(rest) == Contents(t) + MapOf(es);
      RelinkAll(hash, t', rest)
  }

  /**
   * rehashing: grows the capacity to 2 * capacity + 1 and relocates every
   * entry, bucket 0 first and each chain head to tail, to bucket
   * `hashcode % newCapacity`, reusing the cached hash code.
   */
  function Rehash<K(!new), V>(hash: K -> nat, t: Table<K, V>): (r: Table<K, V>)
    requires Valid(hash, t)
    ensures r.capacity == 2 * t.capacity + 1
    ensures Valid(hash, r)
    ensures Contents(r) == Contents(t)
    ensures r.nsize == t.nsize
  {
    var grown: Table<K, V> := EmptyTable(2 * t.capacity + 1);
    EmptyTableValid(hash, grown);
    var es := Flatten(t.chains);
    forall e | e in es ensures e.hashcode == hash(e.key) {
      FlattenMember(t.chains, e);
    }
    KeysUnique(hash, t);
    SumIsTotalLength(t.bucketSizes, t.chains);
    RelinkAll(hash, grown, es)
  }

  /** The check at the top of set: rehash first when the table is too full. */
  function GrowIfFull<K(!new), V>(hash: K -> nat, t: Table<K, V>): (r: Table<K, V>)
    requires Valid(hash, t)
    ensures Valid(hash, r)
    ensures Contents(r) == Contents(t)
    ensures r.nsize == t.nsize
    ensures r.capacity == if NeedsGrowth(t) then 2 * t.capacity + 1 else t.capacity
  {
    if NeedsGrowth(t) then Rehash(hash, t) else t
  }

  /**
   * set: binds `k` to `v`. A present key has its value overwritten in place;
   * a new key is linked at the head of its bucket, and the table is rehashed
   * when that bucket then holds more than MaxCollision entries.
   */
  function Set<K(==,!new), V>(hash: K -> nat, t: Table<K, V>, k: K, v: V): (r: Table<K, V>)
    requires Valid(hash, t)
    ensures Valid(hash, r)
    ensures Contents(r) == Contents(t)[k := v]
    ensures Get(hash, r, k) == Success(v) && Contains(hash, r, k)
    ensures r.nsize == if k in Contents(t) then t.nsize else t.nsize + 1
    ensures r.capacity >= t.capacity
    ensures k in Contents(t) ==>
      var g := GrowIfFull(hash, t);
      && r.capacity == g.capacity
      && r.bucketSizes == g.bucketSizes
      && r.nsize == g.nsize
      && r.usedBuckets == g.usedBuckets
    ensures !NeedsGrowth(t) ==>
      (r.capacity == t.capacity <==>
         k in Contents(t) || t.bucketSizes[BucketOf(hash, t, k)] < MaxCollision)
    ensures !NeedsGrowth(t) && k !in Contents(t) && t.bucketSizes[BucketOf(hash, t, k)] >= MaxCollision ==>
      r.capacity == 2 * t.capacity + 1
    ensures var g := GrowIfFull(hash, t);
      r.capacity == if k !in Contents(t) && g.bucketSizes[BucketOf(hash, g, k)] >= MaxCollision
                    then 2 * g.capacity + 1 else g.capacity
  {
    var g := GrowIfFull(hash, t);
    var i := BucketOf(hash, g, k);
    LookupAgrees(hash, g, k);
    FindAtIndex(g.chains[i], k);
    match FindIndex(g.chains[i], k)
    case Some(j) =>
      OverwriteCorrect(hash, g, k, v);
      Overwrite(g, i, j, v)
    case None =>
      var e := Entry(k, v, hash(k));
      InsertHeadCorrect(hash, g, e);
      var ins := InsertHead(g, i, e);
      if ins.bucketSizes[i] > MaxCollision then Rehash(hash, ins) else ins
  }

  /** Unlinks entry `j` of bucket `i`, following remove's two branches. */
  function Unlink<K, V>(t: Table<K, V>, i: int, j: int): Table<K, V>
    requires Shaped(t) && 0 <= i < t.capacity && 0 <= j < |t.chains[i]|
  {
    var c := t.chains[i];
    var rest := c[..j] + c[j + 1..];
    var n := t.bucketSizes[i] - 1;
    // The head case tests whether the bucket became empty; later nodes test the count.
    var emptied := if j == 0 then rest == [] else n == 0;
    Table(t.capacity,
          t.chains[i := rest],
          t.bucketSizes[i := n],
          t.nsize - 1,
          if emptied then t.usedBuckets - 1 else t.usedBuckets)
  }

  /** Unlinking the entry found for a present key removes exactly that key. */
  lemma UnlinkCorrect<K(!new), V>(hash: K -> nat, t: Table<K, V>, k: K)
    requires Valid(hash, t)
    requires FindIndex(t.chains[BucketOf(hash, t, k)], k).Some?
    ensures var i := BucketOf(hash, t, k);
      var r := Unlink(t, i, FindIndex(t.chains[i], k).value);
      && Valid(hash, r)
      && Contents(r) == Contents(t) - {k}
      && r.capacity == t.capacity
      && r.nsize == t.nsize - 1
  {
    var i := BucketOf(hash, t, k);
    var c := t.chains[i];
    var j := FindIndex(c, k).value;
    var r := Unlink(t, i, j);
    var rest := c[..j] + c[j + 1..];
    assert Counted(r) by {
      SumUpdate(t.bucketSizes, i, t.bucketSizes[i] - 1);
      CountUsedUpdate(t.bucketSizes, i, t.bucketSizes[i] - 1);
      assert |rest| == |c| - 1;
    }
    UnlinkKeepsDistinct(c, j);
    assert Placed(hash, r) by {
      forall p, e | 0 <= p < |r.chains| && e in r.chains[p]
        ensures e.hashcode == hash(e.key) && e.hashcode % r.capacity == p
      {
        if p == i {
          assert e in c;
        } else {
          assert e in t.chains[p];
        }
      }
    }
    assert Valid(hash, r);
    var m := Contents(t) - {k};
    forall x ensures Agrees(Find(r.chains[BucketOf(hash, r, x)], x), m, x) {
      LookupAgrees(hash, t, x);
      FindAfterUnlink(c, j, x);
    }
    ContentsByLookup(hash, r, m);
  }

  /** remove: unlinks the entry for `k`, reporting whether there was one. */
  function Remove<K(==,!new), V>(hash: K -> nat, t: Table<K, V>, k: K): (r: (bool, Table<K, V>))
    requires Valid(hash, t)
    ensures Valid(hash, r.1)
    ensures r.0 <==> k in Contents(t)
    ensures Contents(r.1) == Contents(t) - {k}
    ensures !Contains(hash, r.1, k) && Get(hash, r.1, k) == Failure(KeyNotFound)
    ensures !r.0 ==> r.1 == t
    ensures r.1.capacity == t.capacity
    ensures r.1.nsize == if r.0 then t.nsize - 1 else t.nsize
  {
    var i := BucketOf(hash, t, k);
    LookupAgrees(hash, t, k);
    FindAtIndex(t.chains[i], k);
    match FindIndex(t.chains[i], k)
    case None =>
      assert Contents(t) - {k} == Contents(t);
      (false, t)
    case Some(j) =>
      UnlinkCorrect(hash, t, k);
      (true, Unlink(t, i, j))
  }
}
