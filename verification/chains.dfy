/**
 * Chains of a separate-chaining table. A chain is the singly linked list
 * hanging off one bucket, modelled head-first as a sequence of entries.
 */
module Chains {
  import opened Wrappers

  /** One node of a chain: key, value and the hash code cached at insertion. */
  datatype Entry<K, V> = Entry(key: K, value: V, hashcode: nat)

  type Chain<K, V> = seq<Entry<K, V>>

  /** No two entries of `c` share a key. */
  ghost predicate DistinctKeys<K, V>(c: Chain<K, V>)
  {
    forall i, j :: 0 <= i < j < |c| ==> c[i].key != c[j].key
  }

  /** The value of the first entry whose key is `k`, scanning from the head. */
  function Find<K(==), V>(c: Chain<K, V>, k: K): (r: Option<V>)
    ensures r.None? <==> forall e :: e in c ==> e.key != k
    ensures r.Some? ==> exists e :: e in c && e.key == k && e.value == r.value
  {
    if c == [] then None
    else if c[0].key == k then Some(c[0].value)
    else Find(c[1..], k)
  }

  /** The position of the first entry whose key is `k`, scanning from the head. */
  function FindIndex<K(==), V>(c: Chain<K, V>, k: K): (r: Option<nat>)
    ensures r.Some? ==> r.value < |c| && c[r.value].key == k
    ensures r.Some? ==> forall j :: 0 <= j < r.value ==> c[j].key != k
    ensures r.None? ==> forall j :: 0 <= j < |c| ==> c[j].key != k
  {
    if c == [] then None
    else if c[0].key == k then Some(0)
    else match FindIndex(c[1..], k)
      case None => None
      case Some(j) => Some(j + 1)
  }

  /** The association a chain denotes: an entry shadows later ones with the same key. */
  ghost function MapOf<K, V>(c: Chain<K, V>): map<K, V>
  {
    if c == [] then map[] else MapOf(c[1..])[c[0].key := c[0].value]
  }

  /** The buckets' chains laid end to end, bucket 0 first, each head to tail. */
  function Flatten<K, V>(cs: seq<Chain<K, V>>): (r: Chain<K, V>)
    ensures |r| == SumLengths(cs)
  {
    if cs == [] then [] else cs[0] + Flatten(cs[1..])
  }

  /** The value scan and the position scan agree. */
  lemma {:induction false} FindAtIndex<K, V>(c: Chain<K, V>, k: K)
    ensures Find(c, k) == match FindIndex(c, k)
                         case None => None
                         case Some(j) => Some(c[j].value)
  {
    if c != [] && c[0].key != k {
      FindAtIndex(c[1..], k);
    }
  }

  /** Scanning a chain computes exactly the association it denotes. */
  lemma {:induction false} FindIsMapOf<K, V>(c: Chain<K, V>, k: K)
    ensures Find(c, k) == if k in MapOf(c) then Some(MapOf(c)[k]) else None
  {
    if c != [] {
      FindIsMapOf(c[1..], k);
    }
  }

  /** A key of the denoted map is the key of some entry, and conversely. */
  lemma KeyOfMapOf<K, V>(c: Chain<K, V>, k: K)
    ensures k in MapOf(c) <==> exists e :: e in c && e.key == k
  {
    FindIsMapOf(c, k);
  }

  /** In a chain with distinct keys every entry is the one found for its key. */
  lemma {:induction false} FindMember<K, V>(c: Chain<K, V>, e: Entry<K, V>)
    requires DistinctKeys(c)
    requires e in c
    ensures Find(c, e.key) == Some(e.value)
  {
    if c[0] != e {
      assert c[0].key != e.key by {
        var j :| 0 <= j < |c| && c[j] == e;
        assert j != 0;
      }
      assert DistinctKeys(c[1..]) by {
        forall i, j | 0 <= i < j < |c[1..]| ensures c[1..][i].key != c[1..][j].key {
          assert c[1..][i] == c[i + 1] && c[1..][j] == c[j + 1];
        }
      }
      FindMember(c[1..], e);
    }
  }

  /** Scanning a concatenation scans the first part, then the second. */
  lemma {:induction false} FindConcat<K, V>(a: Chain<K, V>, b: Chain<K, V>, k: K)
    ensures Find(a + b, k) == if Find(a, k).Some? then Find(a, k) else Find(b, k)
  {
    if a == [] {
      assert a + b == b;
    } else {
      assert (a + b)[1..] == a[1..] + b;
      FindConcat(a[1..], b, k);
    }
  }

  /** An entry of the flattened chains is an entry of one of the chains, and conversely. */
  lemma {:induction false} FlattenMember<K, V>(cs: seq<Chain<K, V>>, e: Entry<K, V>)
    ensures e in Flatten(cs) <==> exists i :: 0 <= i < |cs| && e in cs[i]
  {
    if cs != [] {
      FlattenMember(cs[1..], e);
      if e in Flatten(cs[1..]) {
        var i :| 0 <= i < |cs[1..]| && e in cs[1..][i];
        assert e in cs[i + 1];
      }
      if exists i :: 0 <= i < |cs| && e in cs[i] {
        var i :| 0 <= i < |cs| && e in cs[i];
        if i > 0 {
          assert e in cs[1..][i - 1];
        }
      }
    }
  }

  /** Total length of the chains. */
  function SumLengths<K, V>(cs: seq<Chain<K, V>>): nat
  {
    if cs == [] then 0 else |cs[0]| + SumLengths(cs[1..])
  }

  /** When only chain `i` can hold key `k`, scanning all chains in order finds what chain `i` holds. */
  lemma {:induction false} FindInFlatten<K, V>(cs: seq<Chain<K, V>>, i: int, k: K)
    requires 0 <= i < |cs|
    requires forall j, e :: 0 <= j < |cs| && j != i && e in cs[j] ==> e.key != k
    ensures Find(Flatten(cs), k) == Find(cs[i], k)
  {
    FindConcat(cs[0], Flatten(cs[1..]), k);
    if i == 0 {
      forall e | e in Flatten(cs[1..]) ensures e.key != k {
        FlattenMember(cs[1..], e);
        var j :| 0 <= j < |cs[1..]| && e in cs[1..][j];
        assert e in cs[j + 1];
      }
    } else {
      FindInFlatten(cs[1..], i - 1, k);
    }
  }

  /**
   * Chains that each have distinct keys and share no key with one another
   * flatten to a single chain with distinct keys.
   */
  lemma {:induction false} FlattenDistinct<K, V>(cs: seq<Chain<K, V>>)
    requires forall i :: 0 <= i < |cs| ==> DistinctKeys(cs[i])
    requires forall i, j, e, f :: 0 <= i < |cs| && 0 <= j < |cs| && i != j && e in cs[i] && f in cs[j] ==> e.key != f.key
    ensures DistinctKeys(Flatten(cs))
  {
    if cs != [] {
      var rest := Flatten(cs[1..]);
      FlattenDistinct(cs[1..]);
      var all := cs[0] + rest;
      forall p, q | 0 <= p < q < |all| ensures all[p].key != all[q].key {
        if p < |cs[0]| && q >= |cs[0]| {
          var f := rest[q - |cs[0]|];
          FlattenMember(cs[1..], f);
          var j :| 0 <= j < |cs[1..]| && f in cs[1..][j];
          assert f in cs[j + 1];
          assert cs[0][p] in cs[0];
        } else if p >= |cs[0]| {
          assert all[p] == rest[p - |cs[0]|] && all[q] == rest[q - |cs[0]|];
        }
      }
    }
  }

  /** A chain with distinct keys denotes a map with one key per entry. */
  lemma {:induction false} MapOfSize<K, V>(c: Chain<K, V>)
    requires DistinctKeys(c)
    ensures |MapOf(c)| == |c|
  {
    if c != [] {
      assert DistinctKeys(c[1..]) by {
        forall i, j | 0 <= i < j < |c[1..]| ensures c[1..][i].key != c[1..][j].key {
          assert c[1..][i] == c[i + 1] && c[1..][j] == c[j + 1];
        }
      }
      MapOfSize(c[1..]);
      KeyOfMapOf(c[1..], c[0].key);
    }
  }

  /** Overwriting the value of the first entry for `k` changes only what `k` maps to. */
  lemma {:induction false} FindAfterOverwrite<K, V>(c: Chain<K, V>, j: nat, v: V, x: K)
    requires j < |c|
    requires forall p :: 0 <= p < j ==> c[p].key != c[j].key
    ensures Find(c[j := c[j].(value := v)], x) == if x == c[j].key then Some(v) else Find(c, x)
  {
    var c' := c[j := c[j].(value := v)];
    if j == 0 {
      assert c'[1..] == c[1..];
    } else {
      assert c'[1..] == c[1..][j - 1 := c[j].(value := v)];
      FindAfterOverwrite(c[1..], j - 1, v, x);
    }
  }

  /** Unlinking the only entry for `c[j].key` leaves every other key's lookup unchanged. */
  lemma {:induction false} FindAfterUnlink<K, V>(c: Chain<K, V>, j: nat, x: K)
    requires j < |c|
    requires DistinctKeys(c)
    ensures Find(c[..j] + c[j + 1..], x) == if x == c[j].key then None else Find(c, x)
  {
    var c' := c[..j] + c[j + 1..];
    if j == 0 {
      assert c' == c[1..];
      if x == c[0].key {
        forall e | e in c[1..] ensures e.key != x {
          var p :| 0 <= p < |c[1..]| && c[1..][p] == e;
          assert c[p + 1] == e;
        }
      }
    } else {
      assert c'[0] == c[0];
      assert c'[1..] == c[1..][..j - 1] + c[1..][j..];
      assert DistinctKeys(c[1..]) by {
        forall p, q | 0 <= p < q < |c[1..]| ensures c[1..][p].key != c[1..][q].key {
          assert c[1..][p] == c[p + 1] && c[1..][q] == c[q + 1];
        }
      }
      FindAfterUnlink(c[1..], j - 1, x);
      assert c[1..][j - 1] == c[j];
    }
  }

  /** Unlinking an entry keeps the remaining keys distinct and drops only that entry. */
  lemma UnlinkKeepsDistinct<K, V>(c: Chain<K, V>, j: nat)
    requires j < |c|
    requires DistinctKeys(c)
    ensures DistinctKeys(c[..j] + c[j + 1..])
    ensures forall e :: e in c[..j] + c[j + 1..] ==> e in c
  {
    var c' := c[..j] + c[j + 1..];
    forall p, q | 0 <= p < q < |c'| ensures c'[p].key != c'[q].key {
      var p' := if p < j then p else p + 1;
      var q' := if q < j then q else q + 1;
      assert c'[p] == c[p'] && c'[q] == c[q'];
    }
  }
}
