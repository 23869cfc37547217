/** The two aggregates the table keeps over its per-bucket counts. */
module Counters {

  /** Total of all counts. */
  function Sum(s: seq<int>): int
  {
    if s == [] then 0 else s[0] + Sum(s[1..])
  }

  /** 1 when a bucket with this count is occupied, 0 otherwise. */
  function Occupied(x: int): nat
  {
    if x > 0 then 1 else 0
  }

  /** Number of positive counts, i.e. the number of occupied buckets. */
  function CountUsed(s: seq<int>): (n: nat)
    ensures n <= |s|
  {
    if s == [] then 0 else Occupied(s[0]) + CountUsed(s[1..])
  }

  /** Changing one count changes the total by the difference. */
  lemma {:induction false} SumUpdate(s: seq<int>, i: int, x: int)
    requires 0 <= i < |s|
    ensures Sum(s[i := x]) == Sum(s) - s[i] + x
  {
    if i == 0 {
      assert s[i := x][1..] == s[1..];
    } else {
      SumUpdate(s[1..], i - 1, x);
      assert s[i := x][1..] == s[1..][i - 1 := x];
    }
  }

  /** Changing one count changes the occupied total only if that bucket's occupancy flips. */
  lemma {:induction false} CountUsedUpdate(s: seq<int>, i: int, x: int)
    requires 0 <= i < |s|
    ensures CountUsed(s[i := x]) == CountUsed(s) - Occupied(s[i]) + Occupied(x)
  {
    if i == 0 {
      assert s[i := x][1..] == s[1..];
    } else {
      CountUsedUpdate(s[1..], i - 1, x);
      assert s[i := x][1..] == s[1..][i - 1 := x];
    }
  }

  /** A freshly allocated count array totals zero and has no occupied bucket. */
  lemma {:induction false} ZerosCount(n: nat)
    ensures Sum(seq(n, _ => 0)) == 0
    ensures CountUsed(seq(n, _ => 0)) == 0
  {
    if n > 0 {
      ZerosCount(n - 1);
      assert seq(n, _ => 0)[1..] == seq(n - 1, _ => 0);
    }
  }
}
