/** The u32 totals of the reports: `saturating_add` and the sums it folds. */
module Saturating {

  const U32_MAX: nat := 0xFFFF_FFFF

  type u32 = n: nat | n <= 0xFFFF_FFFF

  function Clamp(n: nat): u32 {
    if n <= U32_MAX then n else U32_MAX
  }

  function SatAdd(a: u32, b: u32): u32 {
    Clamp(a + b)
  }

  /** Saturating early or late makes no difference to a total. */
  lemma SatAddClamps(a: nat, b: nat)
    ensures SatAdd(Clamp(a), Clamp(b)) == Clamp(a + b)
  {
  }

  function Weight<K>(w: map<K, nat>, k: K): nat {
    if k in w then w[k] else 0
  }

  /** The sum of the weights of a set of keys, absent keys weighing nothing; the order of summation is left open. */
  ghost function SumOf<K>(s: set<K>, w: map<K, nat>): nat {
    if s == {} then 0 else
      var k :| k in s;
      Weight(w, k) + SumOf(s - {k}, w)
  }

  /** Any key may be summed first. */
  lemma {:induction false} SumOfRemove<K>(s: set<K>, w: map<K, nat>, k: K)
    requires k in s
    ensures SumOf(s, w) == Weight(w, k) + SumOf(s - {k}, w)
    decreases s
  {
    var j :| j in s && SumOf(s, w) == Weight(w, j) + SumOf(s - {j}, w);
    if j != k {
      SumOfRemove(s - {j}, w, k);
      SumOfRemove(s - {k}, w, j);
      assert s - {j} - {k} == s - {k} - {j};
    }
  }

  lemma SumOfAdd<K>(s: set<K>, w: map<K, nat>, k: K)
    requires k !in s
    ensures SumOf(s + {k}, w) == SumOf(s, w) + Weight(w, k)
  {
    SumOfRemove(s + {k}, w, k);
    assert s + {k} - {k} == s;
  }

  lemma {:induction false} SumOfUnion<K>(s: set<K>, t: set<K>, w: map<K, nat>)
    requires s !! t
    ensures SumOf(s + t, w) == SumOf(s, w) + SumOf(t, w)
    decreases t
  {
    if t == {} {
      assert s + t == s;
    } else {
      var k :| k in t;
      SumOfRemove(t, w, k);
      SumOfUnion(s, t - {k}, w);
      SumOfAdd(s + (t - {k}), w, k);
      assert s + (t - {k}) + {k} == s + t;
    }
  }

  lemma SumOfSubset<K>(s: set<K>, t: set<K>, w: map<K, nat>)
    requires s <= t
    ensures SumOf(s, w) <= SumOf(t, w)
  {
    SumOfUnion(s, t - s, w);
    assert s + (t - s) == t;
  }

  lemma {:induction false} SumOfAgree<K>(s: set<K>, v: map<K, nat>, w: map<K, nat>)
    requires forall k :: k in s ==> Weight(v, k) == Weight(w, k)
    ensures SumOf(s, v) == SumOf(s, w)
    decreases s
  {
    if s != {} {
      var k :| k in s;
      SumOfRemove(s, v, k);
      SumOfRemove(s, w, k);
      SumOfAgree(s - {k}, v, w);
    }
  }

  /** Keys without a weight do not count. */
  lemma SumOfKnown<K>(s: set<K>, w: map<K, nat>)
    ensures SumOf(s, w) == SumOf(s * w.Keys, w)
  {
    SumOfUnion(s * w.Keys, s - w.Keys, w);
    assert s * w.Keys + (s - w.Keys) == s;
    SumOfZero(s - w.Keys, w);
  }

  lemma {:induction false} SumOfZero<K>(s: set<K>, w: map<K, nat>)
    requires forall k :: k in s ==> Weight(w, k) == 0
    ensures SumOf(s, w) == 0
    decreases s
  {
    if s != {} {
      var k :| k in s;
      SumOfRemove(s, w, k);
      SumOfZero(s - {k}, w);
    }
  }
}
