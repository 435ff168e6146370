/** The median complexity of a project's files: sort, then the middle value, or the two middle values averaged half
    up. Values stay within u32, so the narrowing cast after the average loses nothing. */
module Median {
  import opened Saturating
  import opened Wrappers

  predicate Sorted(s: seq<int>) {
    forall i, j :: 0 <= i < j < |s| ==> s[i] <= s[j]
  }

  lemma InsertSorted(s: seq<int>, k: nat, v: int)
    requires Sorted(s) && k <= |s|
    requires (forall i :: 0 <= i < k ==> s[i] <= v) && forall i :: k <= i < |s| ==> v <= s[i]
    ensures Sorted(s[..k] + [v] + s[k..])
  {
  }

  method Insert(s: seq<int>, v: int) returns (r: seq<int>)
    requires Sorted(s)
    ensures Sorted(r) && multiset(r) == multiset(s) + multiset{v}
  {
    var k := |s|;
    while k > 0 && s[k - 1] > v
      invariant 0 <= k <= |s| && forall i :: k <= i < |s| ==> v <= s[i]
    {
      k := k - 1;
    }
    InsertKeeps(s, k, v);
    InsertSorted(s, k, v);
    r := s[..k] + [v] + s[k..];
  }

  /** Stands for the library sort: some ordered rearrangement. */
  method Sort(values: seq<int>) returns (sorted: seq<int>)
    ensures Sorted(sorted) && multiset(sorted) == multiset(values)
  {
    hide Sorted;
    EmptySorted();
    sorted := [];
    for i := 0 to |values|
      invariant Sorted(sorted) && multiset(sorted) == multiset(values[..i])
    {
      assert values[..i + 1] == values[..i] + [values[i]];
      sorted := Insert(sorted, values[i]);
    }
    assert values[..|values|] == values;
  }

  lemma EmptySorted()
    ensures Sorted([])
  {
  }

  function Middle(s: seq<int>): int {
    var n := |s|;
    if n == 0 then 0
    else if n % 2 == 1 then s[n / 2]
    else (s[n / 2 - 1] + s[n / 2] + 1) / 2
  }

  /** r is the middle of sorted values: half the sum of the lower and the upper middle value, a remaining half counted
      as one; zero for no values. */
  ghost predicate IsMiddle(s: seq<int>, r: int) {
    if s == [] then r == 0 else
      var lower, upper := s[(|s| - 1) / 2], s[|s| / 2];
      lower + upper <= 2 * r <= lower + upper + 1
  }

  /** r is the median of a collection of values, taken in no particular order. */
  ghost predicate IsMedian(values: multiset<int>, r: int) {
    exists s :: Sorted(s) && multiset(s) == values && IsMiddle(s, r)
  }

  lemma LastIsLargest(s: seq<int>, v: int)
    requires Sorted(s) && v in multiset(s)
    ensures s != [] && v <= s[|s| - 1] && s[|s| - 1] in multiset(s)
  {
  }

  lemma DropLast(s: seq<int>)
    requires Sorted(s) && s != []
    ensures Sorted(s[..|s| - 1]) && multiset(s[..|s| - 1]) == multiset(s) - multiset{s[|s| - 1]}
  {
    assert s == s[..|s| - 1] + [s[|s| - 1]];
  }

  lemma SameLast(a: seq<int>, b: seq<int>)
    requires Sorted(a) && Sorted(b) && multiset(a) == multiset(b) && a != []
    ensures b != [] && a[|a| - 1] == b[|b| - 1]
    ensures multiset(a[..|a| - 1]) == multiset(b[..|b| - 1])
  {
    hide Sorted;
    assert a[|a| - 1] in multiset(a);
    LastIsLargest(b, a[|a| - 1]);
    LastIsLargest(a, b[|b| - 1]);
    DropLast(a);
    DropLast(b);
  }

  lemma {:induction false} SortedUnique(a: seq<int>, b: seq<int>)
    requires Sorted(a) && Sorted(b) && multiset(a) == multiset(b)
    ensures a == b
    decreases |a|
  {
    if a != [] {
      SameLast(a, b);
      var front, back := a[..|a| - 1], b[..|b| - 1];
      DropLast(a);
      DropLast(b);
      SortedUnique(front, back);
      assert a == front + [a[|a| - 1]];
      assert b == back + [b[|b| - 1]];
    } else {
      assert |multiset(b)| == |b| && |multiset(a)| == 0;
    }
  }

  /** The median depends on the values alone. */
  lemma MedianUnique(values: multiset<int>, r: int, t: int)
    requires IsMedian(values, r) && IsMedian(values, t)
    ensures r == t
  {
    hide Sorted;
    var a :| Sorted(a) && multiset(a) == values && IsMiddle(a, r);
    var b :| Sorted(b) && multiset(b) == values && IsMiddle(b, t);
    SortedUnique(a, b);
  }

  /** The lower half lies at or below the median, the upper half at or above it. */
  lemma MiddleSplits(s: seq<int>, r: int)
    requires Sorted(s) && s != [] && IsMiddle(s, r)
    ensures forall i :: 0 <= i <= (|s| - 1) / 2 ==> s[i] <= r
    ensures forall i :: |s| / 2 <= i < |s| ==> r <= s[i]
  {
  }

  ghost function Holders<K>(keys: set<K>, w: map<K, u32>, v: int): set<K> {
    set k | k in keys && k in w && w[k] == v
  }

  /** The values of a map, each as often as keys hold it. */
  ghost predicate AreValues<K>(values: multiset<int>, keys: set<K>, w: map<K, u32>) {
    forall v :: values[v] == |Holders(keys, w, v)|
  }

  lemma AddValue<K>(values: multiset<int>, keys: set<K>, w: map<K, u32>, k: K)
    requires AreValues(values, keys, w) && k in w && k !in keys
    ensures AreValues(values + multiset{w[k]}, keys + {k}, w)
  {
    forall v
      ensures (values + multiset{w[k]})[v] == |Holders(keys + {k}, w, v)|
    {
      assert Holders(keys + {k}, w, v) == Holders(keys, w, v) + (if w[k] == v then {k} else {});
    }
  }

  lemma ValuesAreU32<K>(values: multiset<int>, keys: set<K>, w: map<K, u32>, v: int)
    requires AreValues(values, keys, w) && v in values
    ensures 0 <= v <= U32_MAX
  {
  }

  method MedianOf<K(==)>(w: map<K, u32>) returns (r: u32)
    ensures exists values :: AreValues(values, w.Keys, w) && IsMedian(values, r)
  {
    hide AreValues, IsMedian, Sorted;
    var values: seq<int> := [];
    var rest := w.Keys;
    ghost var done: set<K> := {};
    NoValues(w);
    while rest != {}
      invariant rest + done == w.Keys && rest !! done
      invariant AreValues(multiset(values), done, w)
    {
      var k :| k in rest;
      AddValue(multiset(values), done, w, k);
      values := values + [w[k]];
      rest, done := rest - {k}, done + {k};
    }
    assert done == w.Keys;
    var sorted := Sort(values);
    MiddleIsMedian(sorted);
    assert AreValues(multiset(sorted), w.Keys, w);
    forall i | 0 <= i < |sorted|
      ensures 0 <= sorted[i] <= U32_MAX
    {
      ValuesAreU32(multiset(sorted), w.Keys, w, sorted[i]);
    }
    r := Middle(sorted);
  }

  lemma NoValues<K>(w: map<K, u32>)
    ensures AreValues(multiset([]), {}, w)
  {
  }

  lemma MiddleIsMedian(sorted: seq<int>)
    requires Sorted(sorted)
    ensures IsMedian(multiset(sorted), Middle(sorted))
  {
  }
}
