/** Unique names for the functions of one Rust file: the first declaration keeps its name,
    the n-th collision becomes `name#n`. */
module FunctionNames {
  import CallGraphs
  import Graphs

  function DigitChar(d: nat): char
    requires d < 10
  {
    ['0', '1', '2', '3', '4', '5', '6', '7', '8', '9'][d]
  }

  function Decimal(n: nat): string {
    if n < 10 then [DigitChar(n)] else Decimal(n / 10) + [DigitChar(n % 10)]
  }

  lemma {:induction false} DecimalHasNoHash(n: nat)
    ensures Decimal(n) != [] && '#' !in Decimal(n)
  {
    if n >= 10 {
      DecimalHasNoHash(n / 10);
    }
  }

  /** Reading the digits back. */
  function DecimalValue(s: string): nat {
    if s == [] then 0 else
      var c := s[|s| - 1];
      10 * DecimalValue(s[..|s| - 1]) + (if '0' <= c <= '9' then c as int - '0' as int else 0)
  }

  lemma {:induction false} DecimalRoundTrip(n: nat)
    ensures DecimalValue(Decimal(n)) == n
  {
    if n >= 10 {
      DecimalRoundTrip(n / 10);
      assert Decimal(n)[..|Decimal(n)| - 1] == Decimal(n / 10);
    } else {
      assert DecimalValue([]) == 0;
    }
  }

  function Suffixed(base: string, n: nat): string {
    base + "#" + Decimal(n)
  }

  lemma LastHash(b: string, n: nat)
    ensures Suffixed(b, n)[|b|] == '#'
    ensures forall i :: |b| < i < |Suffixed(b, n)| ==> Suffixed(b, n)[i] != '#'
  {
    DecimalHasNoHash(n);
    forall i | |b| < i < |Suffixed(b, n)|
      ensures Suffixed(b, n)[i] != '#'
    {
      assert Suffixed(b, n)[i] == Decimal(n)[i - |b| - 1];
    }
  }

  /** The last `#` tells base and number apart, even when the base holds one itself. */
  lemma SuffixedInjective(b: string, m: nat, c: string, n: nat)
    requires Suffixed(b, m) == Suffixed(c, n)
    ensures b == c && m == n
  {
    LastHash(b, m);
    LastHash(c, n);
    var s := Suffixed(b, m);
    assert |b| == |c|;
    assert b == s[..|b|] == c;
    assert Decimal(m) == s[|b| + 1..] == Decimal(n);
    DecimalRoundTrip(m);
    DecimalRoundTrip(n);
  }

  /** How many of the first i + 1 names equal the i-th. */
  ghost function Occurrence(names: seq<string>, i: nat): nat
    requires i < |names|
  {
    multiset(names[..i + 1])[names[i]]
  }

  ghost function Renamed(names: seq<string>, i: nat): string
    requires i < |names|
  {
    if Occurrence(names, i) > 1 then Suffixed(names[i], Occurrence(names, i)) else names[i]
  }

  ghost predicate Distinct(names: seq<string>) {
    forall i, j :: 0 <= i < j < |names| ==> names[i] != names[j]
  }

  ghost function Deduped(names: seq<string>): (r: seq<string>)
    ensures |r| == |names|
  {
    seq(|names|, i requires 0 <= i < |names| => Renamed(names, i))
  }

  /** A declared name that already reads like the suffix another declaration will be given. */
  ghost predicate Clash(names: seq<string>) {
    exists b, k: nat :: 2 <= k <= multiset(names)[b] && Suffixed(b, k) in names
  }

  method DedupeNames(pending: array<string>)
    modifies pending
    ensures pending[..] == Deduped(old(pending[..]))
  {
    ghost var names := pending[..];
    var seen: map<string, nat> := map[];
    for i := 0 to pending.Length
      invariant pending[i..] == names[i..]
      invariant forall j :: 0 <= j < i ==> pending[j] == Renamed(names, j)
      invariant forall b :: multiset(names[..i])[b] == if b in seen then seen[b] else 0
    {
      assert names[..i + 1] == names[..i] + [names[i]];
      assert pending[i] == pending[i..][0] == names[i];
      var name := pending[i];
      var count := (if name in seen then seen[name] else 0) + 1;
      seen := seen[name := count];
      if count > 1 {
        pending[i] := Suffixed(name, count);
      }
      assert pending[i + 1..] == names[i..][1..];
    }
  }

  // ----- uniqueness -----

  lemma OccurrencePositive(names: seq<string>, i: nat)
    requires i < |names|
    ensures 1 <= Occurrence(names, i) <= multiset(names)[names[i]]
  {
    assert names[i] in names[..i + 1] by { assert names[..i + 1][i] == names[i]; }
    assert names == names[..i + 1] + names[i + 1..];
  }

  lemma OccurrenceGrows(names: seq<string>, i: nat, j: nat)
    requires i < j < |names| && names[i] == names[j]
    ensures Occurrence(names, i) < Occurrence(names, j)
  {
    assert names[..j + 1] == names[..i + 1] + names[i + 1..j] + [names[j]];
  }

  /** Every count up to the total is some position's occurrence number. */
  lemma {:induction false} OccurrenceHit(names: seq<string>, b: string, k: nat) returns (i: nat)
    requires 1 <= k <= multiset(names)[b]
    ensures i < |names| && names[i] == b && Occurrence(names, i) == k
  {
    var last := |names| - 1;
    assert names == names[..last] + [names[last]];
    if names[last] == b && k == multiset(names)[b] {
      i := last;
      assert names[..last + 1] == names;
    } else {
      i := OccurrenceHit(names[..last], b, k);
      assert names[..last][..i + 1] == names[..i + 1];
    }
  }

  lemma EqualRenamesClash(names: seq<string>, i: nat, j: nat)
    requires i < |names| && j < |names| && i != j && Renamed(names, i) == Renamed(names, j)
    ensures Clash(names)
  {
    OccurrencePositive(names, i);
    OccurrencePositive(names, j);
    var m, n := Occurrence(names, i), Occurrence(names, j);
    if names[i] == names[j] {
      if i < j { OccurrenceGrows(names, i, j); } else { OccurrenceGrows(names, j, i); }
    }
    if m > 1 && n > 1 {
      SuffixedInjective(names[i], m, names[j], n);
    } else if m > 1 {
      assert names[j] in names && names[j] == Suffixed(names[i], m);
    } else if n > 1 {
      assert names[i] in names && names[i] == Suffixed(names[j], n);
    }
  }

  /** Names come out pairwise distinct exactly when no declared name reads like an assigned suffix. */
  lemma DistinctIffNoClash(names: seq<string>)
    ensures Distinct(Deduped(names)) <==> !Clash(names)
  {
    if !Distinct(Deduped(names)) {
      var i, j :| 0 <= i < j < |names| && Deduped(names)[i] == Deduped(names)[j];
      EqualRenamesClash(names, i, j);
    }
    if Clash(names) {
      var b, k: nat :| 2 <= k <= multiset(names)[b] && Suffixed(b, k) in names;
      var i := OccurrenceHit(names, b, k);
      assert multiset(names)[Suffixed(b, k)] >= 1;
      var j := OccurrenceHit(names, Suffixed(b, k), 1);
      assert Deduped(names)[i] == Suffixed(b, k) == Deduped(names)[j];
      assert names[i] != names[j] by {
        assert |Suffixed(b, k)| > |b|;
      }
      assert i != j;
    }
  }

  /** No name ends in `#` and digits, so nothing can clash: true of every Rust path. */
  lemma PlainNamesStayDistinct(names: seq<string>)
    requires forall b, k :: Suffixed(b, k) !in names
    ensures Distinct(Deduped(names))
  {
    DistinctIffNoClash(names);
  }

  /** The exception is real: `f`, `f`, `f#2` leaves two functions called `f#2`. */
  lemma ClashExample()
    ensures var names := ["f", "f", "f#2"];
      Deduped(names)[1] == Deduped(names)[2] == "f#2"
  {
    var names := ["f", "f", "f#2"];
    assert names[..1] == ["f"] && names[..2] == ["f", "f"] && names[..3] == names;
    assert Occurrence(names, 1) == 2 && Occurrence(names, 2) == 1;
    assert Decimal(2) == "2";
  }

  /** With clash-free names the call graph of the file has one entry per function. */
  lemma DedupedFileLosesNothing(names: seq<string>, functions: seq<CallGraphs.ParsedFunction>)
    requires |functions| == |names|
    requires forall i :: 0 <= i < |names| ==> functions[i].name == Graphs.Node(Deduped(names)[i])
    ensures |CallGraphs.EdgesOf(functions).Keys| == |functions| <==> !Clash(names)
  {
    hide Clash;
    DistinctIffNoClash(names);
    CallGraphs.NoFunctionLost(functions);
    var d := Deduped(names);
    assert CallGraphs.DistinctNames(functions) <==> Distinct(d) by {
      assert forall i, j :: 0 <= i < j < |names| ==> (functions[i].name == functions[j].name <==> d[i] == d[j]);
    }
  }
}
