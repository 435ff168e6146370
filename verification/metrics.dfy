/** What one measured file contributes to a project, and the totals a project makes of it.
    Floating-point costs are modelled as reals. */
module Metrics {
  import opened Saturating
  import opened MetricSupports
  import opened Wrappers

  datatype Level = NoLevel | Low | Moderate | High | Critical {
    function Rank(): nat {
      match this
      case NoLevel => 0
      case Low => 1
      case Moderate => 2
      case High => 3
      case Critical => 4
    }
  }

  /** Worse levels rank higher. */
  lemma RankOrders()
    ensures NoLevel.Rank() < Low.Rank() < Moderate.Rank() < High.Rank() < Critical.Rank()
  {
  }

  /** The efficiency class is a function of the grams of CO2, so it is not stored. */
  datatype EcologicalCost = EcologicalCost(co2: real, energy: real) {
    function Add(other: EcologicalCost): EcologicalCost {
      EcologicalCost(co2 + other.co2, energy + other.energy)
    }
  }

  function FoldEcological(acc: Option<EcologicalCost>, next: Option<EcologicalCost>): Option<EcologicalCost> {
    match (acc, next)
    case (Some(a), Some(b)) => Some(a.Add(b))
    case (Some(a), None) => Some(a)
    case (None, Some(b)) => Some(b)
    case (None, None) => None
  }

  datatype Warning = Warning(critical: bool, line: nat)

  datatype CodeMetrics = CodeMetrics(
    cyclomatic: u32,
    transitive: u32,
    hidden: u32,
    maxCallDepth: nat,
    level: Level,
    warnings: seq<Warning>,
    ioInLoops: nat,
    unclassifiable: nat,
    ecological: Option<EcologicalCost>,
    capabilities: Capabilities)
  {
    function Of(measure: Measure): nat {
      match measure
      case OfCyclomatic => cyclomatic
      case OfTransitive => transitive
      case OfHidden => hidden
      case OfDepth => maxCallDepth
      case OfWarnings => |warnings|
      case OfCritical => CountCritical(warnings)
      case OfIoInLoops => ioInLoops
      case OfUnclassifiable => unclassifiable
      case OfHotspot => if level == Critical then 1 else 0
      case OfUnclassifiableWord => unclassifiable % 0x1_0000_0000
      case OfLevel => level.Rank()
    }
  }

  /** The numbers of a file that a project adds up or maximises. */
  datatype Measure =
    | OfCyclomatic | OfTransitive | OfHidden | OfDepth | OfWarnings | OfCritical | OfIoInLoops | OfUnclassifiable | OfHotspot
    | OfUnclassifiableWord | OfLevel

  function CountCritical(warnings: seq<Warning>): nat {
    if warnings == [] then 0 else CountCritical(warnings[1..]) + if warnings[0].critical then 1 else 0
  }

  lemma {:induction false} CountCriticalConcat(a: seq<Warning>, b: seq<Warning>)
    ensures CountCritical(a + b) == CountCritical(a) + CountCritical(b)
  {
    if a == [] {
      assert a + b == b;
    } else {
      assert (a + b)[1..] == a[1..] + b;
      CountCriticalConcat(a[1..], b);
    }
  }

  /** As many as there are places with a critical warning. */
  lemma {:induction false} CriticalCounted(warnings: seq<Warning>)
    ensures CountCritical(warnings) == |set i | 0 <= i < |warnings| && warnings[i].critical|
  {
    var critical := set i | 0 <= i < |warnings| && warnings[i].critical;
    if warnings == [] {
      assert critical == {};
    } else {
      var last := |warnings| - 1;
      var before := set i | 0 <= i < last && warnings[..last][i].critical;
      CriticalCounted(warnings[..last]);
      CountCriticalConcat(warnings[..last], [warnings[last]]);
      assert warnings == warnings[..last] + [warnings[last]];
      assert last !in before && critical == before + if warnings[last].critical then {last} else {};
    }
  }

  // ----- totals stated without an order -----

  ghost function TotalOf<K>(keys: set<K>, files: map<K, CodeMetrics>, f: Measure): nat {
    SumOf(keys, map k | k in files :: files[k].Of(f))
  }

  /** The largest value of f over the files, zero if there are none. */
  ghost predicate IsMaxOf<K>(keys: set<K>, files: map<K, CodeMetrics>, f: Measure, m: nat) {
    && (forall k :: k in keys && k in files ==> files[k].Of(f) <= m)
    && (m == 0 || exists k :: k in keys && k in files && files[k].Of(f) == m)
  }

  ghost function RealSumOf<K>(s: set<K>, w: map<K, real>): real {
    if s == {} then 0.0 else
      var k :| k in s;
      (if k in w then w[k] else 0.0) + RealSumOf(s - {k}, w)
  }

  lemma {:induction false} RealSumOfRemove<K>(s: set<K>, w: map<K, real>, k: K)
    requires k in s
    ensures RealSumOf(s, w) == (if k in w then w[k] else 0.0) + RealSumOf(s - {k}, w)
    decreases s
  {
    var j :| j in s && RealSumOf(s, w) == (if j in w then w[j] else 0.0) + RealSumOf(s - {j}, w);
    if j != k {
      RealSumOfRemove(s - {j}, w, k);
      RealSumOfRemove(s - {k}, w, j);
      assert s - {j} - {k} == s - {k} - {j};
    }
  }

  lemma RealSumOfAdd<K>(s: set<K>, w: map<K, real>, k: K)
    requires k !in s
    ensures RealSumOf(s + {k}, w) == RealSumOf(s, w) + (if k in w then w[k] else 0.0)
  {
    RealSumOfRemove(s + {k}, w, k);
    assert s + {k} - {k} == s;
  }

  ghost function Costed<K>(keys: set<K>, files: map<K, CodeMetrics>): set<K> {
    set k | k in keys && k in files && files[k].ecological.Some?
  }

  /** Absent when no file has an impact, otherwise the sum over the files that have one. */
  ghost predicate IsEcologicalTotal<K>(keys: set<K>, files: map<K, CodeMetrics>, r: Option<EcologicalCost>) {
    var costed := Costed(keys, files);
    && (r.None? <==> costed == {})
    && (r.Some? ==>
          && r.value.co2 == RealSumOf(costed, map k | k in files && files[k].ecological.Some? :: files[k].ecological.value.co2)
          && r.value.energy == RealSumOf(costed, map k | k in files && files[k].ecological.Some? :: files[k].ecological.value.energy))
  }

  lemma EcologicalTotalAdd<K>(keys: set<K>, files: map<K, CodeMetrics>, r: Option<EcologicalCost>, k: K)
    requires IsEcologicalTotal(keys, files, r) && k in files && k !in keys
    ensures IsEcologicalTotal(keys + {k}, files, FoldEcological(r, files[k].ecological))
  {
    var costed := Costed(keys, files);
    if files[k].ecological.Some? {
      assert Costed(keys + {k}, files) == costed + {k};
      RealSumOfAdd(costed, map k | k in files && files[k].ecological.Some? :: files[k].ecological.value.co2, k);
      RealSumOfAdd(costed, map k | k in files && files[k].ecological.Some? :: files[k].ecological.value.energy, k);
    } else {
      assert Costed(keys + {k}, files) == costed;
    }
  }

  // ----- totals of two groups together -----

  lemma {:induction false} RealSumOfUnion<K>(s: set<K>, t: set<K>, w: map<K, real>)
    requires s !! t
    ensures RealSumOf(s + t, w) == RealSumOf(s, w) + RealSumOf(t, w)
    decreases t
  {
    if t == {} {
      assert s + t == s;
    } else {
      var k :| k in t;
      RealSumOfRemove(t, w, k);
      RealSumOfUnion(s, t - {k}, w);
      RealSumOfAdd(s + (t - {k}), w, k);
      assert s + (t - {k}) + {k} == s + t;
    }
  }

  lemma MaxOfUnion<K>(s: set<K>, t: set<K>, files: map<K, CodeMetrics>, f: Measure, m: nat, n: nat)
    requires IsMaxOf(s, files, f, m) && IsMaxOf(t, files, f, n)
    ensures IsMaxOf(s + t, files, f, if m < n then n else m)
  {
  }

  lemma EcologicalTotalUnion<K>(s: set<K>, t: set<K>, files: map<K, CodeMetrics>, a: Option<EcologicalCost>, b: Option<EcologicalCost>)
    requires s !! t && IsEcologicalTotal(s, files, a) && IsEcologicalTotal(t, files, b)
    ensures IsEcologicalTotal(s + t, files, FoldEcological(a, b))
  {
    assert Costed(s + t, files) == Costed(s, files) + Costed(t, files);
    RealSumOfUnion(Costed(s, files), Costed(t, files), map k | k in files && files[k].ecological.Some? :: files[k].ecological.value.co2);
    RealSumOfUnion(Costed(s, files), Costed(t, files), map k | k in files && files[k].ecological.Some? :: files[k].ecological.value.energy);
  }

  // ----- the project's numbers -----

  datatype ProjectTotals = ProjectTotals(
    cyclomatic: u32,
    transitive: u32,
    hidden: u32,
    maxCallDepth: nat,
    warnings: nat,
    criticalWarnings: nat,
    ioInLoops: nat,
    unclassifiable: nat,
    hotspots: nat)

  ghost predicate IsProjectTotals<K>(keys: set<K>, files: map<K, CodeMetrics>, t: ProjectTotals) {
    && t.cyclomatic == Clamp(TotalOf(keys, files, OfCyclomatic))
    && t.transitive == Clamp(TotalOf(keys, files, OfTransitive))
    && t.hidden == Clamp(TotalOf(keys, files, OfHidden))
    && IsMaxOf(keys, files, OfDepth, t.maxCallDepth)
    && t.warnings == TotalOf(keys, files, OfWarnings)
    && t.criticalWarnings == TotalOf(keys, files, OfCritical)
    && t.ioInLoops == TotalOf(keys, files, OfIoInLoops)
    && t.unclassifiable == TotalOf(keys, files, OfUnclassifiable)
    && t.hotspots == TotalOf(keys, files, OfHotspot)
  }

  function AddFile(t: ProjectTotals, m: CodeMetrics): ProjectTotals {
    ProjectTotals(
      SatAdd(t.cyclomatic, m.cyclomatic),
      SatAdd(t.transitive, m.transitive),
      SatAdd(t.hidden, m.hidden),
      if t.maxCallDepth < m.maxCallDepth then m.maxCallDepth else t.maxCallDepth,
      t.warnings + |m.warnings|,
      t.criticalWarnings + CountCritical(m.warnings),
      t.ioInLoops + m.ioInLoops,
      t.unclassifiable + m.unclassifiable,
      t.hotspots + if m.level == Critical then 1 else 0)
  }

  lemma TotalOfAdd<K>(keys: set<K>, files: map<K, CodeMetrics>, f: Measure, k: K)
    requires k in files && k !in keys
    ensures TotalOf(keys + {k}, files, f) == TotalOf(keys, files, f) + files[k].Of(f)
  {
    SumOfAdd(keys, map k | k in files :: files[k].Of(f), k);
  }

  lemma MaxOfAdd<K>(keys: set<K>, files: map<K, CodeMetrics>, f: Measure, m: nat, k: K)
    requires k in files && IsMaxOf(keys, files, f, m)
    ensures IsMaxOf(keys + {k}, files, f, if m < files[k].Of(f) then files[k].Of(f) else m)
  {
  }

  lemma ProjectTotalsAdd<K>(keys: set<K>, files: map<K, CodeMetrics>, t: ProjectTotals, k: K)
    requires IsProjectTotals(keys, files, t) && k in files && k !in keys
    ensures IsProjectTotals(keys + {k}, files, AddFile(t, files[k]))
  {
    hide TotalOf, IsMaxOf;
    TotalOfAdd(keys, files, OfCyclomatic, k);
    TotalOfAdd(keys, files, OfTransitive, k);
    TotalOfAdd(keys, files, OfHidden, k);
    MaxOfAdd(keys, files, OfDepth, t.maxCallDepth, k);
    TotalOfAdd(keys, files, OfWarnings, k);
    TotalOfAdd(keys, files, OfCritical, k);
    TotalOfAdd(keys, files, OfIoInLoops, k);
    TotalOfAdd(keys, files, OfUnclassifiable, k);
    TotalOfAdd(keys, files, OfHotspot, k);
  }

  // ----- the same files under other keys -----

  /** The same files, keyed otherwise: no two keys become one. */
  ghost predicate Renames<K, L>(files: map<K, CodeMetrics>, named: map<L, CodeMetrics>, nameOf: map<K, L>) {
    && nameOf.Keys == files.Keys
    && (forall k :: k in files ==> nameOf[k] in named && named[nameOf[k]] == files[k])
    && (forall j, k :: j in files && k in files && nameOf[j] == nameOf[k] ==> j == k)
    && (forall l :: l in named ==> exists k :: k in files && nameOf[k] == l)
  }

  ghost function Renamed<K, L>(keys: set<K>, nameOf: map<K, L>): set<L> {
    set k | k in keys && k in nameOf :: nameOf[k]
  }

  lemma {:induction false} TotalOfRenamed<K, L>(keys: set<K>, files: map<K, CodeMetrics>, named: map<L, CodeMetrics>, nameOf: map<K, L>, f: Measure)
    requires Renames(files, named, nameOf) && keys <= files.Keys
    ensures TotalOf(keys, files, f) == TotalOf(Renamed(keys, nameOf), named, f)
    decreases keys
  {
    if keys == {} {
      assert Renamed(keys, nameOf) == {};
    } else {
      var k :| k in keys;
      var rest := keys - {k};
      TotalOfRenamed(rest, files, named, nameOf, f);
      assert rest + {k} == keys;
      assert Renamed(rest, nameOf) + {nameOf[k]} == Renamed(keys, nameOf);
      TotalOfAdd(rest, files, f, k);
      TotalOfAdd(Renamed(rest, nameOf), named, f, nameOf[k]);
    }
  }

  /** The project's totals do not depend on how its files are named. */
  lemma ProjectTotalsRenamed<K, L>(files: map<K, CodeMetrics>, named: map<L, CodeMetrics>, nameOf: map<K, L>, t: ProjectTotals)
    requires Renames(files, named, nameOf) && IsProjectTotals(files.Keys, files, t)
    ensures IsProjectTotals(named.Keys, named, t)
  {
    hide TotalOf;
    assert Renamed(files.Keys, nameOf) == named.Keys;
    TotalOfRenamed(files.Keys, files, named, nameOf, OfCyclomatic);
    TotalOfRenamed(files.Keys, files, named, nameOf, OfTransitive);
    TotalOfRenamed(files.Keys, files, named, nameOf, OfHidden);
    TotalOfRenamed(files.Keys, files, named, nameOf, OfWarnings);
    TotalOfRenamed(files.Keys, files, named, nameOf, OfCritical);
    TotalOfRenamed(files.Keys, files, named, nameOf, OfIoInLoops);
    TotalOfRenamed(files.Keys, files, named, nameOf, OfUnclassifiable);
    TotalOfRenamed(files.Keys, files, named, nameOf, OfHotspot);
    MaxOfRenamed(files, named, nameOf, OfDepth, t.maxCallDepth);
  }

  lemma MaxOfRenamed<K, L>(files: map<K, CodeMetrics>, named: map<L, CodeMetrics>, nameOf: map<K, L>, f: Measure, m: nat)
    requires Renames(files, named, nameOf) && IsMaxOf(files.Keys, files, f, m)
    ensures IsMaxOf(named.Keys, named, f, m)
  {
  }
}
