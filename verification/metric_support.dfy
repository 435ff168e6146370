/** How honestly a metric is supported, per file and folded over a project. */
module MetricSupports {
  import opened Wrappers

  datatype MetricSupport = Supported | Degraded(reason: string) | Unsupported

  datatype Axis = CyclomaticComplexity | IoInLoops | EconomicImpact | EcologicalImpact | CallGraph | CrossFileDependencies

  datatype LanguageCapabilities = LanguageCapabilities(
    cyclomaticComplexity: MetricSupport,
    ioInLoops: MetricSupport,
    economicImpact: MetricSupport,
    ecologicalImpact: MetricSupport,
    callGraph: MetricSupport,
    crossFileDependencies: MetricSupport)
  {
    function On(axis: Axis): MetricSupport {
      match axis
      case CyclomaticComplexity => cyclomaticComplexity
      case IoInLoops => ioInLoops
      case EconomicImpact => economicImpact
      case EcologicalImpact => ecologicalImpact
      case CallGraph => callGraph
      case CrossFileDependencies => crossFileDependencies
    }
  }

  /** Declaring support on one axis is what that axis reads, and no other axis notices. */
  lemma AxesAreApart(caps: LanguageCapabilities, s: MetricSupport, axis: Axis)
    ensures caps.(cyclomaticComplexity := s).On(axis) == if axis == CyclomaticComplexity then s else caps.On(axis)
    ensures caps.(ioInLoops := s).On(axis) == if axis == IoInLoops then s else caps.On(axis)
    ensures caps.(economicImpact := s).On(axis) == if axis == EconomicImpact then s else caps.On(axis)
    ensures caps.(ecologicalImpact := s).On(axis) == if axis == EcologicalImpact then s else caps.On(axis)
    ensures caps.(callGraph := s).On(axis) == if axis == CallGraph then s else caps.On(axis)
    ensures caps.(crossFileDependencies := s).On(axis) == if axis == CrossFileDependencies then s else caps.On(axis)
  {
  }

  /** A file without declared capabilities supports everything. */
  datatype Capabilities = Declared(caps: LanguageCapabilities) | Undeclared {
    function On(axis: Axis): MetricSupport {
      match this
      case Declared(caps) => caps.On(axis)
      case Undeclared => Supported
    }
  }

  /** The project-level verdict on one axis. The degraded text is made of a count and the distinct reasons;
      the two are kept apart here. */
  datatype AxisSupport = AllSupported | Partial(supported: nat, total: nat, reasons: set<string>) | NoneSupported

  ghost function CleanAmong<K>(keys: set<K>, axis: Axis, files: map<K, Capabilities>): set<K> {
    set k | k in keys && k in files && files[k].On(axis) == Supported
  }

  ghost function Reasons<K>(keys: set<K>, axis: Axis, files: map<K, Capabilities>): set<string> {
    set k | k in keys && k in files && files[k].On(axis).Degraded? :: files[k].On(axis).reason
  }

  class AxisTally {
    var total: nat
    var supported: nat
    var anyDegraded: bool
    var anyUnsupported: bool
    var reasons: set<string>

    constructor ()
      ensures total == 0 && supported == 0 && !anyDegraded && !anyUnsupported && reasons == {}
    {
      total, supported, anyDegraded, anyUnsupported, reasons := 0, 0, false, false, {};
    }

    /** The tally says of these files what it claims to say. */
    ghost predicate Counts<K>(keys: set<K>, axis: Axis, files: map<K, Capabilities>)
      reads this
    {
      && total == |keys|
      && supported == |CleanAmong(keys, axis, files)|
      && (anyDegraded <==> exists k :: k in keys && k in files && files[k].On(axis).Degraded?)
      && (anyUnsupported <==> exists k :: k in keys && k in files && files[k].On(axis) == Unsupported)
      && reasons == Reasons(keys, axis, files)
    }

    method Record(support: MetricSupport)
      modifies this
      ensures total == old(total) + 1
      ensures supported == old(supported) + (if support == Supported then 1 else 0)
      ensures anyDegraded == (old(anyDegraded) || support.Degraded?)
      ensures anyUnsupported == (old(anyUnsupported) || support == Unsupported)
      ensures reasons == old(reasons) + (if support.Degraded? then {support.reason} else {})
    {
      total := total + 1;
      match support
      case Supported => supported := supported + 1;
      case Degraded(reason) =>
        anyDegraded := true;
        reasons := reasons + {reason};
      case Unsupported => anyUnsupported := true;
    }

    /** Recording one more file keeps the tally right. */
    method RecordFile<K(==)>(ghost keys: set<K>, axis: Axis, files: map<K, Capabilities>, k: K)
      requires k in files && k !in keys && Counts(keys, axis, files)
      modifies this
      ensures Counts(keys + {k}, axis, files)
    {
      hide CleanAmong, Reasons;
      CleanGrows(keys, axis, files, k);
      ReasonsGrow(keys, axis, files, k);
      Record(files[k].On(axis));
      assert k in keys + {k};
    }

    function Resolve(): AxisSupport
      reads this
    {
      if anyDegraded || (supported > 0 && anyUnsupported) then Partial(supported, total, reasons)
      else if anyUnsupported then NoneSupported
      else AllSupported
    }
  }

  /** The verdict stated on the files alone, without a tally or an order. */
  ghost predicate IsVerdict<K>(files: map<K, Capabilities>, axis: Axis, r: AxisSupport) {
    && (r.NoneSupported? <==> files.Keys != {} && forall k :: k in files ==> files[k].On(axis) == Unsupported)
    && (r.AllSupported? <==> forall k :: k in files ==> files[k].On(axis) == Supported)
    && (r.Partial? ==> r == Partial(|CleanAmong(files.Keys, axis, files)|, |files.Keys|, Reasons(files.Keys, axis, files)))
  }

  /** Contents alone decide: two folds of the same files agree. */
  lemma VerdictUnique<K>(files: map<K, Capabilities>, axis: Axis, r: AxisSupport, s: AxisSupport)
    requires IsVerdict(files, axis, r) && IsVerdict(files, axis, s)
    ensures r == s
  {
  }

  lemma CleanGrows<K>(keys: set<K>, axis: Axis, files: map<K, Capabilities>, k: K)
    requires k in files && k !in keys
    ensures |CleanAmong(keys + {k}, axis, files)|
         == |CleanAmong(keys, axis, files)| + (if files[k].On(axis) == Supported then 1 else 0)
  {
    if files[k].On(axis) == Supported {
      assert CleanAmong(keys + {k}, axis, files) == CleanAmong(keys, axis, files) + {k};
    } else {
      assert CleanAmong(keys + {k}, axis, files) == CleanAmong(keys, axis, files);
    }
  }

  lemma ReasonsGrow<K>(keys: set<K>, axis: Axis, files: map<K, Capabilities>, k: K)
    requires k in files
    ensures Reasons(keys + {k}, axis, files)
         == Reasons(keys, axis, files) + (if files[k].On(axis).Degraded? then {files[k].On(axis).reason} else {})
  {
  }

  lemma ResolveIsVerdict<K>(files: map<K, Capabilities>, axis: Axis, tally: AxisTally)
    requires tally.Counts(files.Keys, axis, files)
    ensures IsVerdict(files, axis, tally.Resolve())
  {
    var clean := CleanAmong(files.Keys, axis, files);
    assert tally.supported == 0 <==> clean == {};
    assert forall k :: k in files && files[k].On(axis) == Supported ==> k in clean;
    if tally.supported > 0 {
      var k :| k in clean;
      assert files[k].On(axis) == Supported;
    }
  }

  lemma FreshTally<K>(files: map<K, Capabilities>, axis: Axis, tally: AxisTally)
    requires tally.total == 0 && tally.supported == 0 && !tally.anyDegraded && !tally.anyUnsupported && tally.reasons == {}
    ensures tally.Counts({}, axis, files)
  {
  }

  /** One axis of the project fold, over the files in whatever order the map yields them. */
  method FoldAxis<K(==)>(files: map<K, Capabilities>, axis: Axis) returns (r: AxisSupport)
    ensures IsVerdict(files, axis, r)
  {
    var tally := new AxisTally();
    var rest := files.Keys;
    ghost var done: set<K> := {};
    FreshTally(files, axis, tally);
    hide CleanAmong, Reasons, IsVerdict;
    while rest != {}
      invariant fresh(tally) && rest + done == files.Keys && rest !! done
      invariant tally.Counts(done, axis, files)
    {
      var k :| k in rest;
      MoveOne(rest, done, k);
      tally.RecordFile(done, axis, files, k);
      rest, done := rest - {k}, done + {k};
    }
    assert done == files.Keys;
    ResolveIsVerdict(files, axis, tally);
    r := tally.Resolve();
  }
}
