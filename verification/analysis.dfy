/**
 * Analysis: the base class of every analysis.  It owns the store, the event
 * counter and the histogram registry; `doAnalysis` counts "all" and, when the
 * analysis' own `analyze` accepts the event, "final"; `doFinalization` writes
 * the histograms and then prints the counts.
 *
 * The subclasses are a closed set, so the class holds which one it is as a
 * `Policy` and dispatches `initialize` and `analyze` on it.
 */
module Analysis {
  import opened Wrappers
  import opened TupleReader
  import opened AnalysisHelpers
  import opened StandardHistograms
  import opened HistManager
  import opened EventCounter
  import opened CutFlow
  import ZAnalysis
  import WAnalysis
  import WZAnalysis
  import ZZAnalysis
  import HWWAnalysis
  import ZPrimeAnalysis

  /** The analysis classes: the base class, whose `analyze` accepts every
      event, and the six analyses derived from it. */
  datatype Policy = Base | Z | W | WZ | ZZ | HWW | ZPrime

  /** `type(self).__name__`. */
  function ClassName(p: Policy): string
  {
    match p
    case Base => "Analysis"
    case Z => "ZAnalysis"
    case W => "WAnalysis"
    case WZ => "WZAnalysis"
    case ZZ => "ZZAnalysis"
    case HWW => "HWWAnalysis"
    case ZPrime => "ZPrimeAnalysis"
  }

  /** The cut labels the policy's `analyze` counts, in order.  None of them is
      one of the driver's own labels, and none occurs twice. */
  function Labels(p: Policy): (r: seq<string>)
    ensures PolicyCuts(r)
  {
    match p
    case Base => []
    case Z => ZAnalysis.Labels
    case W => WAnalysis.Labels
    case WZ => WZAnalysis.Labels
    case ZZ => ZZAnalysis.Labels
    case HWW => HWWAnalysis.Labels
    case ZPrime => ZPrimeAnalysis.Labels
  }

  /** How many of the policy's labels an event is counted at. */
  function Stage(p: Policy, s: Store, fv: FourVectors, zMass: real): (r: nat)
    requires s.Loaded()
    ensures r <= |Labels(p)|
  {
    match p
    case Base => 0
    case Z => ZAnalysis.Stage(s)
    case W => WAnalysis.Stage(s)
    case WZ => WZAnalysis.Stage(s)
    case ZZ => ZZAnalysis.Stage(s, fv, zMass)
    case HWW => HWWAnalysis.Stage(s)
    case ZPrime => ZPrimeAnalysis.Stage(s, fv)
  }

  /** The policy's `analyze` returns True. */
  predicate Passes(p: Policy, s: Store, fv: FourVectors, zMass: real)
    requires s.Loaded()
  {
    match p
    case Base => true
    case Z => ZAnalysis.Passes(s, fv, zMass)
    case W => WAnalysis.Passes(s, fv, zMass)
    case WZ => WZAnalysis.Passes(s, fv, zMass)
    case ZZ => ZZAnalysis.Passes(s, fv, zMass)
    case HWW => HWWAnalysis.Passes(s, fv, zMass)
    case ZPrime => ZPrimeAnalysis.Passes(s, fv, zMass)
  }

  /** The histograms the policy fills for an event it accepts, in order. */
  function FillNames(p: Policy, s: Store): seq<string>
    requires s.Loaded()
  {
    match p
    case Base => []
    case Z => ZAnalysis.FillNames(s)
    case W => WAnalysis.FillNames(s)
    case WZ => WZAnalysis.FillNames(|GoodLeptons(s)|)
    case ZZ => ZZAnalysis.FillNames(|ZZAnalysis.GoodLeptons(s)|)
    case HWW => HWWAnalysis.FillNames()
    case ZPrime => ZPrimeAnalysis.FillNames(s)
  }

  /** What a policy makes of an event: how many of its labels the event is
      counted at, whether `analyze` accepts it, and the histograms it then
      fills. */
  datatype Verdict = Verdict(stage: nat, passed: bool, fills: seq<string>)

  /** The policy's verdict on the loaded row of `s` (a store with no row
      loaded is never analysed; it gets the empty verdict). */
  ghost function Evaluate(p: Policy, s: Store, fv: FourVectors, zMass: real): (r: Verdict)
    ensures r.stage <= |Labels(p)|
    ensures s.Loaded() ==> r.passed == Passes(p, s, fv, zMass)
    ensures s.Loaded() && r.passed ==> r.stage == |Labels(p)|
  {
    if s.Loaded() then
      var v := Verdict(Stage(p, s, fv, zMass), Passes(p, s, fv, zMass), FillNames(p, s));
      if v.passed then (PassingReachesEveryCut(p, s, fv, zMass); v) else v
    else Verdict(0, false, [])
  }

  /** The policy's verdict on every store, as one function. */
  ghost function Semantics(p: Policy, fv: FourVectors, zMass: real): (ev: Store -> Verdict)
    ensures forall s :: ev(s) == Evaluate(p, s, fv, zMass)
  {
    s => Evaluate(p, s, fv, zMass)
  }

  /** The analysis' own histograms, which its `initialize` registers first. */
  function CustomHistograms(p: Policy): seq<(string, Histogram)>
  {
    match p
    case ZZ => ZZAnalysis.CustomHistograms
    case HWW => HWWAnalysis.CustomHistograms
    case _ => []
  }

  /** The standard histograms its `initialize` then registers, by name. */
  function StandardNames(p: Policy): seq<string>
  {
    match p
    case Base => []
    case Z => ZAnalysis.HistogramNames()
    case W => WAnalysis.HistogramNames()
    case WZ => WZAnalysis.HistogramNames()
    case ZZ => ZZAnalysis.HistogramNames()
    case HWW => HWWAnalysis.HistogramNames()
    case ZPrime => ZPrimeAnalysis.HistogramNames()
  }

  /** The registry after the policy's `initialize`, starting from `m`. */
  function InitialRegistry(p: Policy, m: map<string, Histogram>): map<string, Histogram>
  {
    RegisterAllStandard(RegisterAll(m, CustomHistograms(p)), StandardNames(p))
  }

  /** An event `analyze` accepts has been counted at every one of the policy's
      labels. */
  lemma PassingReachesEveryCut(p: Policy, s: Store, fv: FourVectors, zMass: real)
    requires s.Loaded() && Passes(p, s, fv, zMass)
    ensures Stage(p, s, fv, zMass) == |Labels(p)|
  {
    match p
    case Base =>
    case Z => ZAnalysis.PassingEvent(s, fv, zMass);
    case W => WAnalysis.PassingEvent(s, fv, zMass);
    case WZ => WZAnalysis.PassingEvent(s, fv, zMass);
    case ZZ => ZZAnalysis.PassingEvent(s, fv, zMass);
    case HWW => HWWAnalysis.PassingEvent(s, fv, zMass);
    case ZPrime => ZPrimeAnalysis.PassingEvent(s, fv, zMass);
  }

  /** Every policy but WZ counts "no cut" first, for every event. */
  lemma NoCutFirst(p: Policy, s: Store, fv: FourVectors, zMass: real)
    requires s.Loaded() && p != Base && p != WZ
    ensures |Labels(p)| > 0 && Labels(p)[0] == "no cut"
    ensures Stage(p, s, fv, zMass) >= 1
  {
  }

  /** Every histogram a policy fills, for any event it accepts, is one its
      `initialize` registered in an empty registry. */
  lemma FillsRegistered(p: Policy, s: Store)
    requires s.Loaded()
    ensures forall n :: n in FillNames(p, s) ==> n in InitialRegistry(p, map[])
  {
    match p
    case Base =>
    case Z => ZAnalysis.FillsRegistered(s);
    case W => WAnalysis.FillsRegistered(s);
    case WZ => WZAnalysis.FillsRegistered(|GoodLeptons(s)|);
    case ZZ => ZZAnalysis.FillsInitialRegistry(|ZZAnalysis.GoodLeptons(s)|);
    case HWW => HWWAnalysis.FillsInitialRegistry();
    case ZPrime => ZPrimeAnalysis.FillsRegistered(s);
  }

  /** The counting of `doAnalysis` on the loaded row of `s`: "all", the
      policy's `analyze`, then "final" when it accepted the event. */
  method CountAndAnalyze(p: Policy, s: Store, fv: FourVectors, zMass: real, isData: bool, counter: EventCounter)
    returns (passed: bool, fills: seq<Fill>)
    requires s.Loaded() && counter.Valid()
    modifies counter
    ensures counter.Valid()
    ensures counter.updates == old(counter.updates) + EventUpdates(Labels(p), Stage(p, s, fv, zMass), CountWeight(s, isData), passed)
    ensures passed == Passes(p, s, fv, zMass)
    ensures fills == if passed then FillAll(FillNames(p, s), CountWeight(s, isData)) else []
  {
    var weight := CountWeight(s, isData);
    ghost var before := counter.updates;
    counter.Update("all", weight);
    passed, fills := Analyze(p, s, fv, zMass, isData, counter);
    if passed {
      counter.Update("final", weight);
    }
    AppendEvent(before, Labels(p), Stage(p, s, fv, zMass), weight, passed, counter.updates);
  }

  /** The policy's `analyze` on the loaded row of `s`. */
  method Analyze(p: Policy, s: Store, fv: FourVectors, zMass: real, isData: bool, counter: EventCounter)
    returns (passed: bool, fills: seq<Fill>)
    requires s.Loaded() && counter.Valid()
    modifies counter
    ensures counter.Valid()
    ensures counter.updates == old(counter.updates) + Tally(Labels(p)[..Stage(p, s, fv, zMass)], CountWeight(s, isData))
    ensures passed == Passes(p, s, fv, zMass)
    ensures fills == if passed then FillAll(FillNames(p, s), CountWeight(s, isData)) else []
  {
    match p
    case Base =>
      TallyNone(counter.updates, Labels(Base), CountWeight(s, isData));
      passed, fills := true, [];
    case Z => passed, fills := ZAnalysis.Analyze(s, fv, zMass, isData, counter);
    case W => passed, fills := WAnalysis.Analyze(s, fv, zMass, isData, counter);
    case WZ => passed, fills := WZAnalysis.Analyze(s, fv, zMass, isData, counter);
    case ZZ => passed, fills := ZZAnalysis.Analyze(s, fv, zMass, isData, counter);
    case HWW => passed, fills := HWWAnalysis.Analyze(s, fv, zMass, isData, counter);
    case ZPrime => passed, fills := ZPrimeAnalysis.Analyze(s, fv, zMass, isData, counter);
  }

  /** One line of what `doFinalization` writes out: a histogram written to the
      output file, or a row of the printed cut-flow table. */
  datatype Output = Written(name: string, histogram: Histogram) | Printed(row: ReportRow)

  /** The output of writing `written[i]` under `order[i]`, for each i in turn. */
  function Writes(order: seq<string>, written: seq<Histogram>): (r: seq<Output>)
    requires |order| == |written|
    ensures |r| == |order| && forall i :: 0 <= i < |order| ==> r[i] == Written(order[i], written[i])
  {
    seq(|order|, i requires 0 <= i < |order| => Written(order[i], written[i]))
  }

  /** The output of printing each row in turn. */
  function Prints(rows: seq<ReportRow>): (r: seq<Output>)
    ensures |r| == |rows| && forall i :: 0 <= i < |rows| ==> r[i] == Printed(rows[i])
  {
    seq(|rows|, i requires 0 <= i < |rows| => Printed(rows[i]))
  }

  class Analysis {
    const policy: Policy
    const name: string
    const totName: string
    var isData: bool
    /** The tuple reader; the job installs the tree and loads each row. */
    var store: Store
    const counter: EventCounter
    const hists: HistManager
    /** The four-vector functions and `Constants.Z_Mass`. */
    const fv: FourVectors
    const zMass: real
    /** Every histogram fill so far, oldest first. */
    var fills: seq<Fill>
    /** Everything `doFinalization` has written out so far. */
    var output: seq<Output>

    ghost predicate Valid()
      reads this, counter
    {
      counter.Valid() && store.Valid()
    }

    /** A fresh analysis for the sample `auxName`: an empty store, counter and
        registry, both named `auxName + "." + ` the class name, and not data. */
    constructor(auxName: string, policy: Policy, fv: FourVectors, zMass: real)
      ensures this.policy == policy && name == ClassName(policy) && totName == auxName + "." + name
      ensures !isData && store == Store([], None, [], []) && this.fv == fv && this.zMass == zMass
      ensures fresh(counter) && counter.name == totName && counter.updates == [] && counter.raw == map[]
      ensures fresh(hists) && hists.name == totName && hists.histograms == map[]
      ensures fills == [] && output == []
      ensures Valid()
    {
      this.policy := policy;
      name := ClassName(policy);
      totName := auxName + "." + ClassName(policy);
      isData := false;
      store := Store([], None, [], []);
      counter := new EventCounter(auxName + "." + ClassName(policy));
      hists := new HistManager(auxName + "." + ClassName(policy));
      this.fv := fv;
      this.zMass := zMass;
      fills := [];
      output := [];
    }

    method SetIsData(isData: bool)
      modifies this
      ensures this.isData == isData
      ensures store == old(store) && fills == old(fills) && output == old(output)
    {
      this.isData := isData;
    }

    /** `doInitialization`: the policy's `initialize`, nothing else. */
    method DoInitialization()
      modifies hists
      ensures hists.histograms == InitialRegistry(policy, old(hists.histograms))
    {
      match policy
      case Base =>
      case Z => ZAnalysis.Initialize(hists);
      case W => WAnalysis.Initialize(hists);
      case WZ => WZAnalysis.Initialize(hists);
      case ZZ => ZZAnalysis.Initialize(hists);
      case HWW => HWWAnalysis.Initialize(hists);
      case ZPrime => ZPrimeAnalysis.Initialize(hists);
    }

    /** `doAnalysis` on the loaded row: "all" with the event's weight, the
        policy's own counts, then "final" with the same weight exactly when
        `analyze` accepted the event; the accepted event's fills are logged. */
    method DoAnalysis() returns (passed: bool, ghost v: Verdict)
      requires Valid() && store.Loaded()
      modifies this, counter
      ensures Valid()
      ensures store == old(store) && isData == old(isData) && output == old(output)
      ensures v == Evaluate(policy, store, fv, zMass) && passed == v.passed && v.stage <= |Labels(policy)|
      ensures counter.updates == old(counter.updates) + EventUpdates(Labels(policy), v.stage, CountWeight(store, isData), passed)
      ensures fills == old(fills) + if passed then FillAll(v.fills, CountWeight(store, isData)) else []
    {
      var eventFills;
      passed, eventFills := CountAndAnalyze(policy, store, fv, zMass, isData, counter);
      v := Evaluate(policy, store, fv, zMass);
      fills := fills + eventFills;
    }

    /** `doFinalization`: every registered histogram is written once, then
        the count table is printed, largest raw count first; `finalize` does
        nothing in any of the analyses. */
    method DoFinalization() returns (order: seq<string>, written: seq<Histogram>, rows: seq<ReportRow>)
      requires Valid()
      modifies this
      ensures store == old(store) && isData == old(isData) && fills == old(fills)
      ensures |order| == |written| && output == old(output) + Writes(order, written) + Prints(rows)
      ensures forall i :: 0 <= i < |order| ==> order[i] in hists.histograms && written[i] == hists.histograms[order[i]]
      ensures forall k :: k in hists.histograms ==> k in order
      ensures forall i, j :: 0 <= i < j < |order| ==> order[i] != order[j]
      ensures forall i :: 0 <= i < |rows| ==>
        rows[i].cut in counter.raw && rows[i].raw == counter.raw[rows[i].cut] &&
        rows[i].weighted == counter.weighted[rows[i].cut]
      ensures forall l :: l in counter.raw ==> l in Cuts(rows)
      ensures forall i, j :: 0 <= i < j < |rows| ==> rows[i].cut != rows[j].cut
      ensures forall i, j :: 0 <= i < j < |rows| ==> rows[i].raw >= rows[j].raw
    {
      order, written := hists.WriteHistograms();
      output := output + Writes(order, written);
      rows := counter.PrintResults();
      output := output + Prints(rows);
    }

    /** `addHistogram`, forwarded unchanged to the registry. */
    method AddHistogram(histName: string, histogram: Histogram) returns (r: Histogram)
      modifies hists
      ensures r == histogram
      ensures hists.histograms == Register(old(hists.histograms), histName, histogram)
    {
      r := hists.AddHistogram(histName, histogram);
    }

    /** `addStandardHistogram`, forwarded unchanged to the registry. */
    method AddStandardHistogram(histName: string) returns (r: Option<Histogram>)
      modifies hists
      ensures r == GetStandardHistogram(histName)
      ensures hists.histograms == RegisterStandard(old(hists.histograms), histName)
    {
      r := hists.AddStandardHistogram(histName);
    }

    /** `countEvent`, forwarded unchanged to the counter. */
    method CountEvent(cut: string, weight: real)
      requires counter.Valid()
      modifies counter
      ensures counter.Valid() && counter.updates == old(counter.updates) + [(cut, weight)]
    {
      counter.Update(cut, weight);
    }
  }
}
