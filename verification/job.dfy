/**
 * Job: the driver of one sample.  It creates the configured analysis over the
 * sample's tree, caps the number of events to read at the number of entries
 * and scales it by the configured fraction, loads rows 0, 1, ... in order and
 * hands each to the analysis' `doAnalysis`, and finally lets the analysis
 * write its histograms and print its counts.
 */
module Job {
  import opened Wrappers
  import opened TupleReader
  import opened AnalysisHelpers
  import opened StandardHistograms
  import opened HistManager
  import opened EventCounter
  import opened CutFlow
  import A = Analysis

  /** The job settings: `MaxEvents`, `OutputDirectory`, `Fraction` and the
      analysis class named by `Analysis`. */
  datatype Configuration = Configuration(maxEvents: int, outputDirectory: string, fraction: real, analysis: A.Policy)

  /** The sample's input: the chain of its files as one table of rows, and the
      pre-scan maxima of the lepton and jet count branches. */
  datatype Input = Input(tree: Tree, lepMaximum: int, jetMaximum: int)

  /** The messages the job logs, in the order it logs them. */
  datatype Message = InitializationPhase | EmptyFilesAbort | LoopingOver(events: int) | FinishedSuccessfully

  // ---------------------------------------------------------------------------
  // Whether a sample is data

  predicate IsUpper(c: char)
  {
    'A' <= c <= 'Z'
  }

  /** `lower` on one character of a byte string: only ASCII capitals change. */
  function LowerChar(c: char): (r: char)
    ensures !IsUpper(r)
    ensures IsUpper(c) ==> r as int == c as int + 32
    ensures !IsUpper(c) ==> r == c
  {
    if IsUpper(c) then (c as int + 32) as char else c
  }

  /** `str.lower` on a byte string. */
  function Lower(s: string): (r: string)
    ensures |r| == |s| && forall i :: 0 <= i < |s| ==> r[i] == LowerChar(s[i])
  {
    seq(|s|, i requires 0 <= i < |s| => LowerChar(s[i]))
  }

  /** Lowercasing a lowercased string changes nothing. */
  lemma LowerIdempotent(s: string)
    ensures Lower(Lower(s)) == Lower(s)
  {
    assert forall i :: 0 <= i < |s| ==> LowerChar(LowerChar(s[i])) == LowerChar(s[i]);
  }

  /** Lowercasing works character by character, so it commutes with slicing. */
  lemma LowerSlice(s: string, i: nat, j: nat)
    requires i <= j <= |s|
    ensures Lower(s)[i..j] == Lower(s[i..j])
  {
  }

  /** `sub` occurs in `s` starting at position i. */
  predicate OccursAt(s: string, sub: string, i: nat)
  {
    i + |sub| <= |s| && s[i..i + |sub|] == sub
  }

  /** `sub in s` for strings: `sub` occurs at some position of `s`. */
  predicate Contains(s: string, sub: string)
  {
    exists i: nat :: i <= |s| && OccursAt(s, sub, i)
  }

  /** The rule of `createAnalysis`: a sample is data when its lowercased
      process name contains "data". */
  predicate IsData(name: string)
  {
    Contains(Lower(name), "data")
  }

  /** The four characters of `name` from position i spell "data" in some
      mix of cases. */
  predicate SpellsData(name: string, i: nat)
  {
    i + 4 <= |name| && Lower(name[i..i + 4]) == "data"
  }

  /** A sample is data exactly when four consecutive characters of its name
      spell "data" in any mix of cases. */
  lemma IsDataWindow(name: string)
    ensures IsData(name) <==> exists i: nat :: SpellsData(name, i)
  {
    if IsData(name) {
      var i: nat :| i <= |Lower(name)| && OccursAt(Lower(name), "data", i);
      assert i + 4 <= |name|;
      LowerSlice(name, i, i + 4);
      assert SpellsData(name, i);
    }
    if exists i: nat :: SpellsData(name, i) {
      var i: nat :| SpellsData(name, i);
      LowerSlice(name, i, i + 4);
      assert OccursAt(Lower(name), "data", i);
    }
  }

  // ---------------------------------------------------------------------------
  // The number of events to read

  /** `int(x)` on a float: truncation toward zero. */
  function Truncate(x: real): (r: int)
    ensures 0.0 <= x ==> r as real <= x < r as real + 1.0
    ensures x < 0.0 ==> r as real - 1.0 < x <= r as real
  {
    if x >= 0.0 then x.Floor else -((-x).Floor)
  }

  /** `determineMaxEvents`: nothing (the job aborts) for an input without
      entries; otherwise the configured maximum, capped at the number of
      entries, times the fraction, truncated. */
  function CappedMaxEvents(nentries: nat, maxEvents: int, fraction: real): (r: Option<int>)
    ensures r.None? <==> nentries == 0
  {
    if nentries == 0 then None
    else Some(Scale(if maxEvents > nentries then nentries else maxEvents, fraction))
  }

  /** `int(maxEvents * fraction)`. */
  function Scale(maxEvents: int, fraction: real): int
  {
    Truncate(maxEvents as real * fraction)
  }

  /** A fraction of a non-negative amount lies between 0 and the amount. */
  lemma FractionBounded(c: real, fraction: real)
    requires 0.0 <= c && 0.0 <= fraction <= 1.0
    ensures 0.0 <= c * fraction <= c
  {
    assert c * (1.0 - fraction) >= 0.0;
  }

  /** A non-negative amount truncates to an integer between 0 and any integer
      bound of the amount. */
  lemma TruncateBounded(x: real, bound: int)
    requires 0.0 <= x <= bound as real
    ensures 0 <= Truncate(x) <= bound
  {
  }

  /** Scaling a non-negative count by a fraction between 0 and 1 gives a
      count between 0 and the original. */
  lemma ScaleBounded(c: int, fraction: real)
    requires 0 <= c && 0.0 <= fraction <= 1.0
    ensures 0 <= Scale(c, fraction) <= c
  {
    var x := c as real * fraction;
    FractionBounded(c as real, fraction);
    TruncateBounded(x, c);
  }

  /** With a non-negative maximum and a fraction between 0 and 1, the number
      of events lies between 0 and both the entry count and the maximum. */
  lemma MaxEventsInRange(nentries: nat, maxEvents: int, fraction: real)
    requires nentries > 0 && maxEvents >= 0 && 0.0 <= fraction <= 1.0
    ensures var r := CappedMaxEvents(nentries, maxEvents, fraction).value;
      0 <= r <= nentries && r <= maxEvents
  {
    ScaleBounded(if maxEvents > nentries then nentries else maxEvents, fraction);
  }

  /** With the whole sample (fraction 1) the number of events is the
      configured maximum capped at the entry count. */
  lemma MaxEventsWholeSample(nentries: nat, maxEvents: int)
    requires nentries > 0
    ensures CappedMaxEvents(nentries, maxEvents, 1.0) == Some(if maxEvents > nentries then nentries else maxEvents)
  {
  }

  /** How many times `for n in xrange(maxEvents)` runs. */
  function LoopCount(maxEvents: int): nat
  {
    if maxEvents > 0 then maxEvents else 0
  }

  // ---------------------------------------------------------------------------
  // Reading rows in order

  /** `GetEntry(n)` on the chain: loads row n into the buffers; a row past the
      end loads nothing, so the buffers keep the row read last. */
  function GetEntry(s: Store, n: nat): (r: Store)
    ensures r.tree == s.tree && r.leptons == s.leptons && r.jets == s.jets
    ensures n < Rows(s.tree) ==> r.Loaded() && r.Row() == n
    ensures Rows(s.tree) <= n ==> r == s
  {
    if n < Rows(s.tree) then s.(entry := Some(n)) else s
  }

  /** The store while the event of iteration i is analysed: rows 0 to i have
      been requested in order, so row i is loaded, or the last row once i is
      past the end. */
  function EventStore(s: Store, i: nat): (r: Store)
    requires Rows(s.tree) > 0
    ensures r.Loaded() && r.tree == s.tree && r.leptons == s.leptons && r.jets == s.jets
    ensures r.Row() == if i < Rows(s.tree) then i else Rows(s.tree) - 1
  {
    s.(entry := Some(if i < Rows(s.tree) then i else Rows(s.tree) - 1))
  }

  /** The store `initializeTuple` builds over the input: the tree, no row
      loaded, and the slot views sized by the clamped pre-scan maxima. */
  function InitialStore(input: Input): (r: Store)
    ensures r.tree == input.tree && r.entry == None
    ensures |r.leptons| == SlotCapacity(input.lepMaximum) && |r.jets| == SlotCapacity(input.jetMaximum)
  {
    Store(input.tree, None, LeptonViews(SlotCapacity(input.lepMaximum)), JetViews(SlotCapacity(input.jetMaximum)))
  }

  /** Every verdict stops within the labels `cuts`. */
  ghost predicate Fit(vs: seq<A.Verdict>, cuts: seq<string>)
  {
    forall e :: 0 <= e < |vs| ==> vs[e].stage <= |cuts|
  }

  /** How many of its labels a verdict counts the event at. */
  function Depth(v: A.Verdict): nat
  {
    v.stage
  }

  /** The cut depth of each verdict of the run. */
  function Depths(vs: seq<A.Verdict>): (r: seq<nat>)
    ensures |r| == |vs| && forall e :: 0 <= e < |vs| ==> r[e] == vs[e].stage
  {
    seq(|vs|, e requires 0 <= e < |vs| => Depth(vs[e]))
  }

  /** The counting weight of each of the first n events. */
  function Weights(s: Store, isData: bool, n: nat): (r: seq<real>)
    requires Rows(s.tree) > 0
    ensures |r| == n && forall e :: 0 <= e < n ==> r[e] == CountWeight(EventStore(s, e), isData)
  {
    seq(n, e requires 0 <= e < n => CountWeight(EventStore(s, e), isData))
  }

  /** Whether `analyze` accepted each event of the run. */
  function Outcomes(vs: seq<A.Verdict>): (r: seq<bool>)
    ensures |r| == |vs| && forall e :: 0 <= e < |vs| ==> r[e] == vs[e].passed
  {
    seq(|vs|, e requires 0 <= e < |vs| => vs[e].passed)
  }

  /** The counter updates of a run over the events of s whose counter held
      `before`, when `doAnalysis` returned the verdicts vs in turn: each event
      appends its own updates with its own weight. */
  function RunLog(cuts: seq<string>, s: Store, isData: bool, before: seq<(string, real)>, vs: seq<A.Verdict>): seq<(string, real)>
    requires Rows(s.tree) > 0 && Fit(vs, cuts)
  {
    if |vs| == 0 then before
    else
      var n := |vs| - 1;
      RunLog(cuts, s, isData, before, vs[..n]) + EventUpdates(cuts, vs[n].stage, CountWeight(EventStore(s, n), isData), vs[n].passed)
  }

  /** The histogram fills of the same run whose fills were `before`: those of
      each accepted event, in event order. */
  function RunFills(s: Store, isData: bool, before: seq<Fill>, vs: seq<A.Verdict>): seq<Fill>
    requires Rows(s.tree) > 0
  {
    if |vs| == 0 then before
    else
      var n := |vs| - 1;
      RunFills(s, isData, before, vs[..n]) + (if vs[n].passed then FillAll(vs[n].fills, CountWeight(EventStore(s, n), isData)) else [])
  }

  /** From an empty counter, the updates of the run are those of the cut
      flow of its events' depths, weights and outcomes. */
  lemma {:induction false} RunLogUpdates(cuts: seq<string>, s: Store, isData: bool, vs: seq<A.Verdict>)
    requires Rows(s.tree) > 0 && Fit(vs, cuts)
    ensures RunLog(cuts, s, isData, [], vs) == RunUpdates(cuts, Depths(vs), Weights(s, isData, |vs|), Outcomes(vs))
  {
    if |vs| > 0 {
      var n := |vs| - 1;
      RunLogUpdates(cuts, s, isData, vs[..n]);
      assert Depths(vs)[..n] == Depths(vs[..n]);
      assert Weights(s, isData, |vs|)[..n] == Weights(s, isData, n);
      assert Outcomes(vs)[..n] == Outcomes(vs[..n]);
    }
  }

  /** Whatever the verdicts, a run from an empty counter counts "all" once per
      event and "final" once per accepted event; the weighted "all" is the sum
      of the event weights and the weighted "final" that of the accepted
      events. */
  lemma RunEventTotals(cuts: seq<string>, s: Store, isData: bool, vs: seq<A.Verdict>)
    requires Rows(s.tree) > 0 && Fit(vs, cuts) && PolicyCuts(cuts)
    ensures var u := RunLog(cuts, s, isData, [], vs);
      Occurrences(u, "all") == |vs| &&
      Occurrences(u, "final") == Passing(Outcomes(vs)) <= |vs| &&
      WeightSum(u, "all") == TotalWeight(Weights(s, isData, |vs|)) &&
      WeightSum(u, "final") == PassingWeight(Weights(s, isData, |vs|), Outcomes(vs))
  {
    RunLogUpdates(cuts, s, isData, vs);
    RunCounts(cuts, Depths(vs), Weights(s, isData, |vs|), Outcomes(vs));
    RunWeights(cuts, Depths(vs), Weights(s, isData, |vs|), Outcomes(vs));
    PassingBounded(Outcomes(vs));
  }

  /** vs are the verdicts `ev` gives the first |vs| events of s. */
  ghost predicate Verdicts(ev: Store -> A.Verdict, s: Store, vs: seq<A.Verdict>)
    requires Rows(s.tree) > 0
  {
    forall e {:trigger ev(EventStore(s, e))} :: 0 <= e < |vs| ==> vs[e] == ev(EventStore(s, e))
  }

  /** The verdict on the next event extends the verdicts. */
  lemma VerdictsStep(ev: Store -> A.Verdict, s: Store, vs: seq<A.Verdict>, v: A.Verdict)
    requires Rows(s.tree) > 0 && Verdicts(ev, s, vs) && v == ev(EventStore(s, |vs|))
    ensures Verdicts(ev, s, vs + [v])
  {
    var ws := vs + [v];
    forall e | 0 <= e < |ws| ensures ws[e] == ev(EventStore(s, e)) {
      if e < |vs| {
        assert ws[e] == vs[e];
      }
    }
  }

  /** The shape of the verdicts of policy p: each stops within the policy's
      labels and an accepted event has passed them all; the base class
      accepts every event; every analysis but WZ counts "no cut", its first
      label, for every event. */
  ghost predicate Shaped(p: A.Policy, vs: seq<A.Verdict>)
  {
    Fit(vs, A.Labels(p)) &&
    (forall e :: 0 <= e < |vs| && vs[e].passed ==> vs[e].stage == |A.Labels(p)|) &&
    (p == A.Base ==> forall e :: 0 <= e < |vs| ==> vs[e].passed) &&
    (p != A.Base && p != A.WZ ==>
      |A.Labels(p)| > 0 && A.Labels(p)[0] == "no cut" && forall e :: 0 <= e < |vs| ==> vs[e].stage >= 1)
  }

  /** The verdicts of policy p on the events of any sample have that shape. */
  lemma VerdictShape(p: A.Policy, s: Store, fv: FourVectors, zMass: real, vs: seq<A.Verdict>)
    requires Rows(s.tree) > 0 && Verdicts(A.Semantics(p, fv, zMass), s, vs)
    ensures Shaped(p, vs)
  {
    forall e | 0 <= e < |vs|
      ensures vs[e].stage <= |A.Labels(p)| && (vs[e].passed ==> vs[e].stage == |A.Labels(p)|)
      ensures p == A.Base ==> vs[e].passed
      ensures p != A.Base && p != A.WZ ==> vs[e].stage >= 1
    {
      assert vs[e] == A.Semantics(p, fv, zMass)(EventStore(s, e));
      if p != A.Base && p != A.WZ {
        A.NoCutFirst(p, EventStore(s, e), fv, zMass);
      }
    }
    if p != A.Base && p != A.WZ {
      A.NoCutFirst(p, EventStore(s, 0), fv, zMass);
    }
  }

  /** For verdicts that stop within the labels `cuts` and pass them all when
      accepted: each label counts the events that got past it, fewer events
      get past a later label, and "final" never exceeds the last label; when
      every event is accepted "final" counts them all, and when every event
      gets past the first label, that label counts them all. */
  lemma RunCutTotals(cuts: seq<string>, s: Store, isData: bool, vs: seq<A.Verdict>)
    requires Rows(s.tree) > 0 && Fit(vs, cuts) && PolicyCuts(cuts)
    requires forall e :: 0 <= e < |vs| && vs[e].passed ==> vs[e].stage == |cuts|
    ensures var u := RunLog(cuts, s, isData, [], vs);
      (forall i :: 0 <= i < |cuts| ==> Occurrences(u, cuts[i]) == Reaching(Depths(vs), i)) &&
      (forall i, j :: 0 <= i <= j < |cuts| ==> Occurrences(u, cuts[j]) <= Occurrences(u, cuts[i])) &&
      (|cuts| > 0 ==> Occurrences(u, "final") <= Occurrences(u, cuts[|cuts| - 1])) &&
      ((forall e :: 0 <= e < |vs| ==> vs[e].passed) ==> Occurrences(u, "final") == |vs|) &&
      (|cuts| > 0 && (forall e :: 0 <= e < |vs| ==> vs[e].stage >= 1) ==> Occurrences(u, cuts[0]) == |vs|)
  {
    var depths, weights, passed := Depths(vs), Weights(s, isData, |vs|), Outcomes(vs);
    RunLogUpdates(cuts, s, isData, vs);
    RunCounts(cuts, depths, weights, passed);
    CountsMonotone(cuts, depths, weights, passed);
    if forall e :: 0 <= e < |vs| ==> vs[e].passed {
      PassingAll(passed);
    }
    if |cuts| > 0 && forall e :: 0 <= e < |vs| ==> vs[e].stage >= 1 {
      FirstCutCountsAll(cuts, depths, weights, passed);
    }
  }

  /** The counts of a run from an empty counter, for verdicts shaped like
      those of policy p: each label counts the events that got past it, and
      fewer events get past a later label; "final" never exceeds the last
      label; the base class counts every event as "final", and every analysis
      but WZ counts "no cut" for every event. */
  lemma RunTotals(p: A.Policy, s: Store, isData: bool, vs: seq<A.Verdict>)
    requires Rows(s.tree) > 0 && Shaped(p, vs)
    ensures var u := RunLog(A.Labels(p), s, isData, [], vs);
      var cuts := A.Labels(p);
      (forall i :: 0 <= i < |cuts| ==> Occurrences(u, cuts[i]) == Reaching(Depths(vs), i)) &&
      (forall i, j :: 0 <= i <= j < |cuts| ==> Occurrences(u, cuts[j]) <= Occurrences(u, cuts[i])) &&
      (|cuts| > 0 ==> Occurrences(u, "final") <= Occurrences(u, cuts[|cuts| - 1])) &&
      (p == A.Base ==> Occurrences(u, "final") == |vs|) &&
      (p != A.Base && p != A.WZ ==> Occurrences(u, "no cut") == |vs|)
  {
    RunCutTotals(A.Labels(p), s, isData, vs);
  }

  /** Requesting rows 0, 1, ... in order loads the event stores one after
      the other. */
  lemma NextRow(s: Store, n: nat)
    requires Rows(s.tree) > 0
    ensures GetEntry(if n == 0 then s else EventStore(s, n - 1), n) == EventStore(s, n)
  {
  }

  /** One more event: the run's updates and fills gain those of its
      verdict v, with the weight of the row the event loads. */
  lemma RunStep(cuts: seq<string>, s: Store, isData: bool, u0: seq<(string, real)>, f0: seq<Fill>, vs: seq<A.Verdict>, v: A.Verdict)
    requires Rows(s.tree) > 0 && Fit(vs, cuts) && v.stage <= |cuts|
    ensures Fit(vs + [v], cuts)
    ensures RunLog(cuts, s, isData, u0, vs + [v]) ==
      RunLog(cuts, s, isData, u0, vs) + EventUpdates(cuts, v.stage, CountWeight(EventStore(s, |vs|), isData), v.passed)
    ensures RunFills(s, isData, f0, vs + [v]) ==
      RunFills(s, isData, f0, vs) + if v.passed then FillAll(v.fills, CountWeight(EventStore(s, |vs|), isData)) else []
  {
    assert (vs + [v])[..|vs|] == vs;
  }

  /** The analysis after the events of a run that started from the store s0
      with counter updates u0 and fills f0, `doAnalysis` having returned the
      verdicts vs: the row of the last event is loaded (no row before the
      first event), and the counter and the fills have received exactly the
      updates and fills of those events. */
  ghost predicate After(a: A.Analysis, s0: Store, u0: seq<(string, real)>, f0: seq<Fill>, vs: seq<A.Verdict>)
    reads a, a.counter
  {
    a.Valid() && Rows(s0.tree) > 0 && Fit(vs, A.Labels(a.policy)) &&
    a.store == (if |vs| == 0 then s0 else EventStore(s0, |vs| - 1)) &&
    a.counter.updates == RunLog(A.Labels(a.policy), s0, a.isData, u0, vs) &&
    a.fills == RunFills(s0, a.isData, f0, vs)
  }

  /** The analysis' registry is the one its policy's `initialize` books in an
      empty registry.  (Stated for every policy equal to the analysis' own, so
      that the registry is only unfolded where it is asked for.) */
  ghost predicate Booked(a: A.Analysis)
    reads a.hists
  {
    forall p, m {:trigger A.InitialRegistry(p, m)} ::
      p == a.policy && m == map[] ==> a.hists.histograms == A.InitialRegistry(p, m)
  }

  /** What `Booked` says, for one policy and the empty registry. */
  lemma BookedRegistry(a: A.Analysis)
    requires Booked(a)
    ensures a.hists.histograms == A.InitialRegistry(a.policy, map[])
  {
  }

  // ---------------------------------------------------------------------------
  // The job

  class Job {
    const name: string
    const configuration: Configuration
    var maxEvents: int
    const input: Input
    const outputFileLocation: string
    /** The four-vector functions and `Constants.Z_Mass` the analysis uses. */
    const fv: FourVectors
    const zMass: real
    /** The analysis, once `initialize` has created it. */
    var analysis: A.Analysis?
    var log: seq<Message>

    /** A job for the process `processName`: the maximum number of events is
        the configured one and the output goes to the output directory
        followed by the process name. */
    constructor(processName: string, configuration: Configuration, input: Input, fv: FourVectors, zMass: real)
      ensures name == processName && this.configuration == configuration && this.input == input
      ensures maxEvents == configuration.maxEvents
      ensures outputFileLocation == configuration.outputDirectory + processName
      ensures this.fv == fv && this.zMass == zMass && analysis == null && log == []
    {
      name := processName;
      this.configuration := configuration;
      maxEvents := configuration.maxEvents;
      this.input := input;
      outputFileLocation := configuration.outputDirectory + processName;
      this.fv := fv;
      this.zMass := zMass;
      analysis := null;
      log := [];
    }

    /** `createAnalysis`: a fresh analysis of the configured class named after
        the process, its store built over the input, and marked as data
        exactly when the process name says so. */
    method CreateAnalysis() returns (a: A.Analysis)
      ensures fresh(a) && fresh(a.counter) && fresh(a.hists)
      ensures a.policy == configuration.analysis && a.totName == name + "." + A.ClassName(configuration.analysis)
      ensures a.isData == IsData(name) && a.fv == fv && a.zMass == zMass
      ensures a.store == InitialStore(input)
      ensures a.counter.updates == [] && a.hists.histograms == map[] && a.fills == [] && a.output == []
      ensures a.Valid()
    {
      a := new A.Analysis(name, configuration.analysis, fv, zMass);
      a.store := InitializeTuple(input.tree, input.lepMaximum, input.jetMaximum);
      a.SetIsData(IsData(name));
    }

    /** `determineMaxEvents`: aborts, logging it, when the input has no
        entries; otherwise caps the maximum at the entry count and scales it
        by the fraction. */
    method DetermineMaxEvents() returns (ok: bool)
      modifies this
      ensures ok <==> Rows(input.tree) > 0
      ensures CappedMaxEvents(Rows(input.tree), old(maxEvents), configuration.fraction) ==
        if ok then Some(maxEvents) else None
      ensures !ok ==> maxEvents == old(maxEvents)
      ensures log == old(log) + if ok then [] else [EmptyFilesAbort]
      ensures analysis == old(analysis)
    {
      var nentries := Rows(input.tree);
      if nentries == 0 {
        log := log + [EmptyFilesAbort];
        return false;
      }
      var capped := if maxEvents > nentries then nentries else maxEvents;
      maxEvents := Scale(capped, configuration.fraction);
      ok := true;
    }

    /** `initialize`: logs the phase, creates the analysis, fixes the number
        of events (or aborts) and only then runs the analysis'
        `doInitialization`. */
    method Initialize() returns (ok: bool)
      modifies this
      ensures ok <==> Rows(input.tree) > 0
      ensures log == old(log) + [InitializationPhase] + if ok then [] else [EmptyFilesAbort]
      ensures CappedMaxEvents(Rows(input.tree), old(maxEvents), configuration.fraction) ==
        if ok then Some(maxEvents) else None
      ensures analysis != null && fresh(analysis) && fresh(analysis.counter) && fresh(analysis.hists)
      ensures analysis.policy == configuration.analysis && analysis.isData == IsData(name)
      ensures analysis.fv == fv && analysis.zMass == zMass && analysis.Valid()
      ensures analysis.store == InitialStore(input)
      ensures analysis.counter.updates == [] && analysis.fills == [] && analysis.output == []
      ensures if ok then Booked(analysis) else analysis.hists.histograms == map[]
    {
      log := log + [InitializationPhase];
      var a := CreateAnalysis();
      analysis := a;
      ok := DetermineMaxEvents();
      if ok {
        a.DoInitialization();
      }
    }

    /** One iteration of `execute`'s loop: request row n, then run
        `doAnalysis`, which returns its verdict v on the loaded row. */
    method ProcessEntry(n: nat, ghost s0: Store, ghost vs: seq<A.Verdict>) returns (ghost v: A.Verdict)
      requires analysis != null && analysis.Valid() && Rows(s0.tree) > 0 && n == |vs|
      requires analysis.store == (if n == 0 then s0 else EventStore(s0, n - 1))
      requires Verdicts(A.Semantics(analysis.policy, analysis.fv, analysis.zMass), s0, vs)
      modifies analysis, analysis.counter
      ensures analysis.Valid() && analysis.store == EventStore(s0, n)
      ensures Verdicts(A.Semantics(analysis.policy, analysis.fv, analysis.zMass), s0, vs + [v])
      ensures analysis.isData == old(analysis.isData) && analysis.output == old(analysis.output)
      ensures v.stage <= |A.Labels(analysis.policy)|
      ensures analysis.counter.updates == old(analysis.counter.updates) +
        EventUpdates(A.Labels(analysis.policy), v.stage, CountWeight(analysis.store, analysis.isData), v.passed)
      ensures analysis.fills == old(analysis.fills) +
        if v.passed then FillAll(v.fills, CountWeight(analysis.store, analysis.isData)) else []
    {
      var a: A.Analysis := analysis;
      NextRow(s0, n);
      a.store := GetEntry(a.store, n);
      var passed;
      passed, v := a.DoAnalysis();
      assert v == A.Semantics(a.policy, a.fv, a.zMass)(a.store);
      VerdictsStep(A.Semantics(a.policy, a.fv, a.zMass), s0, vs, v);
    }

    /** `execute`: logs the number of events, then for n = 0, 1, ... below it
        loads row n and runs `doAnalysis` once.  The counter receives the
        updates of those events and the fills log their fills, in order. */
    method Execute() returns (ghost verdicts: seq<A.Verdict>)
      requires analysis != null && analysis.Valid() && Rows(analysis.store.tree) > 0
      modifies this, analysis, analysis.counter
      ensures analysis == old(analysis) && maxEvents == old(maxEvents)
      ensures log == old(log) + [LoopingOver(maxEvents)]
      ensures analysis.isData == old(analysis.isData) && analysis.output == old(analysis.output)
      ensures |verdicts| == LoopCount(maxEvents)
      ensures After(analysis, old(analysis.store), old(analysis.counter.updates), old(analysis.fills), verdicts)
      ensures Verdicts(A.Semantics(analysis.policy, analysis.fv, analysis.zMass), old(analysis.store), verdicts)
    {
      log := log + [LoopingOver(maxEvents)];
      var a: A.Analysis := analysis;
      ghost var s0, u0, f0 := a.store, a.counter.updates, a.fills;
      verdicts := [];
      for n := 0 to LoopCount(maxEvents)
        invariant analysis == a && maxEvents == old(maxEvents) && log == old(log) + [LoopingOver(maxEvents)]
        invariant a.isData == old(a.isData) && a.output == old(a.output)
        invariant |verdicts| == n && After(a, s0, u0, f0, verdicts)
        invariant Verdicts(A.Semantics(a.policy, a.fv, a.zMass), s0, verdicts)
      {
        ghost var v := ProcessEntry(n, s0, verdicts);
        RunStep(A.Labels(a.policy), s0, a.isData, u0, f0, verdicts, v);
        verdicts := verdicts + [v];
      }
    }

    /** `finalize`: the analysis' `doFinalization`, then the closing message. */
    method Finalize() returns (order: seq<string>, written: seq<Histogram>, rows: seq<ReportRow>)
      requires analysis != null && analysis.Valid()
      modifies this, analysis
      ensures analysis == old(analysis) && maxEvents == old(maxEvents)
      ensures log == old(log) + [FinishedSuccessfully]
      ensures analysis.store == old(analysis.store) && analysis.fills == old(analysis.fills) && analysis.isData == old(analysis.isData)
      ensures |order| == |written| && analysis.output == old(analysis.output) + A.Writes(order, written) + A.Prints(rows)
      ensures forall k :: k in analysis.hists.histograms ==> A.Written(k, analysis.hists.histograms[k]) in analysis.output
    {
      order, written, rows := analysis.DoFinalization();
      log := log + [FinishedSuccessfully];
      forall k | k in analysis.hists.histograms
        ensures A.Written(k, analysis.hists.histograms[k]) in analysis.output
      {
        var i :| 0 <= i < |order| && order[i] == k;
        assert analysis.output[|old(analysis.output)| + i] == A.Written(k, analysis.hists.histograms[k]);
      }
    }

    /** `run`: `initialize`, then `execute`, then `finalize`; an input
        without entries ends the job inside `initialize`.  A completed job has
        registered the analysis' histograms, fed it the first events in row
        order, and written its histograms and counts. */
    method Run() returns (ok: bool, ghost verdicts: seq<A.Verdict>)
      modifies this
      ensures ok <==> Rows(input.tree) > 0
      ensures log == old(log) + [InitializationPhase] +
        if ok then [LoopingOver(maxEvents), FinishedSuccessfully] else [EmptyFilesAbort]
      ensures CappedMaxEvents(Rows(input.tree), old(maxEvents), configuration.fraction) ==
        if ok then Some(maxEvents) else None
      ensures analysis != null && analysis.policy == configuration.analysis && analysis.isData == IsData(name)
      ensures ok ==> Booked(analysis)
      ensures ok ==> |verdicts| == LoopCount(maxEvents) && After(analysis, InitialStore(input), [], [], verdicts)
      ensures ok ==> Verdicts(A.Semantics(configuration.analysis, fv, zMass), InitialStore(input), verdicts)
      ensures ok ==> forall k :: k in analysis.hists.histograms ==> A.Written(k, analysis.hists.histograms[k]) in analysis.output
    {
      verdicts := [];
      ok := Initialize();
      if !ok {
        return;
      }
      verdicts := Execute();
      var order, written, rows := Finalize();
    }
  }
}
