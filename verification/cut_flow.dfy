/**
 * What the analyses share about a cut flow: the weight an event is counted
 * with, the counter updates of an event that passes the first k cuts of a
 * cut list, how those updates add up over many events, and histogram fills.
 */
module CutFlow {
  import opened Wrappers
  import opened TupleReader
  import opened EventCounter

  /** The weight an event is counted and filled with: 1 for data, otherwise
      the scale factor times the event weight. */
  function CountWeight(s: Store, isData: bool): (w: real)
    requires s.Loaded()
    ensures isData ==> w == 1.0
    ensures !isData ==>
      w == s.Current().mcWeight * s.Current().sfPileup * s.Current().sfZVertex *
           s.Current().sfEle * s.Current().sfMuon * s.Current().sfTrigger
  {
    if isData then 1.0 else GetEventInfo(s).ScaleFactor(s) * GetEventInfo(s).EventWeight(s)
  }

  /** The counter updates of an event counted at each of `cuts`, in order. */
  function Tally(cuts: seq<string>, w: real): (r: seq<(string, real)>)
    ensures |r| == |cuts| && forall i :: 0 <= i < |cuts| ==> r[i] == (cuts[i], w)
  {
    seq(|cuts|, i requires 0 <= i < |cuts| => (cuts[i], w))
  }

  /** Counting one more cut of a list appends one update. */
  lemma TallyNext(cuts: seq<string>, k: nat, w: real)
    requires k < |cuts|
    ensures Tally(cuts[..k + 1], w) == Tally(cuts[..k], w) + [(cuts[k], w)]
  {
  }

  /** An event counted at none of the cuts adds no update. */
  lemma TallyNone(before: seq<(string, real)>, cuts: seq<string>, w: real)
    ensures before + Tally(cuts[..0], w) == before
  {
    assert Tally(cuts[..0], w) == [];
  }

  /** `countEvent(cuts[k], w)` on an event already counted at the first k cuts. */
  method CountNext(counter: EventCounter, cuts: seq<string>, k: nat, w: real, ghost before: seq<(string, real)>)
    requires counter.Valid() && k < |cuts| && counter.updates == before + Tally(cuts[..k], w)
    modifies counter
    ensures counter.Valid() && counter.updates == before + Tally(cuts[..k + 1], w)
  {
    counter.Update(cuts[k], w);
    TallyNext(cuts, k, w);
  }

  /** An event that reached the first k of a list of distinct cuts was counted
      once at each of them and nowhere else in the list. */
  lemma {:induction false} TallyCount(cuts: seq<string>, k: nat, w: real, i: nat)
    requires Distinct(cuts) && k <= |cuts| && i < |cuts|
    ensures Occurrences(Tally(cuts[..k], w), cuts[i]) == if i < k then 1 else 0
  {
    if k > 0 {
      TallyNext(cuts, k - 1, w);
      TallyCount(cuts, k - 1, w, i);
      var t := Tally(cuts[..k], w);
      assert t[..|t| - 1] == Tally(cuts[..k - 1], w);
    }
  }

  /** The counter updates of one `doAnalysis` call: "all", then the first k
      labels of the policy's cut list, then "final" when `analyze` passed. */
  function EventUpdates(cuts: seq<string>, k: nat, w: real, passed: bool): seq<(string, real)>
    requires k <= |cuts|
  {
    [("all", w)] + Tally(cuts[..k], w) + (if passed then [("final", w)] else [])
  }

  /** Counting "all", then the first k cuts, then "final" when the event
      passed, one update after the other, appends the event's updates. */
  lemma AppendEvent(before: seq<(string, real)>, cuts: seq<string>, k: nat, w: real, passed: bool, u: seq<(string, real)>)
    requires k <= |cuts|
    requires passed ==> u == before + [("all", w)] + Tally(cuts[..k], w) + [("final", w)]
    requires !passed ==> u == before + [("all", w)] + Tally(cuts[..k], w)
    ensures u == before + EventUpdates(cuts, k, w, passed)
  {
    var t := Tally(cuts[..k], w);
    if passed {
      assert before + [("all", w)] + t + [("final", w)] == before + ([("all", w)] + t + [("final", w)]);
    } else {
      assert before + [("all", w)] + t == before + ([("all", w)] + t + []);
    }
  }

  /** Number of passing events. */
  function Passing(passed: seq<bool>): nat
  {
    if passed == [] then 0
    else Passing(passed[..|passed| - 1]) + (if passed[|passed| - 1] then 1 else 0)
  }

  /** The counter updates of a sequence of events: event e got past the first
      `depths[e]` cuts, carried weight `weights[e]` and passed if `passed[e]`. */
  function RunUpdates(cuts: seq<string>, depths: seq<nat>, weights: seq<real>, passed: seq<bool>): seq<(string, real)>
    requires |depths| == |weights| == |passed| && forall e :: 0 <= e < |depths| ==> depths[e] <= |cuts|
  {
    if depths == [] then []
    else
      var n := |depths| - 1;
      RunUpdates(cuts, depths[..n], weights[..n], passed[..n]) +
      EventUpdates(cuts, depths[n], weights[n], passed[n])
  }

  /** A cut list the driver's own labels do not clash with. */
  ghost predicate PolicyCuts(cuts: seq<string>)
  {
    Distinct(cuts) && "all" !in cuts && "final" !in cuts
  }

  /** One update counts once at its own cut and nowhere else. */
  lemma OccurrencesSingle(u: (string, real), c: string)
    ensures Occurrences([u], c) == if u.0 == c then 1 else 0
  {
    assert [u][..0] == [];
  }

  /** Occurrences of a cut in the updates of one event, part by part. */
  lemma EventOccurrences(cuts: seq<string>, k: nat, w: real, passed: bool, c: string)
    requires k <= |cuts|
    ensures Occurrences(EventUpdates(cuts, k, w, passed), c) ==
      (if c == "all" then 1 else 0) + Occurrences(Tally(cuts[..k], w), c) +
      (if passed && c == "final" then 1 else 0)
  {
    var t := Tally(cuts[..k], w);
    var f: seq<(string, real)> := if passed then [("final", w)] else [];
    OccurrencesAppend([("all", w)], t, c);
    OccurrencesAppend([("all", w)] + t, f, c);
    OccurrencesSingle(("all", w), c);
    if passed {
      OccurrencesSingle(("final", w), c);
    }
  }

  /** One event counts "all" once, "final" once if it passed, and each cut of
      the list once if it got past it. */
  lemma EventCounts(cuts: seq<string>, k: nat, w: real, passed: bool)
    requires PolicyCuts(cuts) && k <= |cuts|
    ensures var u := EventUpdates(cuts, k, w, passed);
      Occurrences(u, "all") == 1 &&
      Occurrences(u, "final") == (if passed then 1 else 0) &&
      forall i :: 0 <= i < |cuts| ==> Occurrences(u, cuts[i]) == if i < k then 1 else 0
  {
    var t := Tally(cuts[..k], w);
    EventOccurrences(cuts, k, w, passed, "all");
    EventOccurrences(cuts, k, w, passed, "final");
    OccurrencesPositive(t, "all");
    OccurrencesPositive(t, "final");
    forall i | 0 <= i < |cuts| ensures Occurrences(EventUpdates(cuts, k, w, passed), cuts[i]) == if i < k then 1 else 0 {
      EventOccurrences(cuts, k, w, passed, cuts[i]);
      TallyCount(cuts, k, w, i);
    }
  }

  /** Over a sequence of events, "all" counts the events, "final" the passing
      ones, and each cut the events that got past it. */
  lemma {:induction false} RunCounts(cuts: seq<string>, depths: seq<nat>, weights: seq<real>, passed: seq<bool>)
    requires |depths| == |weights| == |passed| && forall e :: 0 <= e < |depths| ==> depths[e] <= |cuts|
    requires PolicyCuts(cuts)
    ensures var u := RunUpdates(cuts, depths, weights, passed);
      Occurrences(u, "all") == |depths| &&
      Occurrences(u, "final") == Passing(passed) &&
      forall i :: 0 <= i < |cuts| ==> Occurrences(u, cuts[i]) == Reaching(depths, i)
  {
    if depths != [] {
      var n := |depths| - 1;
      RunCounts(cuts, depths[..n], weights[..n], passed[..n]);
      var before := RunUpdates(cuts, depths[..n], weights[..n], passed[..n]);
      var last := EventUpdates(cuts, depths[n], weights[n], passed[n]);
      EventCounts(cuts, depths[n], weights[n], passed[n]);
      forall c: string ensures Occurrences(before + last, c) == Occurrences(before, c) + Occurrences(last, c) {
        OccurrencesAppend(before, last, c);
      }
    }
  }

  /** Sum of the event weights. */
  function TotalWeight(weights: seq<real>): real
  {
    if weights == [] then 0.0 else TotalWeight(weights[..|weights| - 1]) + weights[|weights| - 1]
  }

  /** Sum of the weights of the passing events. */
  function PassingWeight(weights: seq<real>, passed: seq<bool>): real
    requires |weights| == |passed|
  {
    if weights == [] then 0.0
    else
      var n := |weights| - 1;
      PassingWeight(weights[..n], passed[..n]) + (if passed[n] then weights[n] else 0.0)
  }

  /** One event adds its weight to "all", and to "final" when it passed. */
  lemma EventWeights(cuts: seq<string>, k: nat, w: real, passed: bool)
    requires PolicyCuts(cuts) && k <= |cuts|
    ensures var u := EventUpdates(cuts, k, w, passed);
      WeightSum(u, "all") == w && WeightSum(u, "final") == if passed then w else 0.0
  {
    var t := Tally(cuts[..k], w);
    var f: seq<(string, real)> := if passed then [("final", w)] else [];
    OccurrencesPositive(t, "all");
    OccurrencesPositive(t, "final");
    WeightSumUncounted(t, "all");
    WeightSumUncounted(t, "final");
    WeightSumAppend([("all", w)], t, "all");
    WeightSumAppend([("all", w)], t, "final");
    WeightSumAppend([("all", w)] + t, f, "all");
    WeightSumAppend([("all", w)] + t, f, "final");
    assert [("all", w)][..0] == [];
    if passed {
      assert f[..0] == [];
    }
  }

  /** Over a sequence of events, the weighted "all" count is the sum of the
      event weights and the weighted "final" count the sum over the passing
      events. */
  lemma {:induction false} RunWeights(cuts: seq<string>, depths: seq<nat>, weights: seq<real>, passed: seq<bool>)
    requires |depths| == |weights| == |passed| && forall e :: 0 <= e < |depths| ==> depths[e] <= |cuts|
    requires PolicyCuts(cuts)
    ensures var u := RunUpdates(cuts, depths, weights, passed);
      WeightSum(u, "all") == TotalWeight(weights) &&
      WeightSum(u, "final") == PassingWeight(weights, passed)
  {
    if depths != [] {
      var n := |depths| - 1;
      RunWeights(cuts, depths[..n], weights[..n], passed[..n]);
      var before := RunUpdates(cuts, depths[..n], weights[..n], passed[..n]);
      var last := EventUpdates(cuts, depths[n], weights[n], passed[n]);
      assert RunUpdates(cuts, depths, weights, passed) == before + last;
      EventWeights(cuts, depths[n], weights[n], passed[n]);
      WeightSumAppend(before, last, "all");
      WeightSumAppend(before, last, "final");
    }
  }

  /** Number of events that got past the first i cuts (reached cut i). */
  function Reaching(depths: seq<nat>, i: nat): nat
  {
    if depths == [] then 0
    else Reaching(depths[..|depths| - 1], i) + (if depths[|depths| - 1] > i then 1 else 0)
  }

  /** Fewer events reach a later cut. */
  lemma {:induction false} ReachingMonotone(depths: seq<nat>, i: nat, j: nat)
    requires i <= j
    ensures Reaching(depths, j) <= Reaching(depths, i)
  {
    if depths != [] {
      ReachingMonotone(depths[..|depths| - 1], i, j);
    }
  }

  /** A cut every event gets past is reached by all of them. */
  lemma {:induction false} ReachingAll(depths: seq<nat>, i: nat)
    requires forall e :: 0 <= e < |depths| ==> depths[e] > i
    ensures Reaching(depths, i) == |depths|
  {
    if depths != [] {
      ReachingAll(depths[..|depths| - 1], i);
    }
  }

  /** No more events reach a cut than there are events. */
  lemma {:induction false} ReachingBounded(depths: seq<nat>, i: nat)
    ensures Reaching(depths, i) <= |depths|
  {
    if depths != [] {
      ReachingBounded(depths[..|depths| - 1], i);
    }
  }

  /** Passing events are events that got past every cut. */
  lemma {:induction false} PassingReachesLast(depths: seq<nat>, passed: seq<bool>, k: nat)
    requires |depths| == |passed| && forall e :: 0 <= e < |depths| && passed[e] ==> depths[e] > k
    ensures Passing(passed) <= Reaching(depths, k)
  {
    if depths != [] {
      var n := |depths| - 1;
      PassingReachesLast(depths[..n], passed[..n], k);
    }
  }

  /** After any sequence of events the counts never grow along the cut flow:
      "all" bounds every cut, a later cut never exceeds an earlier one, and
      "final" is bounded by the last cut (or by "all" for an empty list) when
      passing events are exactly those that got past every cut. */
  lemma CountsMonotone(cuts: seq<string>, depths: seq<nat>, weights: seq<real>, passed: seq<bool>)
    requires |depths| == |weights| == |passed| && forall e :: 0 <= e < |depths| ==> depths[e] <= |cuts|
    requires PolicyCuts(cuts)
    requires forall e :: 0 <= e < |depths| && passed[e] ==> depths[e] == |cuts|
    ensures var u := RunUpdates(cuts, depths, weights, passed);
      (forall i :: 0 <= i < |cuts| ==> Occurrences(u, cuts[i]) <= Occurrences(u, "all")) &&
      (forall i, j :: 0 <= i <= j < |cuts| ==> Occurrences(u, cuts[j]) <= Occurrences(u, cuts[i])) &&
      (|cuts| > 0 ==> Occurrences(u, "final") <= Occurrences(u, cuts[|cuts| - 1])) &&
      Occurrences(u, "final") <= Occurrences(u, "all")
  {
    RunCounts(cuts, depths, weights, passed);
    forall i | 0 <= i < |cuts| ensures Reaching(depths, i) <= |depths| {
      ReachingBounded(depths, i);
    }
    forall i, j | 0 <= i <= j < |cuts| ensures Reaching(depths, j) <= Reaching(depths, i) {
      ReachingMonotone(depths, i, j);
    }
    if |cuts| > 0 {
      PassingReachesLast(depths, passed, |cuts| - 1);
    } else {
      PassingBounded(passed);
    }
  }

  /** No more events pass than there are events. */
  lemma {:induction false} PassingBounded(passed: seq<bool>)
    ensures Passing(passed) <= |passed|
  {
    if passed != [] {
      PassingBounded(passed[..|passed| - 1]);
    }
  }

  /** When every event passes, all of them are counted as passing. */
  lemma {:induction false} PassingAll(passed: seq<bool>)
    requires forall e :: 0 <= e < |passed| ==> passed[e]
    ensures Passing(passed) == |passed|
  {
    if passed != [] {
      PassingAll(passed[..|passed| - 1]);
    }
  }

  /** When every event gets past the first cut, that cut counts as many
      events as "all". */
  lemma FirstCutCountsAll(cuts: seq<string>, depths: seq<nat>, weights: seq<real>, passed: seq<bool>)
    requires |depths| == |weights| == |passed| && forall e :: 0 <= e < |depths| ==> depths[e] <= |cuts|
    requires PolicyCuts(cuts) && |cuts| > 0
    requires forall e :: 0 <= e < |depths| ==> depths[e] >= 1
    ensures var u := RunUpdates(cuts, depths, weights, passed);
      Occurrences(u, cuts[0]) == Occurrences(u, "all")
  {
    RunCounts(cuts, depths, weights, passed);
    ReachingAll(depths, 0);
  }

  // ---------------------------------------------------------------------------
  // Histogram fills

  /** One `Fill` call: the histogram filled and the weight.  The filled value
      is not modelled. */
  datatype Fill = Fill(histogram: string, weight: real)

  /** One fill of each named histogram, in order, all with weight w. */
  function FillAll(names: seq<string>, w: real): (r: seq<Fill>)
    ensures |r| == |names| && forall i :: 0 <= i < |names| ==> r[i] == Fill(names[i], w)
  {
    seq(|names|, i requires 0 <= i < |names| => Fill(names[i], w))
  }

  /** `prefix + suffix` for each suffix, in order. */
  function Prefixed(prefix: string, suffixes: seq<string>): (r: seq<string>)
    ensures |r| == |suffixes| && forall i :: 0 <= i < |suffixes| ==> r[i] == prefix + suffixes[i]
  {
    seq(|suffixes|, i requires 0 <= i < |suffixes| => prefix + suffixes[i])
  }

  /** The fills of a list comprehension per histogram: each name in turn,
      repeated once per object. */
  function PerObject<T>(names: seq<T>, n: nat): (r: seq<T>)
    ensures |r| == |names| * n
    ensures forall x :: x in r ==> x in names
    ensures |names| > 0 ==> r[..n] == seq(n, _ => names[0])
  {
    if names == [] then []
    else seq(n, _ => names[0]) + PerObject(names[1..], n)
  }

  /** Catalog rows of the per-jet histograms in the order the analyses fill
      them: jet_m, jet_pt, jet_jvf, jet_eta, jet_MV1. */
  const JetFillRows: seq<nat> := [5, 4, 6, 7, 8]
}
