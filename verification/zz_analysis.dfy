/**
 * ZZAnalysis: pair production of two Z bosons, each decaying to two leptons.
 * The analysis uses its own, looser lepton selection.
 */
module ZZAnalysis {
  import opened Wrappers
  import opened TupleReader
  import opened AnalysisHelpers
  import opened StandardHistograms
  import opened HistManager
  import opened EventCounter
  import opened CutFlow
  import opened Candidates

  /** The cut labels `analyze` counts, in order. */
  const Labels: seq<string> := ["no cut", "EventCuts", "all passed"]

  /** Names of the histograms this analysis books itself. */
  const CustomNames: seq<string> := ["invMass1", "invMass2"]

  /** The histograms this analysis books itself, in booking order. */
  const CustomHistograms: seq<(string, Histogram)> := [
    ("invMass1", TH1D("invMass1", Text("Invariant Mass of the Z boson 1;M_{Z1} [GeV]; Events"), 30, 60.0, 120.0)),
    ("invMass2", TH1D("invMass2", Text("Invariant Mass of the Z boson 2;M_{Z2} [GeV]; Events"), 30, 60.0, 120.0))
  ]

  /** The own histograms are booked under `CustomNames`, in that order. */
  lemma CustomNamesBooked()
    ensures |CustomHistograms| == |CustomNames|
    ensures forall i :: 0 <= i < |CustomNames| ==> CustomHistograms[i].0 == CustomNames[i]
  {
  }

  /** Catalog rows of the standard histograms `initialize` registers, in order:
      lep_n, lep_{pt .. d0}, etmiss, vxp_z, pvxp_n. */
  const HistogramRows: seq<nat> := [9] + Range(10, 20) + [2, 0, 1]

  /** The registered rows are catalog rows 0 to 2 and 9 to 19, each once. */
  lemma HistogramRowsLayout()
    ensures InCatalog(HistogramRows) && DistinctRows(HistogramRows)
    ensures forall x: nat :: x in HistogramRows <==> x < 3 || 9 <= x < 20
  {
    var leptons := Range(10, 20);
    assert HistogramRows == [9] + leptons + [2, 0, 1];
    forall x: nat | 10 <= x < 20 ensures x in HistogramRows {
      assert leptons[x - 10] == x;
    }
  }

  /** The standard names `initialize` registers. */
  function HistogramNames(): seq<string>
  {
    HistogramRowsLayout();
    NamesOfRows(HistogramRows)
  }

  /** `initialize`: the two own bookings, then one `addStandardHistogram` per
      standard name. */
  method Initialize(hists: HistManager)
    modifies hists
    ensures hists.histograms == RegisterAllStandard(RegisterAll(old(hists.histograms), CustomHistograms), HistogramNames())
  {
    ghost var m := hists.histograms;
    var _ := hists.AddHistogram("invMass1", TH1D("invMass1", Text("Invariant Mass of the Z boson 1;M_{Z1} [GeV]; Events"), 30, 60.0, 120.0));
    assert CustomHistograms[..1][..0] == [];
    assert hists.histograms == RegisterAll(m, CustomHistograms[..1]);
    var _ := hists.AddHistogram("invMass2", TH1D("invMass2", Text("Invariant Mass of the Z boson 2;M_{Z2} [GeV]; Events"), 30, 60.0, 120.0));
    assert CustomHistograms[..2][..1] == CustomHistograms[..1] && CustomHistograms[..2] == CustomHistograms;
    hists.AddStandardHistograms(HistogramNames());
  }

  /** Neither own name is a catalog name, and they differ. */
  lemma CustomNamesOutsideCatalog()
    ensures forall i :: 0 <= i < |CustomHistograms| ==> NotACatalogName(CustomHistograms[i].0)
    ensures forall i, j :: 0 <= i < j < |CustomHistograms| ==> CustomHistograms[i].0 != CustomHistograms[j].0
  {
    assert NotACatalogName("invMass1");
    assert NotACatalogName("invMass2");
  }

  /** Starting from an empty registry, `initialize` registers exactly the own
      names and the standard names: the own histograms as booked, each
      standard name with its catalog histogram, and no two names coincide. */
  lemma InitializeRegistry()
    ensures var names := HistogramNames();
      var r := RegisterAllStandard(RegisterAll(map[], CustomHistograms), names);
      (forall n :: n in r <==> n in Names(CustomHistograms) || n in names) &&
      (forall i :: 0 <= i < |CustomHistograms| ==> CustomHistograms[i].0 in r && r[CustomHistograms[i].0] == CustomHistograms[i].1) &&
      (forall i :: 0 <= i < |names| ==>
        HistogramRows[i] < CatalogSize && names[i] in r && r[names[i]] == CatalogEntry(HistogramRows[i])) &&
      (forall i, j :: 0 <= i < j < |names| ==> names[i] != names[j]) &&
      (forall i :: 0 <= i < |CustomHistograms| ==> CustomHistograms[i].0 !in names)
  {
    HistogramRowsLayout();
    CustomNamesOutsideCatalog();
    forall i | 0 <= i < |CustomHistograms| ensures CustomHistograms[i].0 !in HistogramNames() {
      OutsideCatalog(CustomHistograms[i].0, HistogramRows);
    }
    RegisterCustomThenCatalog(CustomHistograms, HistogramRows);
  }

  /** The module's own `isGoodLepton`: pt above 10 GeV and both relative
      isolations below 0.15, with no flavour, tightness or impact-parameter
      requirement.  The pt test comes first, so the isolations are only
      evaluated for a non-zero stored pt. */
  predicate IsGoodLepton(l: Lepton, s: Store)
    requires l.Readable(s)
    ensures AnalysisHelpers.IsGoodLepton(l, s) ==> IsGoodLepton(l, s)
  {
    l.Pt(s) > 10.0 &&
    l.IsoEtConeRel20(s) < 0.15 &&
    l.IsoPtConeRel30(s) < 0.15
  }

  /** The selection is looser than the standard one: a lepton passes the
      standard selection exactly when it passes this one and is also a tight
      electron or muon with pt above 25 GeV. */
  lemma LooserThanStandard(l: Lepton, s: Store)
    requires l.Readable(s)
    ensures AnalysisHelpers.IsGoodLepton(l, s) <==>
      IsGoodLepton(l, s) && l.IsTight(s) && l.Pt(s) > 25.0 &&
      (Abs(l.PdgId(s)) == 11 || Abs(l.PdgId(s)) == 13)
  {
  }

  /** The good leptons of this analysis, ordered by decreasing pt. */
  function GoodLeptons(s: Store): (r: seq<Lepton>)
    requires s.Loaded()
    ensures forall l :: l in r ==> l in GetLeptons(s) && l.Readable(s) && IsGoodLepton(l, s)
    ensures forall l :: l in GetLeptons(s) && IsGoodLepton(l, s) ==> l in r
    ensures forall i, j :: 0 <= i < j < |r| ==> r[i].Pt(s) >= r[j].Pt(s)
    ensures Distinct(r)
  {
    LeptonsDistinct(s);
    var keep := (l: Lepton) requires l.Readable(s) => IsGoodLepton(l, s);
    var key := (l: Lepton) requires l.Readable(s) => l.Pt(s);
    SelectedDistinct(GetLeptons(s), keep, key);
    SelectAndSortContainer(GetLeptons(s), keep, key)
  }

  /** Every ordered quadruplet of good leptons has four readable leptons. */
  ghost predicate Quadruplet(s: Store, p: seq<Lepton>)
  {
    |p| == 4 && forall x :: x in p ==> x.Readable(s)
  }

  /** `isValidCandidate` holds for both pairs, (p[0], p[1]) and (p[2], p[3]). */
  predicate BothPairsValid(s: Store, p: seq<Lepton>)
    requires Quadruplet(s, p)
  {
    assert p[0] in p && p[1] in p && p[2] in p && p[3] in p;
    ValidPair(s, p[0], p[1]) && ValidPair(s, p[2], p[3])
  }

  /** `DoubleZWindow`: the distances of both pairs from the Z mass, summed. */
  function DoubleZWindow(fv: FourVectors, s: Store, zMass: real, p: seq<Lepton>): (r: real)
    requires Quadruplet(s, p)
    ensures r >= 0.0
  {
    ZWindow(fv, s, p[0], p[1], zMass) + ZWindow(fv, s, p[2], p[3], zMass)
  }

  /** The candidate test and the distance, as the search takes them. */
  function Validity(s: Store): seq<Lepton> --> bool
  {
    (p: seq<Lepton>) requires Quadruplet(s, p) => BothPairsValid(s, p)
  }

  function Window(fv: FourVectors, s: Store, zMass: real): seq<Lepton> --> real
  {
    (p: seq<Lepton>) requires Quadruplet(s, p) => DoubleZWindow(fv, s, zMass, p)
  }

  /** The ordered quadruplets of the good leptons, in `itertools` order: every
      sequence of 4 distinct good leptons exactly once, ordered by the
      positions of its leptons in the good-lepton list, lexicographically. */
  function Quadruplets(s: Store): (r: seq<seq<Lepton>>)
    requires s.Loaded()
    ensures forall p :: p in r ==> Quadruplet(s, p) && Distinct(p) && forall x :: x in p ==> x in GoodLeptons(s)
    ensures forall p :: |p| == 4 && Distinct(p) && (forall x :: x in p ==> x in GoodLeptons(s)) ==> p in r
    ensures forall i :: 0 <= i < |r| ==> Quadruplet(s, r[i])
    ensures |r| == Falling(|GoodLeptons(s)|, 4)
  {
    var good := GoodLeptons(s);
    PermutationsExactly(good, 4);
    var r := Permutations(good, 4);
    assert forall i :: 0 <= i < |r| ==> r[i] in r;
    r
  }

  /** The quadruplets come in `itertools` order: they are the position
      sequences of length 4 without repeats over the good-lepton list, in
      strictly increasing lexicographic order, read off that list. */
  lemma QuadrupletsOrder(s: Store)
    requires s.Loaded()
    ensures var good := GoodLeptons(s);
      var ixs := Permutations(Positions(|good|), 4);
      (forall ix :: ix in ixs <==> |ix| == 4 && Distinct(ix) && Within(|good|, ix)) &&
      LexSorted(ixs) && Quadruplets(s) == PickAll(good, ixs)
  {
    PermutationsInItertoolsOrder(GoodLeptons(s), 4);
  }

  /** `ZZCandidate`'s result, as a position in `Quadruplets(s)`. */
  function BestCandidate(s: Store, fv: FourVectors, zMass: real): (r: Option<nat>)
    requires s.Loaded()
    ensures r.Some? ==> r.value < |Quadruplets(s)|
  {
    var cands := Quadruplets(s);
    BestUpTo(cands, Validity(s), Window(fv, s, zMass), |cands|)
  }

  /** `ZZCandidate`: the search over the quadruplets. */
  method ZZCandidate(s: Store, fv: FourVectors, zMass: real, leptons: seq<Lepton>) returns (best: Option<seq<Lepton>>)
    requires s.Loaded() && leptons == GoodLeptons(s)
    ensures best.None? <==> BestCandidate(s, fv, zMass).None?
    ensures best.Some? ==> best.value == Quadruplets(s)[BestCandidate(s, fv, zMass).value]
    ensures best.Some? ==> Quadruplet(s, best.value)
  {
    var cands := Permutations(leptons, 4);
    assert cands == Quadruplets(s);
    var found := FindBest(cands, Validity(s), Window(fv, s, zMass));
    if found.None? {
      return None;
    }
    best := Some(cands[found.value]);
  }

  /** `analyze` returns True. */
  predicate Passes(s: Store, fv: FourVectors, zMass: real)
    requires s.Loaded()
  {
    var good := GoodLeptons(s);
    StandardEventCuts(s) && |good| >= 4 &&
    good[0].Pt(s) > 25.0 &&
    var best := BestCandidate(s, fv, zMass);
    best.Some? && !(DoubleZWindow(fv, s, zMass, Quadruplets(s)[best.value]) > 30.0)
  }

  /** How many of `Labels` an event is counted at. */
  function Stage(s: Store, fv: FourVectors, zMass: real): nat
    requires s.Loaded()
  {
    if !StandardEventCuts(s) then 1
    else if !Passes(s, fv, zMass) then 2
    else 3
  }

  /** The names of the histograms a passing event with n good leptons fills,
      in order: vxp_z, pvxp_n, etmiss, the two own histograms, lep_n, then each
      per-lepton histogram once per good lepton. */
  function FillNames(n: nat): seq<string>
  {
    FillRowsValid(n);
    NamesOfRows([0, 1, 2]) + CustomNames + NamesOfRows([9] + PerObject(Range(10, 20), n))
  }

  /** The filled standard rows are catalog rows. */
  lemma FillRowsValid(n: nat)
    ensures InCatalog([0, 1, 2]) && InCatalog([9] + PerObject(Range(10, 20), n))
  {
    FillRowsInCatalog(n);
  }

  /** The filled standard rows are registered catalog rows. */
  lemma FillRowsInCatalog(n: nat)
    ensures InCatalog([0, 1, 2])
    ensures InCatalog([9] + PerObject(Range(10, 20), n))
    ensures forall x :: x in [0, 1, 2] + [9] + PerObject(Range(10, 20), n) ==> x in HistogramRows
  {
    HistogramRowsLayout();
    var leptons := Range(10, 20);
    forall x | x in PerObject(leptons, n) ensures 10 <= x < 20 {
      var k :| 0 <= k < |leptons| && leptons[k] == x;
    }
    var tail := [9] + PerObject(leptons, n);
    forall i | 0 <= i < |tail| ensures tail[i] < CatalogSize {
      assert tail[i] in tail;
    }
  }

  /** The labels do not clash with each other or with the driver's own. */
  lemma LabelsArePolicyCuts()
    ensures PolicyCuts(Labels)
  {
  }

  /** "no cut" is counted for every event, "EventCuts" exactly when the
      standard event cuts pass, and "all passed" exactly when the event
      passes. */
  lemma CutCounts(s: Store, fv: FourVectors, zMass: real, w: real)
    requires s.Loaded()
    ensures var u := Tally(Labels[..Stage(s, fv, zMass)], w);
      Occurrences(u, "no cut") == 1 &&
      Occurrences(u, "EventCuts") == (if StandardEventCuts(s) then 1 else 0) &&
      Occurrences(u, "all passed") == (if Passes(s, fv, zMass) then 1 else 0)
  {
    LabelsArePolicyCuts();
    TallyCount(Labels, Stage(s, fv, zMass), w, 0);
    TallyCount(Labels, Stage(s, fv, zMass), w, 1);
    TallyCount(Labels, Stage(s, fv, zMass), w, 2);
  }

  /** `analyze`: the guard chain, counting each label it gets past; a passing
      event fills its histograms. */
  method Analyze(s: Store, fv: FourVectors, zMass: real, isData: bool, counter: EventCounter)
    returns (passed: bool, fills: seq<Fill>)
    requires s.Loaded() && counter.Valid()
    modifies counter
    ensures counter.Valid()
    ensures counter.updates == old(counter.updates) + Tally(Labels[..Stage(s, fv, zMass)], CountWeight(s, isData))
    ensures passed == Passes(s, fv, zMass)
    ensures fills == if passed then FillAll(FillNames(|GoodLeptons(s)|), CountWeight(s, isData)) else []
  {
    var weight := CountWeight(s, isData);
    ghost var start := counter.updates;
    assert Labels[..0] == [];
    CountNext(counter, Labels, 0, weight, start);
    ghost var reached := 1;
    passed, fills := false, [];
    if StandardEventCuts(s) {
      CountNext(counter, Labels, 1, weight, start);
      reached := 2;
      var goodLeptons := GoodLeptons(s);
      passed := Select(s, fv, zMass, goodLeptons);
      if passed {
        CountNext(counter, Labels, 2, weight, start);
        reached := 3;
        fills := FillAll(FillNames(|goodLeptons|), weight);
      }
    }
    assert reached == Stage(s, fv, zMass);
  }

  /** The uncounted guards of `analyze` after the event cuts: at least four
      good leptons, the leading one above 25 GeV, a ZZ candidate, and its
      double Z window at most 30 GeV. */
  method Select(s: Store, fv: FourVectors, zMass: real, goodLeptons: seq<Lepton>) returns (passed: bool)
    requires s.Loaded() && StandardEventCuts(s) && goodLeptons == GoodLeptons(s)
    ensures passed == Passes(s, fv, zMass)
  {
    passed := false;
    if |goodLeptons| >= 4 && goodLeptons[0].Pt(s) > 25.0 {
      var candidate := ZZCandidate(s, fv, zMass, goodLeptons);
      if candidate.Some? {
        passed := !(DoubleZWindow(fv, s, zMass, candidate.value) > 30.0);
      }
    }
  }

  /** A passing event went through every counted cut; it has at least four
      good leptons, the leading one above 25 GeV; its candidate is four
      distinct good leptons forming two valid pairs whose summed distance from
      the Z mass is at most 30 GeV. */
  lemma PassingEvent(s: Store, fv: FourVectors, zMass: real)
    requires s.Loaded() && Passes(s, fv, zMass)
    ensures Stage(s, fv, zMass) == |Labels|
    ensures var good := GoodLeptons(s);
      var p := Quadruplets(s)[BestCandidate(s, fv, zMass).value];
      |good| >= 4 && good[0].Pt(s) > 25.0 &&
      Quadruplet(s, p) && Distinct(p) && (forall x :: x in p ==> x in good) &&
      BothPairsValid(s, p) && DoubleZWindow(fv, s, zMass, p) <= 30.0
  {
    var cands := Quadruplets(s);
    BestUpToCorrect(cands, Validity(s), Window(fv, s, zMass), |cands|);
    assert cands[BestCandidate(s, fv, zMass).value] in cands;
  }

  /** The search finds a candidate exactly when some quadruplet has two valid
      pairs, and what it finds has two valid pairs. */
  lemma CandidateFound(s: Store, fv: FourVectors, zMass: real)
    requires s.Loaded()
    ensures var cands := Quadruplets(s);
      var best := BestCandidate(s, fv, zMass);
      (best.None? <==> forall i :: 0 <= i < |cands| ==> !BothPairsValid(s, cands[i])) &&
      (best.Some? ==> BothPairsValid(s, cands[best.value]))
  {
    var cands := Quadruplets(s);
    var valid := Validity(s);
    BestUpToCorrect(cands, valid, Window(fv, s, zMass), |cands|);
    forall i | 0 <= i < |cands| ensures valid(cands[i]) == BothPairsValid(s, cands[i]) {
    }
  }

  /** The candidate found has the smallest double Z window of all quadruplets
      with two valid pairs, and every such quadruplet before it has a strictly
      larger one: on ties the first in `itertools` order is kept. */
  lemma CandidateIsClosest(s: Store, fv: FourVectors, zMass: real)
    requires s.Loaded() && BestCandidate(s, fv, zMass).Some?
    ensures var cands := Quadruplets(s);
      var b := BestCandidate(s, fv, zMass).value;
      (forall i :: 0 <= i < |cands| && BothPairsValid(s, cands[i]) ==>
        DoubleZWindow(fv, s, zMass, cands[b]) <= DoubleZWindow(fv, s, zMass, cands[i])) &&
      (forall i :: 0 <= i < b && BothPairsValid(s, cands[i]) ==>
        DoubleZWindow(fv, s, zMass, cands[b]) < DoubleZWindow(fv, s, zMass, cands[i]))
  {
    var cands := Quadruplets(s);
    var valid, dist := Validity(s), Window(fv, s, zMass);
    BestUpToCorrect(cands, valid, dist, |cands|);
    forall i | 0 <= i < |cands|
      ensures valid(cands[i]) == BothPairsValid(s, cands[i])
      ensures dist(cands[i]) == DoubleZWindow(fv, s, zMass, cands[i])
    {
    }
  }

  /** Every histogram a passing event fills is one `initialize` registered:
      an own histogram or a registered standard one. */
  lemma FillsRegistered(n: nat)
    ensures forall x :: x in FillNames(n) ==> x in CustomNames || x in HistogramNames()
  {
    HistogramRowsLayout();
    FillRowsInCatalog(n);
    var head, tail := [0, 1, 2], [9] + PerObject(Range(10, 20), n);
    forall x | x in tail ensures x in HistogramRows {
      assert x in head + tail;
    }
    NamesOfSubRows(HistogramRows, head);
    NamesOfSubRows(HistogramRows, tail);
  }

  /** Hence every histogram a passing event fills is in the registry that
      `initialize` builds from an empty one. */
  lemma FillsInitialRegistry(n: nat)
    ensures forall x :: x in FillNames(n) ==> x in RegisterAllStandard(RegisterAll(map[], CustomHistograms), HistogramNames())
  {
    FillsRegistered(n);
    InitializeRegistry();
    forall x | x in FillNames(n) && x in CustomNames
      ensures x in Names(CustomHistograms)
    {
      CustomNamesBooked();
      var i :| 0 <= i < |CustomNames| && CustomNames[i] == x;
      assert CustomHistograms[i].0 == x;
    }
  }
}
