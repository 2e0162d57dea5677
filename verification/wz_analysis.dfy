/**
 * WZAnalysis: pair production of a W and a Z boson, both decaying to
 * leptons.
 */
module WZAnalysis {
  import opened Wrappers
  import opened TupleReader
  import opened AnalysisHelpers
  import opened StandardHistograms
  import opened HistManager
  import opened EventCounter
  import opened CutFlow
  import opened Candidates

  /** The cut labels `analyze` counts, in order.  There is no "no cut" label:
      an event failing the event cuts is counted nowhere. */
  const Labels: seq<string> := ["EventCuts", "3 high pt Leptons"]

  /** Catalog rows of the histograms `initialize` registers, in order:
      invMass, WtMass, lep_n, lep_{pt .. d0}, etmiss, vxp_z, pvxp_n. */
  const HistogramRows: seq<nat> := [41, 40, 9] + Range(10, 20) + [2, 0, 1]

  /** The registered rows are catalog rows 0 to 2, 9 to 19, 40 and 41, each once. */
  lemma HistogramRowsLayout()
    ensures InCatalog(HistogramRows) && DistinctRows(HistogramRows)
    ensures forall x: nat :: x in HistogramRows <==> x < 3 || 9 <= x < 20 || x == 40 || x == 41
  {
    var leptons := Range(10, 20);
    assert HistogramRows == [41, 40, 9] + leptons + [2, 0, 1];
    forall x: nat | 10 <= x < 20 ensures x in HistogramRows {
      assert leptons[x - 10] == x;
    }
  }

  /** The names `initialize` registers. */
  function HistogramNames(): seq<string>
  {
    HistogramRowsLayout();
    NamesOfRows(HistogramRows)
  }

  /** `initialize`: one `addStandardHistogram` per name. */
  method Initialize(hists: HistManager)
    modifies hists
    ensures hists.histograms == RegisterAllStandard(old(hists.histograms), HistogramNames())
  {
    hists.AddStandardHistograms(HistogramNames());
  }

  /** Starting from an empty registry, `initialize` registers exactly its names,
      each with its catalog histogram, and no two of the names coincide. */
  lemma InitializeRegistry()
    ensures var names := HistogramNames();
      var r := RegisterAllStandard(map[], names);
      (forall n :: n in r <==> n in names) &&
      (forall i :: 0 <= i < |names| ==>
        HistogramRows[i] < CatalogSize && names[i] in r && r[names[i]] == CatalogEntry(HistogramRows[i])) &&
      (forall i, j :: 0 <= i < j < |names| ==> names[i] != names[j])
  {
    HistogramRowsLayout();
    RegisterCatalogRows(map[], HistogramRows);
  }

  /** An ordered triplet of readable leptons: the Z pair, then the W lepton. */
  ghost predicate Triplet(s: Store, p: seq<Lepton>)
  {
    |p| == 3 && forall x :: x in p ==> x.Readable(s)
  }

  /** `isValidCandidate` for the Z pair (p[0], p[1]). */
  predicate ZPairValid(s: Store, p: seq<Lepton>)
    requires Triplet(s, p)
  {
    assert p[0] in p && p[1] in p;
    ValidPair(s, p[0], p[1])
  }

  /** `TestWZCandidate`: the distance of the Z pair from the Z mass. */
  function ZPairWindow(fv: FourVectors, s: Store, zMass: real, p: seq<Lepton>): (r: real)
    requires Triplet(s, p)
    ensures r >= 0.0
  {
    ZWindow(fv, s, p[0], p[1], zMass)
  }

  /** The candidate test and the distance, as the search takes them. */
  function Validity(s: Store): seq<Lepton> --> bool
  {
    (p: seq<Lepton>) requires Triplet(s, p) => ZPairValid(s, p)
  }

  function Window(fv: FourVectors, s: Store, zMass: real): seq<Lepton> --> real
  {
    (p: seq<Lepton>) requires Triplet(s, p) => ZPairWindow(fv, s, zMass, p)
  }

  /** The ordered triplets of the good leptons, in `itertools` order: every
      sequence of 3 distinct good leptons exactly once, ordered by the
      positions of its leptons in the good-lepton list, lexicographically. */
  function Triplets(s: Store): (r: seq<seq<Lepton>>)
    requires s.Loaded()
    ensures forall p :: p in r ==> Triplet(s, p) && Distinct(p) && forall x :: x in p ==> x in GoodLeptons(s)
    ensures forall p :: |p| == 3 && Distinct(p) && (forall x :: x in p ==> x in GoodLeptons(s)) ==> p in r
    ensures forall i :: 0 <= i < |r| ==> Triplet(s, r[i])
    ensures |r| == Falling(|GoodLeptons(s)|, 3)
  {
    var good := GoodLeptons(s);
    PermutationsExactly(good, 3);
    var r := Permutations(good, 3);
    assert forall i :: 0 <= i < |r| ==> r[i] in r;
    r
  }

  /** The triplets come in `itertools` order: they are the position
      sequences of length 3 without repeats over the good-lepton list, in
      strictly increasing lexicographic order, read off that list. */
  lemma TripletsOrder(s: Store)
    requires s.Loaded()
    ensures var good := GoodLeptons(s);
      var ixs := Permutations(Positions(|good|), 3);
      (forall ix :: ix in ixs <==> |ix| == 3 && Distinct(ix) && Within(|good|, ix)) &&
      LexSorted(ixs) && Triplets(s) == PickAll(good, ixs)
  {
    PermutationsInItertoolsOrder(GoodLeptons(s), 3);
  }

  /** `WZCandidate`'s result, as a position in `Triplets(s)`. */
  function BestCandidate(s: Store, fv: FourVectors, zMass: real): (r: Option<nat>)
    requires s.Loaded()
    ensures r.Some? ==> r.value < |Triplets(s)|
  {
    var cands := Triplets(s);
    BestUpTo(cands, Validity(s), Window(fv, s, zMass), |cands|)
  }

  /** `WZCandidate`: the search over the triplets. */
  method WZCandidate(s: Store, fv: FourVectors, zMass: real, leptons: seq<Lepton>) returns (best: Option<seq<Lepton>>)
    requires s.Loaded() && leptons == GoodLeptons(s)
    ensures best.None? <==> BestCandidate(s, fv, zMass).None?
    ensures best.Some? ==> best.value == Triplets(s)[BestCandidate(s, fv, zMass).value]
    ensures best.Some? ==> Triplet(s, best.value)
  {
    var cands := Permutations(leptons, 3);
    assert cands == Triplets(s);
    var found := FindBest(cands, Validity(s), Window(fv, s, zMass));
    if found.None? {
      return None;
    }
    best := Some(cands[found.value]);
  }

  /** `analyze` returns True: three good leptons, a WZ candidate whose Z pair
      is within 10 GeV of the Z mass, and a W transverse mass of the third
      lepton above 30 GeV. */
  predicate Passes(s: Store, fv: FourVectors, zMass: real)
    requires s.Loaded()
  {
    StandardEventCuts(s) && |GoodLeptons(s)| == 3 &&
    var best := BestCandidate(s, fv, zMass);
    best.Some? &&
    var p := Triplets(s)[best.value];
    ZPairWindow(fv, s, zMass, p) < 10.0 && fv.transverseMass(s, p[2]) > 30.0
  }

  /** How many of `Labels` an event is counted at. */
  function Stage(s: Store): nat
    requires s.Loaded()
  {
    if !StandardEventCuts(s) then 0
    else if |GoodLeptons(s)| != 3 then 1
    else 2
  }

  /** Catalog rows of the histograms a passing event with n good leptons
      fills, in order: etmiss, vxp_z, pvxp_n, invMass, WtMass, lep_n, then
      each per-lepton histogram once per good lepton (a passing event has
      three). */
  function FillRows(n: nat): seq<nat>
  {
    [2, 0, 1, 41, 40, 9] + PerObject(Range(10, 20), n)
  }

  /** The names of the histograms a passing event fills, in order. */
  function FillNames(n: nat): seq<string>
  {
    FillRowsValid(n);
    NamesOfRows(FillRows(n))
  }

  /** The filled rows are catalog rows. */
  lemma FillRowsValid(n: nat)
    ensures InCatalog(FillRows(n))
  {
    FillRowsInCatalog(n);
  }

  /** The filled rows are registered catalog rows. */
  lemma FillRowsInCatalog(n: nat)
    ensures InCatalog(FillRows(n))
    ensures forall x :: x in FillRows(n) ==> x in HistogramRows
  {
    HistogramRowsLayout();
    var leptons := Range(10, 20);
    forall x | x in PerObject(leptons, n) ensures 10 <= x < 20 {
      var k :| 0 <= k < |leptons| && leptons[k] == x;
    }
    var rows := FillRows(n);
    forall i | 0 <= i < |rows| ensures rows[i] < CatalogSize {
      assert rows[i] in rows;
    }
  }

  /** The labels do not clash with each other or with the driver's own. */
  lemma LabelsArePolicyCuts()
    ensures PolicyCuts(Labels)
  {
  }

  /** "EventCuts" is counted exactly when the standard event cuts pass, and
      "3 high pt Leptons" exactly when in addition there are three good
      leptons; an event failing the event cuts is counted at no label. */
  lemma CutCounts(s: Store, w: real)
    requires s.Loaded()
    ensures var u := Tally(Labels[..Stage(s)], w);
      (!StandardEventCuts(s) ==> u == []) &&
      Occurrences(u, "EventCuts") == (if StandardEventCuts(s) then 1 else 0) &&
      Occurrences(u, "3 high pt Leptons") == (if StandardEventCuts(s) && |GoodLeptons(s)| == 3 then 1 else 0)
  {
    LabelsArePolicyCuts();
    TallyCount(Labels, Stage(s), w, 0);
    TallyCount(Labels, Stage(s), w, 1);
    assert Labels[..0] == [];
  }

  /** `analyze`: the guard chain, counting each label it gets past; a passing
      event fills its histograms. */
  method Analyze(s: Store, fv: FourVectors, zMass: real, isData: bool, counter: EventCounter)
    returns (passed: bool, fills: seq<Fill>)
    requires s.Loaded() && counter.Valid()
    modifies counter
    ensures counter.Valid()
    ensures counter.updates == old(counter.updates) + Tally(Labels[..Stage(s)], CountWeight(s, isData))
    ensures passed == Passes(s, fv, zMass)
    ensures fills == if passed then FillAll(FillNames(|GoodLeptons(s)|), CountWeight(s, isData)) else []
  {
    var weight := CountWeight(s, isData);
    ghost var start := counter.updates;
    assert Labels[..0] == [] && start + [] == start;
    ghost var reached := 0;
    passed, fills := false, [];
    if StandardEventCuts(s) {
      CountNext(counter, Labels, 0, weight, start);
      reached := 1;
      var goodLeptons := GoodLeptons(s);
      if |goodLeptons| == 3 {
        CountNext(counter, Labels, 1, weight, start);
        reached := 2;
        passed, fills := Conclude(s, fv, zMass, weight, goodLeptons);
      }
    }
    assert reached == Stage(s);
  }

  /** The uncounted rest of `analyze` once three good leptons are found: the
      candidate search, the candidate cuts and the fills. */
  method Conclude(s: Store, fv: FourVectors, zMass: real, weight: real, goodLeptons: seq<Lepton>)
    returns (passed: bool, fills: seq<Fill>)
    requires s.Loaded() && StandardEventCuts(s) && goodLeptons == GoodLeptons(s) && |goodLeptons| == 3
    ensures passed == Passes(s, fv, zMass)
    ensures fills == if passed then FillAll(FillNames(|goodLeptons|), weight) else []
  {
    passed, fills := false, [];
    var candidate := WZCandidate(s, fv, zMass, goodLeptons);
    if candidate.Some? {
      var p := candidate.value;
      passed := ZPairWindow(fv, s, zMass, p) < 10.0 && fv.transverseMass(s, p[2]) > 30.0;
    }
    if passed {
      fills := FillAll(FillNames(|goodLeptons|), weight);
    }
  }

  /** A passing event went through every counted cut; its candidate is its
      three good leptons, all different, with a valid Z pair within 10 GeV of
      the Z mass and a third lepton whose W transverse mass is above 30 GeV. */
  lemma PassingEvent(s: Store, fv: FourVectors, zMass: real)
    requires s.Loaded() && Passes(s, fv, zMass)
    ensures Stage(s) == |Labels|
    ensures var good := GoodLeptons(s);
      var p := Triplets(s)[BestCandidate(s, fv, zMass).value];
      |good| == 3 && Triplet(s, p) && Distinct(p) && (forall x :: x in p ==> x in good) &&
      ZPairValid(s, p) && ZPairWindow(fv, s, zMass, p) < 10.0 &&
      fv.transverseMass(s, p[2]) > 30.0
  {
    var cands := Triplets(s);
    BestUpToCorrect(cands, Validity(s), Window(fv, s, zMass), |cands|);
    assert cands[BestCandidate(s, fv, zMass).value] in cands;
  }

  /** The search finds a candidate exactly when some triplet has a valid Z
      pair, and what it finds has one. */
  lemma CandidateFound(s: Store, fv: FourVectors, zMass: real)
    requires s.Loaded()
    ensures var cands := Triplets(s);
      var best := BestCandidate(s, fv, zMass);
      (best.None? <==> forall i :: 0 <= i < |cands| ==> !ZPairValid(s, cands[i])) &&
      (best.Some? ==> ZPairValid(s, cands[best.value]))
  {
    var cands := Triplets(s);
    var valid := Validity(s);
    BestUpToCorrect(cands, valid, Window(fv, s, zMass), |cands|);
    forall i | 0 <= i < |cands| ensures valid(cands[i]) == ZPairValid(s, cands[i]) {
    }
  }

  /** The candidate found has the Z pair closest to the Z mass among all
      triplets with a valid Z pair, and every such triplet before it has a
      strictly farther one: on ties the first in `itertools` order is kept. */
  lemma CandidateIsClosest(s: Store, fv: FourVectors, zMass: real)
    requires s.Loaded() && BestCandidate(s, fv, zMass).Some?
    ensures var cands := Triplets(s);
      var b := BestCandidate(s, fv, zMass).value;
      (forall i :: 0 <= i < |cands| && ZPairValid(s, cands[i]) ==>
        ZPairWindow(fv, s, zMass, cands[b]) <= ZPairWindow(fv, s, zMass, cands[i])) &&
      (forall i :: 0 <= i < b && ZPairValid(s, cands[i]) ==>
        ZPairWindow(fv, s, zMass, cands[b]) < ZPairWindow(fv, s, zMass, cands[i]))
  {
    var cands := Triplets(s);
    var valid, dist := Validity(s), Window(fv, s, zMass);
    BestUpToCorrect(cands, valid, dist, |cands|);
    forall i | 0 <= i < |cands|
      ensures valid(cands[i]) == ZPairValid(s, cands[i])
      ensures dist(cands[i]) == ZPairWindow(fv, s, zMass, cands[i])
    {
    }
  }

  /** Every histogram a passing event fills is one `initialize` registered. */
  lemma FillsRegistered(k: nat)
    ensures forall n :: n in FillNames(k) ==> n in HistogramNames()
    ensures forall n :: n in FillNames(k) ==> n in RegisterAllStandard(map[], HistogramNames())
  {
    InitializeRegistry();
    FillRowsInCatalog(k);
    HistogramRowsLayout();
    NamesOfSubRows(HistogramRows, FillRows(k));
  }
}
