/**
 * WAnalysis: events with a single W boson decaying to a lepton and a
 * neutrino.
 */
module WAnalysis {
  import opened TupleReader
  import opened AnalysisHelpers
  import opened StandardHistograms
  import opened HistManager
  import opened EventCounter
  import opened CutFlow

  /** The cut labels `analyze` counts, in order. */
  const Labels: seq<string> := ["no cut", "EventCuts", "1 high pt Leptons"]

  /** Catalog rows of the histograms `initialize` registers, in order: WtMass,
      lep_n, lep_{pt .. d0}, n_jets, jet_pt, jet_m, jet_jvf, jet_eta, jet_MV1,
      etmiss, vxp_z, pvxp_n. */
  const HistogramRows: seq<nat> := [40, 9] + Range(10, 20) + Range(3, 9) + [2, 0, 1]

  /** The registered rows are catalog rows 0 to 19 and 40, each once. */
  lemma HistogramRowsLayout()
    ensures InCatalog(HistogramRows) && DistinctRows(HistogramRows)
    ensures forall x: nat :: x in HistogramRows <==> x < 20 || x == 40
  {
    var leptons, jets := Range(10, 20), Range(3, 9);
    assert HistogramRows == [40, 9] + leptons + jets + [2, 0, 1];
    forall x: nat | x < 20 || x == 40 ensures x in HistogramRows {
      if 10 <= x < 20 {
        assert leptons[x - 10] == x;
      } else if 3 <= x < 9 {
        assert jets[x - 3] == x;
      }
    }
  }

  /** The names `initialize` registers. */
  function HistogramNames(): seq<string>
  {
    HistogramRowsLayout();
    NamesOfRows(HistogramRows)
  }

  /** `initialize`: one `addStandardHistogram` per name. */
  method Initialize(hists: HistManager)
    modifies hists
    ensures hists.histograms == RegisterAllStandard(old(hists.histograms), HistogramNames())
  {
    hists.AddStandardHistograms(HistogramNames());
  }

  /** Starting from an empty registry, `initialize` registers exactly its names,
      each with its catalog histogram, and no two of the names coincide. */
  lemma InitializeRegistry()
    ensures var names := HistogramNames();
      var r := RegisterAllStandard(map[], names);
      (forall n :: n in r <==> n in names) &&
      (forall i :: 0 <= i < |names| ==>
        HistogramRows[i] < CatalogSize && names[i] in r && r[names[i]] == CatalogEntry(HistogramRows[i])) &&
      (forall i, j :: 0 <= i < j < |names| ==> names[i] != names[j])
  {
    HistogramRowsLayout();
    RegisterCatalogRows(map[], HistogramRows);
  }

  /** How many of `Labels` an event is counted at. */
  function Stage(s: Store): nat
    requires s.Loaded()
  {
    if !StandardEventCuts(s) then 1
    else if |GoodLeptons(s)| != 1 then 2
    else 3
  }

  /** `analyze` returns True: the W candidate made of the one good lepton and
      the missing momentum has a transverse mass above 30 GeV, and the missing
      transverse momentum is above 30 GeV. */
  predicate Passes(s: Store, fv: FourVectors, zMass: real)
    requires s.Loaded()
  {
    var good := GoodLeptons(s);
    StandardEventCuts(s) && |good| == 1 &&
    assert good[0] in good;
    fv.transverseMass(s, good[0]) > 30.0 && GetEtMiss(s).Et(s) > 30.0
  }

  /** Catalog rows of the histograms a passing event fills, in order: vxp_z,
      pvxp_n, WtMass, etmiss, lep_{pt .. d0}, n_jets, then each per-jet
      histogram once per good jet.  lep_n is registered but never filled. */
  function FillRows(jets: nat): seq<nat>
  {
    [0, 1, 40, 2] + Range(10, 20) + [3] + PerObject(JetFillRows, jets)
  }

  /** The names of the histograms a passing event fills, in order. */
  function FillNames(s: Store): seq<string>
    requires s.Loaded()
  {
    FillRowsValid(|GoodJets(s)|);
    NamesOfRows(FillRows(|GoodJets(s)|))
  }

  /** The labels do not clash with each other or with the driver's own. */
  lemma LabelsArePolicyCuts()
    ensures PolicyCuts(Labels)
  {
  }

  /** "no cut" is counted for every event, "EventCuts" exactly when the
      standard event cuts pass, and "1 high pt Leptons" exactly when in
      addition there is exactly one good lepton. */
  lemma CutCounts(s: Store, w: real)
    requires s.Loaded()
    ensures var u := Tally(Labels[..Stage(s)], w);
      Occurrences(u, "no cut") == 1 &&
      Occurrences(u, "EventCuts") == (if StandardEventCuts(s) then 1 else 0) &&
      Occurrences(u, "1 high pt Leptons") == (if StandardEventCuts(s) && |GoodLeptons(s)| == 1 then 1 else 0)
  {
    LabelsArePolicyCuts();
    TallyCount(Labels, Stage(s), w, 0);
    TallyCount(Labels, Stage(s), w, 1);
    TallyCount(Labels, Stage(s), w, 2);
  }

  /** `analyze`: the guard chain, counting each label it gets past; a passing
      event fills its histograms. */
  method Analyze(s: Store, fv: FourVectors, zMass: real, isData: bool, counter: EventCounter)
    returns (passed: bool, fills: seq<Fill>)
    requires s.Loaded() && counter.Valid()
    modifies counter
    ensures counter.Valid()
    ensures counter.updates == old(counter.updates) + Tally(Labels[..Stage(s)], CountWeight(s, isData))
    ensures passed == Passes(s, fv, zMass)
    ensures fills == if passed then FillAll(FillNames(s), CountWeight(s, isData)) else []
  {
    var weight := CountWeight(s, isData);
    ghost var start := counter.updates;
    assert Labels[..0] == [];
    CountNext(counter, Labels, 0, weight, start);
    ghost var reached := 1;
    passed, fills := false, [];
    if StandardEventCuts(s) {
      CountNext(counter, Labels, 1, weight, start);
      reached := 2;
      var goodLeptons := GoodLeptons(s);
      if |goodLeptons| == 1 {
        CountNext(counter, Labels, 2, weight, start);
        reached := 3;
        passed, fills := Conclude(s, fv, zMass, weight, goodLeptons);
      }
    }
    assert reached == Stage(s);
  }

  /** The uncounted rest of `analyze` once the one good lepton is found: the
      W candidate cuts and the fills. */
  method Conclude(s: Store, fv: FourVectors, zMass: real, weight: real, goodLeptons: seq<Lepton>)
    returns (passed: bool, fills: seq<Fill>)
    requires s.Loaded() && StandardEventCuts(s) && goodLeptons == GoodLeptons(s) && |goodLeptons| == 1
    ensures passed == Passes(s, fv, zMass)
    ensures fills == if passed then FillAll(FillNames(s), weight) else []
  {
    var lepton := goodLeptons[0];
    assert lepton in goodLeptons;
    var etmiss := GetEtMiss(s);
    if !(fv.transverseMass(s, lepton) > 30.0) {
      return false, [];
    }
    if !(etmiss.Et(s) > 30.0) {
      return false, [];
    }
    passed := true;
    fills := FillAll(FillNames(s), weight);
  }

  /** A passing event went through every counted cut with exactly one good
      lepton, the W transverse mass and the missing momentum above 30 GeV. */
  lemma PassingEvent(s: Store, fv: FourVectors, zMass: real)
    requires s.Loaded() && Passes(s, fv, zMass)
    ensures Stage(s) == |Labels|
    ensures var good := GoodLeptons(s);
      |good| == 1 && good[0] in GetLeptons(s) && good[0].Readable(s) && IsGoodLepton(good[0], s) &&
      fv.transverseMass(s, good[0]) > 30.0 && GetEtMiss(s).Et(s) > 30.0
  {
    var good := GoodLeptons(s);
    assert good[0] in good;
  }

  /** Every histogram a passing event fills is one `initialize` registered. */
  lemma FillsRegistered(s: Store)
    requires s.Loaded()
    ensures forall n :: n in FillNames(s) ==> n in HistogramNames()
    ensures forall n :: n in FillNames(s) ==> n in RegisterAllStandard(map[], HistogramNames())
  {
    InitializeRegistry();
    FillRowsInCatalog(|GoodJets(s)|);
    HistogramRowsLayout();
    NamesOfSubRows(HistogramRows, FillRows(|GoodJets(s)|));
  }

  /** The filled rows are catalog rows. */
  lemma FillRowsValid(n: nat)
    ensures InCatalog(FillRows(n))
  {
    FillRowsInCatalog(n);
  }

  /** The filled rows are registered catalog rows. */
  lemma FillRowsInCatalog(n: nat)
    ensures InCatalog(FillRows(n))
    ensures forall x :: x in FillRows(n) ==> x in HistogramRows
  {
    HistogramRowsLayout();
    var rows := FillRows(n);
    var leptons := Range(10, 20);
    var jets := PerObject(JetFillRows, n);
    assert rows == [0, 1, 40, 2] + leptons + [3] + jets;
    forall i | 0 <= i < |rows| ensures rows[i] < 20 || rows[i] == 40 {
      if i >= 15 {
        assert rows[i] == jets[i - 15] && jets[i - 15] in jets;
      } else if 4 <= i < 14 {
        assert rows[i] == leptons[i - 4];
      }
    }
    forall x | x in rows ensures x in HistogramRows {
      var i :| 0 <= i < |rows| && rows[i] == x;
    }
  }
}
