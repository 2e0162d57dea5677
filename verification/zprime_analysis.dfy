/**
 * ZPrimeAnalysis: a search for a heavy Z' decaying to a top pair, in the
 * semileptonic topology (one lepton, missing momentum, four jets of which at
 * least one is b-tagged).
 */
module ZPrimeAnalysis {
  import opened TupleReader
  import opened AnalysisHelpers
  import opened StandardHistograms
  import opened HistManager
  import opened EventCounter
  import opened CutFlow

  /** The cut labels `analyze` counts, in order. */
  const Labels: seq<string> := ["no cut", "EventCuts", "1 high pt Leptons", "etmiss", "4 jets", "btag", "masses"]

  /** The MV1 working point above which a jet counts as b-tagged. */
  const MV1Cut: real := 0.7892

  /** Catalog rows of the histograms `initialize` registers, in order: WtMass,
      lep_{pt .. d0}, n_jets, jet_pt, jet_m, jet_jvf, jet_eta, jet_MV1,
      etmiss, vxp_z, pvxp_n. */
  const HistogramRows: seq<nat> := [40] + Range(10, 20) + Range(3, 9) + [2, 0, 1]

  /** The registered rows are catalog rows 0 to 8, 10 to 19 and 40, each once. */
  lemma HistogramRowsLayout()
    ensures InCatalog(HistogramRows) && DistinctRows(HistogramRows)
    ensures forall x: nat :: x in HistogramRows <==> (x < 20 && x != 9) || x == 40
  {
    var leptons, jets := Range(10, 20), Range(3, 9);
    assert HistogramRows == [40] + leptons + jets + [2, 0, 1];
    forall x: nat | (x < 20 && x != 9) || x == 40 ensures x in HistogramRows {
      if 10 <= x < 20 {
        assert leptons[x - 10] == x;
      } else if 3 <= x < 9 {
        assert jets[x - 3] == x;
      }
    }
  }

  /** The names `initialize` registers. */
  function HistogramNames(): seq<string>
  {
    HistogramRowsLayout();
    NamesOfRows(HistogramRows)
  }

  /** `initialize`: one `addStandardHistogram` per name. */
  method Initialize(hists: HistManager)
    modifies hists
    ensures hists.histograms == RegisterAllStandard(old(hists.histograms), HistogramNames())
  {
    hists.AddStandardHistograms(HistogramNames());
  }

  /** Starting from an empty registry, `initialize` registers exactly its names,
      each with its catalog histogram, and no two of the names coincide. */
  lemma InitializeRegistry()
    ensures var names := HistogramNames();
      var r := RegisterAllStandard(map[], names);
      (forall n :: n in r <==> n in names) &&
      (forall i :: 0 <= i < |names| ==>
        HistogramRows[i] < CatalogSize && names[i] in r && r[names[i]] == CatalogEntry(HistogramRows[i])) &&
      (forall i, j :: 0 <= i < j < |names| ==> names[i] != names[j])
  {
    HistogramRowsLayout();
    RegisterCatalogRows(map[], HistogramRows);
  }

  /** The b-tag count: how many of `jets` have MV1 at or above the working
      point. */
  function BTagged(jets: seq<Jet>, s: Store): (n: nat)
    requires forall j :: j in jets ==> j.Readable(s)
    ensures n <= |jets|
  {
    if jets == [] then 0
    else BTagged(jets[..|jets| - 1], s) + (if jets[|jets| - 1].MV1(s) >= MV1Cut then 1 else 0)
  }

  /** At least one jet is b-tagged exactly when some jet passes the working point. */
  lemma {:induction false} BTaggedPositive(jets: seq<Jet>, s: Store)
    requires forall j :: j in jets ==> j.Readable(s)
    ensures BTagged(jets, s) >= 1 <==> exists j :: j in jets && j.MV1(s) >= MV1Cut
  {
    if jets != [] {
      var init := jets[..|jets| - 1];
      BTaggedPositive(init, s);
      if exists j :: j in init && j.MV1(s) >= MV1Cut {
        var j :| j in init && j.MV1(s) >= MV1Cut;
        assert j in jets;
      }
      if exists j :: j in jets && j.MV1(s) >= MV1Cut {
        var j :| j in jets && j.MV1(s) >= MV1Cut;
        if j != jets[|jets| - 1] {
          var i :| 0 <= i < |jets| && jets[i] == j;
          assert init[i] == j;
        }
      }
    }
  }

  /** The W transverse mass of the one good lepton. */
  function WMass(s: Store, fv: FourVectors): real
    requires s.Loaded() && |GoodLeptons(s)| == 1
  {
    var good := GoodLeptons(s);
    assert good[0] in good;
    fv.transverseMass(s, good[0])
  }

  /** How many of `Labels` an event is counted at. */
  function Stage(s: Store, fv: FourVectors): nat
    requires s.Loaded()
  {
    if !StandardEventCuts(s) then 1
    else if |GoodLeptons(s)| != 1 then 2
    else if !(GetEtMiss(s).Et(s) > 30.0) then 3
    else if |GoodJets(s)| < 4 then 4
    else if BTagged(GoodJets(s), s) < 1 then 5
    else if !(WMass(s, fv) > 30.0 && WMass(s, fv) + GetEtMiss(s).Et(s) > 60.0) then 6
    else 7
  }

  /** `analyze` returns True: one good lepton, missing momentum above 30 GeV,
      at least four good jets with at least one b-tag, a W transverse mass
      above 30 GeV and W transverse mass plus missing momentum above 60 GeV. */
  predicate Passes(s: Store, fv: FourVectors, zMass: real)
    requires s.Loaded()
  {
    StandardEventCuts(s) && |GoodLeptons(s)| == 1 && GetEtMiss(s).Et(s) > 30.0 &&
    |GoodJets(s)| >= 4 && BTagged(GoodJets(s), s) >= 1 &&
    WMass(s, fv) > 30.0 && WMass(s, fv) + GetEtMiss(s).Et(s) > 60.0
  }

  /** Catalog rows of the histograms a passing event fills, in order: vxp_z,
      pvxp_n, WtMass, etmiss, lep_{pt .. d0}, n_jets, then each per-jet
      histogram once per good jet. */
  function FillRows(jets: nat): seq<nat>
  {
    [0, 1, 40, 2] + Range(10, 20) + [3] + PerObject(JetFillRows, jets)
  }

  /** The names of the histograms a passing event fills, in order. */
  function FillNames(s: Store): seq<string>
    requires s.Loaded()
  {
    FillRowsValid(|GoodJets(s)|);
    NamesOfRows(FillRows(|GoodJets(s)|))
  }

  /** The labels do not clash with each other or with the driver's own. */
  lemma LabelsArePolicyCuts()
    ensures PolicyCuts(Labels)
  {
  }

  /** `analyze` passes exactly when the event got past every counted cut, so
      "masses" is counted exactly for passing events. */
  lemma PassesIffLastCut(s: Store, fv: FourVectors, zMass: real, w: real)
    requires s.Loaded()
    ensures Passes(s, fv, zMass) <==> Stage(s, fv) == |Labels|
    ensures Occurrences(Tally(Labels[..Stage(s, fv)], w), "masses") == if Passes(s, fv, zMass) then 1 else 0
    ensures Occurrences(Tally(Labels[..Stage(s, fv)], w), "no cut") == 1
  {
    LabelsArePolicyCuts();
    TallyCount(Labels, Stage(s, fv), w, 6);
    TallyCount(Labels, Stage(s, fv), w, 0);
  }

  /** `analyze`: the guard chain, counting each label it gets past; a passing
      event fills its histograms. */
  method Analyze(s: Store, fv: FourVectors, zMass: real, isData: bool, counter: EventCounter)
    returns (passed: bool, fills: seq<Fill>)
    requires s.Loaded() && counter.Valid()
    modifies counter
    ensures counter.Valid()
    ensures counter.updates == old(counter.updates) + Tally(Labels[..Stage(s, fv)], CountWeight(s, isData))
    ensures passed == Passes(s, fv, zMass)
    ensures fills == if passed then FillAll(FillNames(s), CountWeight(s, isData)) else []
  {
    var weight := CountWeight(s, isData);
    ghost var start := counter.updates;
    assert Labels[..0] == [];
    CountNext(counter, Labels, 0, weight, start);
    ghost var reached := 1;
    passed, fills := false, [];
    if StandardEventCuts(s) {
      CountNext(counter, Labels, 1, weight, start);
      reached := 2;
      var goodLeptons := GoodLeptons(s);
      if |goodLeptons| == 1 {
        CountNext(counter, Labels, 2, weight, start);
        reached := 3;
        ghost var more;
        passed, fills, more := CountObjects(s, fv, zMass, weight, goodLeptons, counter, start);
        reached := reached + more;
      }
    }
    assert reached == Stage(s, fv);
  }

  /** The rest of `analyze` once the one good lepton is found: the missing
      momentum, jet, b-tag and mass cuts, each counted when passed, and the
      fills.  `more` is the number of further labels counted. */
  method CountObjects(s: Store, fv: FourVectors, zMass: real, weight: real, goodLeptons: seq<Lepton>,
                      counter: EventCounter, ghost start: seq<(string, real)>)
    returns (passed: bool, fills: seq<Fill>, ghost more: nat)
    requires s.Loaded() && StandardEventCuts(s) && goodLeptons == GoodLeptons(s) && |goodLeptons| == 1
    requires counter.Valid() && counter.updates == start + Tally(Labels[..3], weight)
    modifies counter
    ensures counter.Valid() && 3 + more == Stage(s, fv) && counter.updates == start + Tally(Labels[..3 + more], weight)
    ensures passed == Passes(s, fv, zMass)
    ensures fills == if passed then FillAll(FillNames(s), weight) else []
  {
    passed, fills, more := false, [], 0;
    var etmiss := GetEtMiss(s);
    if !(etmiss.Et(s) > 30.0) {
      return;
    }
    CountNext(counter, Labels, 3, weight, start);
    more := 1;
    var goodJets := GoodJets(s);
    if !(|goodJets| >= 4) {
      return;
    }
    CountNext(counter, Labels, 4, weight, start);
    more := 2;
    if !(BTagged(goodJets, s) >= 1) {
      return;
    }
    CountNext(counter, Labels, 5, weight, start);
    more := 3;
    var lepton := goodLeptons[0];
    assert lepton in goodLeptons;
    var mTW := fv.transverseMass(s, lepton);
    if !(mTW > 30.0) {
      return;
    }
    if !(mTW + etmiss.Et(s) > 60.0) {
      return;
    }
    CountNext(counter, Labels, 6, weight, start);
    more := 4;
    passed := true;
    fills := FillAll(FillNames(s), weight);
  }

  /** A passing event has one good lepton, at least four good jets, one of
      them b-tagged, and its W candidate passes the mass cuts. */
  lemma PassingEvent(s: Store, fv: FourVectors, zMass: real)
    requires s.Loaded() && Passes(s, fv, zMass)
    ensures Stage(s, fv) == |Labels|
    ensures |GoodLeptons(s)| == 1 && |GoodJets(s)| >= 4
    ensures exists j :: j in GoodJets(s) && j.Readable(s) && IsGoodJet(j, s) && j.MV1(s) >= MV1Cut
    ensures WMass(s, fv) > 30.0 && WMass(s, fv) + GetEtMiss(s).Et(s) > 60.0
  {
    BTaggedPositive(GoodJets(s), s);
  }

  /** Every histogram a passing event fills is one `initialize` registered. */
  lemma FillsRegistered(s: Store)
    requires s.Loaded()
    ensures forall n :: n in FillNames(s) ==> n in HistogramNames()
    ensures forall n :: n in FillNames(s) ==> n in RegisterAllStandard(map[], HistogramNames())
  {
    InitializeRegistry();
    FillRowsInCatalog(|GoodJets(s)|);
    HistogramRowsLayout();
    NamesOfSubRows(HistogramRows, FillRows(|GoodJets(s)|));
  }

  /** The filled rows are catalog rows. */
  lemma FillRowsValid(n: nat)
    ensures InCatalog(FillRows(n))
  {
    FillRowsInCatalog(n);
  }

  /** The filled rows are registered catalog rows. */
  lemma FillRowsInCatalog(n: nat)
    ensures InCatalog(FillRows(n))
    ensures forall x :: x in FillRows(n) ==> x in HistogramRows
  {
    HistogramRowsLayout();
    var rows := FillRows(n);
    var leptons := Range(10, 20);
    var jets := PerObject(JetFillRows, n);
    assert rows == [0, 1, 40, 2] + leptons + [3] + jets;
    forall i | 0 <= i < |rows| ensures (rows[i] < 20 && rows[i] != 9) || rows[i] == 40 {
      if i >= 15 {
        assert rows[i] == jets[i - 15] && jets[i - 15] in jets;
      } else if 4 <= i < 14 {
        assert rows[i] == leptons[i - 4];
      }
    }
    forall x | x in rows ensures x in HistogramRows {
      var i :| 0 <= i < |rows| && rows[i] == x;
    }
  }
}
