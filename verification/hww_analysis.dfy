/**
 * HWWAnalysis: a Higgs boson decaying to two W bosons, each decaying to a
 * lepton and a neutrino, in the bin without jets.
 */
module HWWAnalysis {
  import opened TupleReader
  import opened AnalysisHelpers
  import opened StandardHistograms
  import opened HistManager
  import opened EventCounter
  import opened CutFlow

  /** The cut labels `analyze` counts, in order. */
  const Labels: seq<string> := ["no cut", "EventCuts", "2 high pt Leptons", "Jets"]

  /** Names of the histograms this analysis books itself. */
  const CustomNames: seq<string> := ["vismass", "ptll", "deltaphill"]

  /** The histograms this analysis books itself, in booking order. */
  const CustomHistograms: seq<(string, Histogram)> := [
    ("vismass", TH1D("vismass", Text("Visible Mass; M^{vis}_{ll};Events"), 20, 0.0, 200.0)),
    ("ptll", TH1D("ptll", Text("Tranvsere Momentum of Dilepton System; p_{T,ll};Events"), 20, 0.0, 200.0)),
    ("deltaphill", TH1D("deltaphill", Text("Azimuthal Opening Angle between Leptons; #|Delta#phi_{ll}|;Events"), 16, 0.0, 1.6))
  ]

  /** The own histograms are booked under `CustomNames`, in that order. */
  lemma CustomNamesBooked()
    ensures |CustomHistograms| == |CustomNames|
    ensures forall i :: 0 <= i < |CustomNames| ==> CustomHistograms[i].0 == CustomNames[i]
  {
  }

  /** Catalog rows of the standard histograms `initialize` registers, in order:
      lep_n, leadlep_{pt .. d0}, traillep_{pt .. d0}, etmiss, vxp_z, pvxp_n. */
  const HistogramRows: seq<nat> := [9] + Range(20, 40) + [2, 0, 1]

  /** `math.pi / 2.0` as the double it evaluates to. */
  const HalfPi: real := 1.5707963267948966

  /** The registered rows are catalog rows 0 to 2, 9 and 20 to 39, each once. */
  lemma HistogramRowsLayout()
    ensures InCatalog(HistogramRows) && DistinctRows(HistogramRows)
    ensures forall x: nat :: x in HistogramRows <==> x < 3 || x == 9 || 20 <= x < 40
  {
    var leptons := Range(20, 40);
    assert HistogramRows == [9] + leptons + [2, 0, 1];
    forall x: nat | 20 <= x < 40 ensures x in HistogramRows {
      assert leptons[x - 20] == x;
    }
  }

  /** The standard names `initialize` registers. */
  function HistogramNames(): seq<string>
  {
    HistogramRowsLayout();
    NamesOfRows(HistogramRows)
  }

  /** `initialize`: the three own bookings, then one `addStandardHistogram`
      per standard name. */
  method Initialize(hists: HistManager)
    modifies hists
    ensures hists.histograms == RegisterAllStandard(RegisterAll(old(hists.histograms), CustomHistograms), HistogramNames())
  {
    ghost var m := hists.histograms;
    var _ := hists.AddHistogram("vismass", TH1D("vismass", Text("Visible Mass; M^{vis}_{ll};Events"), 20, 0.0, 200.0));
    assert CustomHistograms[..1][..0] == [];
    assert hists.histograms == RegisterAll(m, CustomHistograms[..1]);
    var _ := hists.AddHistogram("ptll", TH1D("ptll", Text("Tranvsere Momentum of Dilepton System; p_{T,ll};Events"), 20, 0.0, 200.0));
    assert CustomHistograms[..2][..1] == CustomHistograms[..1];
    assert hists.histograms == RegisterAll(m, CustomHistograms[..2]);
    var _ := hists.AddHistogram("deltaphill", TH1D("deltaphill", Text("Azimuthal Opening Angle between Leptons; #|Delta#phi_{ll}|;Events"), 16, 0.0, 1.6));
    assert CustomHistograms[..3][..2] == CustomHistograms[..2] && CustomHistograms[..3] == CustomHistograms;
    hists.AddStandardHistograms(HistogramNames());
  }

  /** None of the own names is a catalog name. */
  lemma CustomNamesOutsideCatalog()
    ensures forall i :: 0 <= i < |CustomHistograms| ==> NotACatalogName(CustomHistograms[i].0)
    ensures forall i, j :: 0 <= i < j < |CustomHistograms| ==> CustomHistograms[i].0 != CustomHistograms[j].0
  {
    assert NotACatalogName("vismass");
    assert NotACatalogName("ptll");
    assert NotACatalogName("deltaphill");
  }

  /** Starting from an empty registry, `initialize` registers exactly the own
      names and the standard names: the own histograms as booked, each
      standard name with its catalog histogram, and no two names coincide. */
  lemma InitializeRegistry()
    ensures var names := HistogramNames();
      var r := RegisterAllStandard(RegisterAll(map[], CustomHistograms), names);
      (forall n :: n in r <==> n in Names(CustomHistograms) || n in names) &&
      (forall i :: 0 <= i < |CustomHistograms| ==> CustomHistograms[i].0 in r && r[CustomHistograms[i].0] == CustomHistograms[i].1) &&
      (forall i :: 0 <= i < |names| ==>
        HistogramRows[i] < CatalogSize && names[i] in r && r[names[i]] == CatalogEntry(HistogramRows[i])) &&
      (forall i, j :: 0 <= i < j < |names| ==> names[i] != names[j]) &&
      (forall i :: 0 <= i < |CustomHistograms| ==> CustomHistograms[i].0 !in names)
  {
    HistogramRowsLayout();
    CustomNamesOutsideCatalog();
    forall i | 0 <= i < |CustomHistograms| ensures CustomHistograms[i].0 !in HistogramNames() {
      OutsideCatalog(CustomHistograms[i].0, HistogramRows);
    }
    RegisterCustomThenCatalog(CustomHistograms, HistogramRows);
  }

  /** How many of `Labels` an event is counted at. */
  function Stage(s: Store): nat
    requires s.Loaded()
  {
    if !StandardEventCuts(s) then 1
    else if |GoodLeptons(s)| != 2 then 2
    else if |GoodJets(s)| != 0 then 3
    else 4
  }

  /** The background-suppression and topology cuts on the two leptons: opposite
      charges; for the same flavour a pair mass above 12 GeV and more than
      15 GeV away from the Z mass with missing momentum above 40 GeV, for
      different flavours a pair mass above 10 GeV with missing momentum above
      20 GeV; then a dilepton pt above 30 GeV, an angle to the missing
      momentum above pi/2, a pair mass below 55 GeV and an opening angle
      below 1.8. */
  predicate DileptonCuts(fv: FourVectors, s: Store, lead: Lepton, trail: Lepton, zMass: real)
    requires s.Loaded() && lead.Readable(s) && trail.Readable(s)
  {
    var mll := fv.pairMass(s, lead, trail);
    var met := GetEtMiss(s).Et(s);
    lead.Charge(s) * trail.Charge(s) < 0.0 &&
    (if Abs(lead.PdgId(s)) == Abs(trail.PdgId(s))
     then mll > 12.0 && AbsReal(mll - zMass) > 15.0 && met > 40.0
     else mll > 10.0 && met > 20.0) &&
    fv.pairPt(s, lead, trail) > 30.0 &&
    fv.pairMetDeltaPhi(s, lead, trail) > HalfPi &&
    mll < 55.0 &&
    fv.deltaPhi(s, lead, trail) < 1.8
  }

  /** `analyze` returns True. */
  predicate Passes(s: Store, fv: FourVectors, zMass: real)
    requires s.Loaded()
  {
    var good := GoodLeptons(s);
    StandardEventCuts(s) && |good| == 2 && |GoodJets(s)| == 0 &&
    assert good[0] in good && good[1] in good;
    DileptonCuts(fv, s, good[0], good[1], zMass)
  }

  /** The names of the histograms a passing event fills, in order: etmiss,
      vxp_z, pvxp_n, the three own histograms, leadlep_{pt .. d0} and
      traillep_{pt .. d0}.  lep_n is registered but never filled. */
  function FillNames(): seq<string>
  {
    assert InCatalog([2, 0, 1]) && InCatalog(Range(20, 40));
    NamesOfRows([2, 0, 1]) + CustomNames + NamesOfRows(Range(20, 40))
  }

  /** The labels do not clash with each other or with the driver's own. */
  lemma LabelsArePolicyCuts()
    ensures PolicyCuts(Labels)
  {
  }

  /** "no cut" is counted for every event, "EventCuts" when the standard event
      cuts pass, "2 high pt Leptons" when in addition there are exactly two
      good leptons, and "Jets" when in addition there is no good jet. */
  lemma CutCounts(s: Store, w: real)
    requires s.Loaded()
    ensures var u := Tally(Labels[..Stage(s)], w);
      Occurrences(u, "no cut") == 1 &&
      Occurrences(u, "EventCuts") == (if StandardEventCuts(s) then 1 else 0) &&
      Occurrences(u, "2 high pt Leptons") == (if StandardEventCuts(s) && |GoodLeptons(s)| == 2 then 1 else 0) &&
      Occurrences(u, "Jets") == (if StandardEventCuts(s) && |GoodLeptons(s)| == 2 && |GoodJets(s)| == 0 then 1 else 0)
  {
    LabelsArePolicyCuts();
    TallyCount(Labels, Stage(s), w, 0);
    TallyCount(Labels, Stage(s), w, 1);
    TallyCount(Labels, Stage(s), w, 2);
    TallyCount(Labels, Stage(s), w, 3);
  }

  /** `analyze`: the guard chain, counting each label it gets past; a passing
      event fills its histograms. */
  method Analyze(s: Store, fv: FourVectors, zMass: real, isData: bool, counter: EventCounter)
    returns (passed: bool, fills: seq<Fill>)
    requires s.Loaded() && counter.Valid()
    modifies counter
    ensures counter.Valid()
    ensures counter.updates == old(counter.updates) + Tally(Labels[..Stage(s)], CountWeight(s, isData))
    ensures passed == Passes(s, fv, zMass)
    ensures fills == if passed then FillAll(FillNames(), CountWeight(s, isData)) else []
  {
    var weight := CountWeight(s, isData);
    ghost var start := counter.updates;
    assert Labels[..0] == [];
    CountNext(counter, Labels, 0, weight, start);
    ghost var reached := 1;
    passed, fills := false, [];
    if StandardEventCuts(s) {
      CountNext(counter, Labels, 1, weight, start);
      reached := 2;
      var goodLeptons := GoodLeptons(s);
      if |goodLeptons| == 2 {
        CountNext(counter, Labels, 2, weight, start);
        reached := 3;
        var jets := GoodJets(s);
        if |jets| == 0 {
          CountNext(counter, Labels, 3, weight, start);
          reached := 4;
          passed, fills := Conclude(s, fv, zMass, weight, goodLeptons);
        }
      }
    }
    assert reached == Stage(s);
  }

  /** The uncounted rest of `analyze` once two good leptons and no good jet
      are found: the dilepton cuts and the fills. */
  method Conclude(s: Store, fv: FourVectors, zMass: real, weight: real, goodLeptons: seq<Lepton>)
    returns (passed: bool, fills: seq<Fill>)
    requires s.Loaded() && StandardEventCuts(s) && goodLeptons == GoodLeptons(s) && |goodLeptons| == 2
    requires |GoodJets(s)| == 0
    ensures passed == Passes(s, fv, zMass)
    ensures fills == if passed then FillAll(FillNames(), weight) else []
  {
    var lead, trail := goodLeptons[0], goodLeptons[1];
    assert lead in goodLeptons && trail in goodLeptons;
    var etmiss := GetEtMiss(s);
    var mll := fv.pairMass(s, lead, trail);
    if !(lead.Charge(s) * trail.Charge(s) < 0.0) {
      return false, [];
    }
    if Abs(lead.PdgId(s)) == Abs(trail.PdgId(s)) {
      if !(mll > 12.0) {
        return false, [];
      }
      if !(AbsReal(mll - zMass) > 15.0) {
        return false, [];
      }
      if !(etmiss.Et(s) > 40.0) {
        return false, [];
      }
    } else {
      if !(mll > 10.0) {
        return false, [];
      }
      if !(etmiss.Et(s) > 20.0) {
        return false, [];
      }
    }
    if !(fv.pairPt(s, lead, trail) > 30.0) {
      return false, [];
    }
    if !(fv.pairMetDeltaPhi(s, lead, trail) > HalfPi) {
      return false, [];
    }
    if !(mll < 55.0) {
      return false, [];
    }
    if !(fv.deltaPhi(s, lead, trail) < 1.8) {
      return false, [];
    }
    passed := true;
    fills := FillAll(FillNames(), weight);
  }

  /** A passing event went through every counted cut; its two good leptons are
      ordered by pt and have opposite charges; there is no good jet; the pair
      mass lies between 10 and 55 GeV and the missing momentum is above
      20 GeV; for the same flavour the pair mass is also above 12 GeV, more
      than 15 GeV away from the Z mass, and the missing momentum above 40 GeV;
      the dilepton pt is above 30 GeV, its angle to the missing momentum above
      pi/2 and the opening angle of the pair below 1.8. */
  lemma PassingEvent(s: Store, fv: FourVectors, zMass: real)
    requires s.Loaded() && Passes(s, fv, zMass)
    ensures Stage(s) == |Labels|
    ensures GoodJets(s) == []
    ensures var good := GoodLeptons(s);
      |good| == 2 && good[0].Readable(s) && good[1].Readable(s) &&
      good[0].Pt(s) >= good[1].Pt(s) &&
      good[0].Charge(s) * good[1].Charge(s) < 0.0 &&
      var mll := fv.pairMass(s, good[0], good[1]);
      10.0 < mll < 55.0 && GetEtMiss(s).Et(s) > 20.0 &&
      (Abs(good[0].PdgId(s)) == Abs(good[1].PdgId(s)) ==>
        mll > 12.0 && AbsReal(mll - zMass) > 15.0 && GetEtMiss(s).Et(s) > 40.0) &&
      fv.pairPt(s, good[0], good[1]) > 30.0 &&
      fv.pairMetDeltaPhi(s, good[0], good[1]) > HalfPi &&
      fv.deltaPhi(s, good[0], good[1]) < 1.8
  {
    var good := GoodLeptons(s);
    assert good[0] in good && good[1] in good;
  }

  /** Every histogram a passing event fills is one `initialize` registered:
      an own histogram or a registered standard one. */
  lemma FillsRegistered()
    ensures forall n :: n in FillNames() ==> n in CustomNames || n in HistogramNames()
  {
    HistogramRowsLayout();
    var rows := [2, 0, 1] + Range(20, 40);
    assert InCatalog(rows) by {
      forall i | 0 <= i < |rows| ensures rows[i] < CatalogSize {
        if i >= 3 {
          assert rows[i] == Range(20, 40)[i - 3];
        }
      }
    }
    forall x | x in rows ensures x in HistogramRows {
      var i :| 0 <= i < |rows| && rows[i] == x;
      if i >= 3 {
        assert rows[i] == Range(20, 40)[i - 3];
      }
    }
    NamesOfSubRows(HistogramRows, rows);
    forall n | n in FillNames() ensures n in CustomNames || n in HistogramNames() {
      assert InCatalog([2, 0, 1]) && InCatalog(Range(20, 40));
      if n in NamesOfRows([2, 0, 1]) {
        var i :| 0 <= i < 3 && NamesOfRows([2, 0, 1])[i] == n;
        assert NamesOfRows(rows)[i] == n;
      } else if n in NamesOfRows(Range(20, 40)) {
        var i :| 0 <= i < 20 && NamesOfRows(Range(20, 40))[i] == n;
        assert NamesOfRows(rows)[i + 3] == n;
      }
    }
  }

  /** Hence every histogram a passing event fills is in the registry that
      `initialize` builds from an empty one. */
  lemma FillsInitialRegistry()
    ensures forall n :: n in FillNames() ==> n in RegisterAllStandard(RegisterAll(map[], CustomHistograms), HistogramNames())
  {
    FillsRegistered();
    InitializeRegistry();
    forall n | n in FillNames() && n in CustomNames
      ensures n in Names(CustomHistograms)
    {
      CustomNamesBooked();
      var i :| 0 <= i < |CustomNames| && CustomNames[i] == n;
      assert CustomHistograms[i].0 == n;
    }
  }
}
