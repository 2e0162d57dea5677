/**
 * The catalog of standard histograms: a fixed lookup table from a histogram
 * name to its title and binning.  Row i of the name column, the title table
 * and the binning column below is the i-th entry of the lookup, in the order
 * the names are tested.
 */
module StandardHistograms {
  import opened Wrappers

  /** A histogram title: the title of a catalog row, or one given with the booking. */
  datatype Title = RowTitle(row: nat) | Text(text: string)

  /** A one-dimensional histogram booking: name, title, bin count and axis range. */
  datatype Histogram = TH1D(name: string, title: Title, nbins: nat, lo: real, hi: real)

  datatype Binning = Binning(nbins: nat, lo: real, hi: real)

  const CatalogNames: seq<string> := [
    "vxp_z", "pvxp_n", "etmiss", "n_jets", "jet_pt",
    "jet_m", "jet_jvf", "jet_eta", "jet_MV1", "lep_n",
    "lep_pt", "lep_eta", "lep_E", "lep_phi", "lep_charge",
    "lep_type", "lep_ptconerel30", "lep_etconerel20", "lep_z0", "lep_d0",
    "leadlep_pt", "leadlep_eta", "leadlep_E", "leadlep_phi", "leadlep_charge",
    "leadlep_type", "leadlep_ptconerel30", "leadlep_etconerel20", "leadlep_z0", "leadlep_d0",
    "traillep_pt", "traillep_eta", "traillep_E", "traillep_phi", "traillep_charge",
    "traillep_type", "traillep_ptconerel30", "traillep_etconerel20", "traillep_z0", "traillep_d0",
    "WtMass", "invMass"
  ]

  /** Title text of catalog row `i`. */
  function CatalogTitle(i: nat): string
  {
    match i
      case 0 => "Primary Vertex Position; z_{Vertex}; Events"
      case 1 => "Number of Vertices; N_{vertex}; Events"
      case 2 => "Missing Transverse Momentum;E_{T,Miss} [GeV];Events"
      case 3 => "Number of Jets;N_{jets};Events"
      case 4 => "Jet Transverse Momentum;p_{T}^{jet} [GeV];Jets"
      case 5 => "Jet Mass; m^{jet} [MeV]; Jets"
      case 6 => "Jet Vertex Fraction; JVF ; Jets"
      case 7 => "Jet Pseudorapidity; #eta^{jet}; Jets"
      case 8 => "Jet MV1; MV1 weight ; Jets"
      case 9 => "Number of Leptons; N_{lep} ;Events"
      case 10 => "Lepton Transverse Momentum;p_{T}^{lep} [GeV];Leptons"
      case 11 => "Lepton Pseudorapidity; #eta^{lep}; Leptons"
      case 12 => "Lepton Energy; E^{lep} [GeV]; Leptons"
      case 13 => "Lepton Azimuthal Angle ; #phi^{lep}; Leptons"
      case 14 => "Lepton Charge; Q^{lep}; Leptons"
      case 15 => "Lepton Absolute PDG ID; |PDG ID|^{lep}; Leptons"
      case 16 => "Lepton Relative Transverse Momentum Isolation; ptconerel30^{lep}; Leptons"
      case 17 => "Lepton Relative Transverse Energy Isolation; etconerel20^{lep}; Leptons"
      case 18 => "Lepton z0 impact parameter; z_{0}^{lep} [mm]; Leptons"
      case 19 => "Lepton d0 impact parameter; d_{0}^{lep} [mm]; Leptons"
      case 20 => "Leading Lepton Transverse Momentum;p_{T}^{leadlep} [GeV];Leptons"
      case 21 => "Leading Lepton Pseudorapidity; #eta^{leadlep}; Leptons"
      case 22 => "Leading Lepton Energy; E^{leadlep} [GeV]; Leptons"
      case 23 => "Leading Lepton Azimuthal Angle ; #phi^{leadlep}; Leptons"
      case 24 => "Leading Lepton Charge; Q^{leadlep}; Leptons"
      case 25 => "Leading Lepton Absolute PDG ID; |PDG ID|^{leadlep}; Leptons"
      case 26 => "Leading Lepton Relative Transverse Momentum Isolation; ptconerel30^{leadlep}; Leptons"
      case 27 => "Leading Lepton Relative Transverse Energy Isolation; etconerel20^{leadlep}; Leptons"
      case 28 => "Leading Lepton z0 impact parameter; z_{0}^{leadlep} [mm]; Leptons"
      case 29 => "Leading Lepton d0 impact parameter; d_{0}^{leadlep} [mm]; Leptons"
      case 30 => "Trailing Lepton Transverse Momentum;p_{T}^{traillep} [GeV];Leptons"
      case 31 => "Trailing Lepton Pseudorapidity; #eta^{traillep}; Leptons"
      case 32 => "Trailing Lepton Energy; E^{traillep} [GeV]; Leptons"
      case 33 => "Trailing Lepton Azimuthal Angle ; #phi^{traillep}; Leptons"
      case 34 => "Trailing Lepton Charge; Q^{traillep}; Leptons"
      case 35 => "Trailing Lepton Absolute PDG ID; |PDG ID|^{traillep}; Leptons"
      case 36 => "Trailing Lepton Relative Transverse Momentum Isolation; ptconerel30^{traillep} [GeV]; Leptons"
      case 37 => "Trailing Lepton Relative Transverse Energy Isolation; etconerel20^{traillep} [GeV]; Leptons"
      case 38 => "Trailing Lepton z0 impact parameter; z_{0}^{traillep} [mm]; Leptons"
      case 39 => "Trailing Lepton d0 impact parameter; d_{0}^{traillep} [mm]; Leptons"
      case 40 => "Transverse Mass of the W Candidate; M_{T,W} [GeV]; Events"
      case 41 => "Invariant Mass of the Z Candidate;M_{ll} [GeV]; Events"
      case _ => ""
  }

  /** The text of a title. */
  function TitleText(t: Title): string
  {
    match t
      case RowTitle(i) => CatalogTitle(i)
      case Text(text) => text
  }

  const CatalogBinnings: seq<Binning> := [
    /* vxp_z                */ Binning(40, -200.0, 200.0),
    /* pvxp_n               */ Binning(30, -0.5, 29.5),
    /* etmiss               */ Binning(20, 0.0, 200.0),
    /* n_jets               */ Binning(10, -0.5, 9.5),
    /* jet_pt               */ Binning(20, 0.0, 200.0),
    /* jet_m                */ Binning(20, 0.0, 20000.0),
    /* jet_jvf              */ Binning(20, 0.0, 1.0),
    /* jet_eta              */ Binning(30, -3.0, 3.0),
    /* jet_MV1              */ Binning(20, 0.0, 1.0),
    /* lep_n                */ Binning(10, -0.5, 9.5),
    /* lep_pt               */ Binning(20, 0.0, 200.0),
    /* lep_eta              */ Binning(30, -3.0, 3.0),
    /* lep_E                */ Binning(30, 0.0, 300.0),
    /* lep_phi              */ Binning(32, -3.2, 3.2),
    /* lep_charge           */ Binning(7, -1.75, 1.75),
    /* lep_type             */ Binning(31, -0.5, 30.5),
    /* lep_ptconerel30      */ Binning(40, -0.1, 0.4),
    /* lep_etconerel20      */ Binning(40, -0.1, 0.4),
    /* lep_z0               */ Binning(40, -1.0, 1.0),
    /* lep_d0               */ Binning(40, -1.0, 1.0),
    /* leadlep_pt           */ Binning(20, 0.0, 200.0),
    /* leadlep_eta          */ Binning(30, -3.0, 3.0),
    /* leadlep_E            */ Binning(30, 0.0, 300.0),
    /* leadlep_phi          */ Binning(32, -3.2, 3.2),
    /* leadlep_charge       */ Binning(7, -1.75, 1.75),
    /* leadlep_type         */ Binning(31, -0.5, 30.5),
    /* leadlep_ptconerel30  */ Binning(40, -0.1, 0.4),
    /* leadlep_etconerel20  */ Binning(40, -0.1, 0.4),
    /* leadlep_z0           */ Binning(40, -1.0, 1.0),
    /* leadlep_d0           */ Binning(40, -1.0, 1.0),
    /* traillep_pt          */ Binning(20, 0.0, 200.0),
    /* traillep_eta         */ Binning(30, -3.0, 3.0),
    /* traillep_E           */ Binning(30, 0.0, 300.0),
    /* traillep_phi         */ Binning(32, -3.2, 3.2),
    /* traillep_charge      */ Binning(7, -1.75, 1.75),
    /* traillep_type        */ Binning(31, -0.5, 30.5),
    /* traillep_ptconerel30 */ Binning(40, -0.1, 0.4),
    /* traillep_etconerel20 */ Binning(40, -0.1, 0.4),
    /* traillep_z0          */ Binning(40, -1.0, 1.0),
    /* traillep_d0          */ Binning(40, -1.0, 1.0),
    /* WtMass               */ Binning(40, 0.0, 200.0),
    /* invMass              */ Binning(30, 60.0, 120.0)
  ]

  /** Suffixes shared by the lepton, leading-lepton and trailing-lepton rows. */
  const LeptonSuffixes: seq<string> :=
    ["pt", "eta", "E", "phi", "charge", "type", "ptconerel30", "etconerel20", "z0", "d0"]

  /** Index of the first occurrence of `x` in `xs`. */
  function Find(xs: seq<string>, x: string): (r: Option<nat>)
    ensures r.None? <==> x !in xs
    ensures r.Some? ==> r.value < |xs| && xs[r.value] == x && x !in xs[..r.value]
  {
    if xs == [] then None
    else if xs[0] == x then Some(0)
    else match Find(xs[1..], x)
      case None => None
      case Some(i) =>
        assert xs[..i + 1] == [xs[0]] + xs[1..][..i];
        Some(i + 1)
  }

  /** In a sequence without repeats, looking up an element finds its own position. */
  lemma FindDistinct(xs: seq<string>, i: nat)
    requires i < |xs|
    requires forall p, q :: 0 <= p < q < |xs| ==> xs[p] != xs[q]
    ensures Find(xs, xs[i]) == Some(i)
  {
  }

  /** `getStandardHistogram`: the booking of the first catalog row with that
      name, or None for a name outside the catalog. */
  function GetStandardHistogram(name: string): (r: Option<Histogram>)
    ensures r.None? <==> name !in CatalogNames
    ensures r.Some? ==> r.value.name == name && r.value.nbins > 0 && r.value.lo < r.value.hi
  {
    CatalogBinningsValid();
    match Find(CatalogNames, name)
      case None => None
      case Some(i) =>
        var b := CatalogBinnings[i];
        Some(TH1D(name, RowTitle(i), b.nbins, b.lo, b.hi))
  }

  /** Every row has at least one bin and a non-empty axis range. */
  lemma CatalogBinningsValid()
    ensures |CatalogNames| == |CatalogBinnings| == 42
    ensures forall i :: 0 <= i < |CatalogBinnings| ==> ValidBinning(CatalogBinnings[i])
  {
    BinningsValidBelow21();
    BinningsValidFrom21();
  }

  predicate ValidBinning(b: Binning)
  {
    b.nbins > 0 && b.lo < b.hi
  }

  lemma BinningsValidBelow21()
    ensures forall i :: 0 <= i < 21 ==> ValidBinning(CatalogBinnings[i])
  {
  }

  lemma BinningsValidFrom21()
    ensures forall i :: 21 <= i < 42 ==> ValidBinning(CatalogBinnings[i])
  {
  }

  ghost predicate NameDistinctFrom(i: nat)
    requires i < |CatalogNames|
  {
    forall j :: i < j < |CatalogNames| ==> CatalogNames[i] != CatalogNames[j]
  }

  lemma NamesDistinctFrom0()
    ensures forall i :: 0 <= i < 1 ==> NameDistinctFrom(i)
  {
  }

  lemma NamesDistinctFrom1()
    ensures forall i :: 1 <= i < 2 ==> NameDistinctFrom(i)
  {
  }

  lemma NamesDistinctFrom2()
    ensures forall i :: 2 <= i < 4 ==> NameDistinctFrom(i)
  {
  }

  lemma NamesDistinctFrom4()
    ensures forall i :: 4 <= i < 7 ==> NameDistinctFrom(i)
  {
  }

  lemma NamesDistinctFrom7()
    ensures forall i :: 7 <= i < 11 ==> NameDistinctFrom(i)
  {
  }

  lemma NamesDistinctFrom11()
    ensures forall i :: 11 <= i < 16 ==> NameDistinctFrom(i)
  {
  }

  lemma NamesDistinctFrom16()
    ensures forall i :: 16 <= i < 22 ==> NameDistinctFrom(i)
  {
  }

  lemma NamesDistinctFrom22()
    ensures forall i :: 22 <= i < 30 ==> NameDistinctFrom(i)
  {
  }

  lemma NamesDistinctFrom30()
    ensures forall i :: 30 <= i < 42 ==> NameDistinctFrom(i)
  {
  }

  /** The 42 catalog names are pairwise distinct. */
  lemma CatalogNamesDistinct()
    ensures forall i, j :: 0 <= i < j < |CatalogNames| ==> CatalogNames[i] != CatalogNames[j]
  {
    NamesDistinctFrom0();
    NamesDistinctFrom1();
    NamesDistinctFrom2();
    NamesDistinctFrom4();
    NamesDistinctFrom7();
    NamesDistinctFrom11();
    NamesDistinctFrom16();
    NamesDistinctFrom22();
    NamesDistinctFrom30();
    forall i, j | 0 <= i < j < |CatalogNames| ensures CatalogNames[i] != CatalogNames[j] {
      assert NameDistinctFrom(i);
    }
  }

  /** Number of catalog rows. */
  const CatalogSize: nat := 42

  lemma CatalogSizes()
    ensures |CatalogNames| == CatalogSize && |CatalogBinnings| == CatalogSize
  {
    CatalogBinningsValid();
  }

  /** The name of catalog row i. */
  function CatalogName(i: nat): string
    requires i < CatalogSize
  {
    CatalogSizes();
    CatalogNames[i]
  }

  /** The histogram that catalog row i describes. */
  function CatalogEntry(i: nat): (h: Histogram)
    requires i < CatalogSize
    ensures h.nbins > 0 && h.lo < h.hi
  {
    CatalogBinningsValid();
    TH1D(CatalogNames[i], RowTitle(i), CatalogBinnings[i].nbins, CatalogBinnings[i].lo, CatalogBinnings[i].hi)
  }

  /** Every entry is a row of the catalog. */
  ghost predicate InCatalog(rows: seq<nat>)
  {
    forall i :: 0 <= i < |rows| ==> rows[i] < CatalogSize
  }

  /** The rows lo, lo + 1, .., hi - 1. */
  function Range(lo: nat, hi: nat): (r: seq<nat>)
    requires lo <= hi
    ensures |r| == hi - lo && forall i :: 0 <= i < |r| ==> r[i] == lo + i
  {
    seq(hi - lo, i requires 0 <= i < hi - lo => lo + i)
  }

  /** The catalog names of the given rows, in order. */
  function NamesOfRows(rows: seq<nat>): (r: seq<string>)
    requires InCatalog(rows)
    ensures |r| == |rows|
  {
    seq(|rows|, i requires 0 <= i < |rows| => CatalogName(rows[i]))
  }

  /** Entry i of `NamesOfRows(rows)` is the name of catalog row rows[i]. */
  lemma NamesOfRowsAt(rows: seq<nat>)
    requires InCatalog(rows)
    ensures forall i :: 0 <= i < |rows| ==> NamesOfRows(rows)[i] == CatalogEntry(rows[i]).name
  {
  }

  /** Rows drawn from a list of rows have names drawn from that list's names. */
  lemma NamesOfSubRows(rows: seq<nat>, sub: seq<nat>)
    requires InCatalog(rows) && InCatalog(sub)
    requires forall x :: x in sub ==> x in rows
    ensures forall n :: n in NamesOfRows(sub) ==> n in NamesOfRows(rows)
  {
    NamesOfRowsAt(rows);
    NamesOfRowsAt(sub);
    forall n | n in NamesOfRows(sub) ensures n in NamesOfRows(rows) {
      var i :| 0 <= i < |sub| && NamesOfRows(sub)[i] == n;
      assert sub[i] in sub;
      var j :| 0 <= j < |rows| && rows[j] == sub[i];
      assert NamesOfRows(rows)[j] == n;
    }
  }

  /** `x` is the name of no catalog row. */
  ghost predicate NotACatalogName(x: string)
  {
    forall k :: 0 <= k < |CatalogNames| ==> CatalogNames[k] != x
  }

  /** A name outside the catalog has no standard histogram and is the name of
      none of the given rows. */
  lemma OutsideCatalog(x: string, rows: seq<nat>)
    requires InCatalog(rows) && NotACatalogName(x)
    ensures GetStandardHistogram(x).None?
    ensures x !in NamesOfRows(rows)
  {
    CatalogSizes();
  }

  /** Every row is reachable: looking up its name returns exactly that row. */
  lemma EveryRowReachable(i: nat)
    requires i < CatalogSize
    ensures GetStandardHistogram(CatalogEntry(i).name) == Some(CatalogEntry(i))
  {
    CatalogSizes();
    CatalogNamesDistinct();
    FindDistinct(CatalogNames, i);
  }
  /** Binning of a booking. */
  function BinningOf(h: Histogram): Binning
  {
    Binning(h.nbins, h.lo, h.hi)
  }

  /** Histograms of integer counts. */
  const CountingNames: seq<string> :=
    ["pvxp_n", "n_jets", "lep_n", "lep_type", "leadlep_type", "traillep_type"]

  /** Starts at -0.5 with bins of width exactly 1, so every integer sits at a bin centre. */
  predicate UnitBins(b: Binning)
  {
    b.lo == -0.5 && b.hi - b.lo == b.nbins as real
  }

  /** Catalog rows of the counting histograms, in the order of CountingNames. */
  const CountingRows: seq<nat> := [1, 3, 9, 15, 25, 35]

  lemma CountingRowsLayout()
    ensures forall k :: 0 <= k < |CountingRows| ==>
      CountingRows[k] < |CatalogNames| && CatalogNames[CountingRows[k]] == CountingNames[k] &&
      UnitBins(CatalogBinnings[CountingRows[k]])
  {
  }

  /** Every counting histogram has unit bins centred on the integers. */
  lemma CountingHistogramsHaveUnitBins(k: nat)
    requires k < |CountingNames|
    ensures var h := GetStandardHistogram(CountingNames[k]);
      h.Some? && UnitBins(BinningOf(h.value))
  {
    CountingRowsLayout();
    CatalogSizes();
    EveryRowReachable(CountingRows[k]);
  }

  /** Row layout of the per-lepton group: suffix k sits at row 10 + k. */
  lemma LeptonRowNames(k: nat)
    requires k < |LeptonSuffixes|
    ensures CatalogNames[10 + k] == "lep_" + LeptonSuffixes[k]
  {
  }

  /** Row layout of the leading-lepton group: suffix k sits at row 20 + k. */
  lemma LeadingLeptonRowNames(k: nat)
    requires k < |LeptonSuffixes|
    ensures CatalogNames[20 + k] == "leadlep_" + LeptonSuffixes[k]
  {
  }

  /** Row layout of the trailing-lepton group: suffix k sits at row 30 + k. */
  lemma TrailingLeptonRowNames(k: nat)
    requires k < |LeptonSuffixes|
    ensures CatalogNames[30 + k] == "traillep_" + LeptonSuffixes[k]
  {
  }

  /** Each leading- and trailing-lepton histogram is binned like the lepton
      histogram with the same suffix. */
  lemma LeadAndTrailBinnedLikeLepton(k: nat)
    requires k < |LeptonSuffixes|
    ensures var lep := GetStandardHistogram(CatalogNames[10 + k]);
      var lead := GetStandardHistogram(CatalogNames[20 + k]);
      var trail := GetStandardHistogram(CatalogNames[30 + k]);
      lep.Some? && lead.Some? && trail.Some? &&
      BinningOf(lead.value) == BinningOf(lep.value) &&
      BinningOf(trail.value) == BinningOf(lep.value)
  {
    LeptonGroupBinnings();
    CatalogSizes();
    EveryRowReachable(10 + k);
    EveryRowReachable(20 + k);
    EveryRowReachable(30 + k);
  }

  lemma LeptonGroupBinnings()
    ensures forall i :: 10 <= i < 20 ==>
      CatalogBinnings[i + 10] == CatalogBinnings[i] &&
      CatalogBinnings[i + 20] == CatalogBinnings[i]
  {
  }
}
