/**
 * The event store ("TupleReader", called Store by the analyses).
 *
 * The input tuple is a table with one row per event.  A row holds the scalar
 * branches of the event and, for leptons and jets, one record per object with
 * that object's per-object branches; the object count branches (lep_n,
 * alljet_n) are the lengths of those record lists.  The store keeps the whole
 * table plus a cursor naming the row currently loaded into the read buffers.
 * Object views are slot indices into those buffers.
 */
module TupleReader {
  import opened Wrappers

  /** The per-collection slot capacity is clamped to this many slots. */
  const MaxSlots: nat := 20
  /** Native energies and momenta are in MeV; views report GeV. */
  const GeV: real := 0.001

  /** The per-lepton branches of one lepton of a row. */
  datatype LeptonRecord = LeptonRecord(
    pt: real, eta: real, phi: real, e: real, pdgId: int, charge: real,
    ptCone30: real, etCone20: real, d0: real, d0Sig: real, trigMatched: bool,
    z0: real, flag: int)

  /** The per-jet branches of one jet of a row. */
  datatype JetRecord = JetRecord(
    pt: real, eta: real, e: real, phi: real, m: real, jvf: real, mv1: real)

  /** One row of the tuple. */
  datatype Event = Event(
    eventNumber: int, runNumber: int, mcWeight: real,
    passGRL: bool, hasGoodVertex: bool, trigE: bool, trigM: bool,
    sfPileup: real, sfEle: real, sfMuon: real, sfBTag: real,
    sfTrigger: real, sfJVF: real, sfZVertex: real,
    vxpZ: real, pvxpN: int,
    leptons: seq<LeptonRecord>, jets: seq<JetRecord>,
    metEt: real, metPhi: real)

  /** The rows of the tuple, in entry order. */
  type Tree = seq<Event>

  /** Number of rows (entries) of the table. */
  function Rows(t: Tree): nat { |t| }

  function Abs(x: int): nat { if x < 0 then -x else x }

  /** Slot capacity of a collection from the pre-scan maximum of its count branch. */
  function SlotCapacity(maximum: int): (cap: nat)
    ensures cap <= MaxSlots && cap <= Abs(maximum)
    ensures cap == MaxSlots || cap == Abs(maximum)
  {
    if Abs(maximum) < MaxSlots then Abs(maximum) else MaxSlots
  }

  /** Lepton slot views: at most `MaxSlots` of them, slot i viewing index i. */
  type LeptonSlots = ls: seq<Lepton> | |ls| <= MaxSlots && forall i :: 0 <= i < |ls| ==> ls[i].idNr == i
    witness []

  /** Jet slot views: at most `MaxSlots` of them, slot i viewing index i. */
  type JetSlots = js: seq<Jet> | |js| <= MaxSlots && forall i :: 0 <= i < |js| ==> js[i].idNr == i
    witness []

  /** The store: the table, the row loaded in the buffers (None before the first
      load) and the lepton and jet slot views built at initialisation. */
  datatype Store = Store(tree: Tree, entry: Option<nat>, leptons: LeptonSlots, jets: JetSlots)
  {
    /** The cursor, once set, names a row of the table. */
    ghost predicate Valid()
    {
      entry.Some? ==> entry.value < Rows(tree)
    }

    /** A row has been read into the buffers. */
    ghost predicate Loaded()
    {
      entry.Some? && entry.value < Rows(tree)
    }

    function Row(): nat
      requires Loaded()
    {
      entry.value
    }

    /** The loaded row. */
    function Current(): Event
      requires Loaded()
    {
      tree[entry.value]
    }

    /** The loaded row's lep_n. */
    function LeptonCount(): nat
      requires Loaded()
    {
      |Current().leptons|
    }

    /** The loaded row's alljet_n. */
    function JetCount(): nat
      requires Loaded()
    {
      |Current().jets|
    }
  }

  function Min(a: nat, b: nat): nat { if a < b then a else b }

  /** `[Lepton(i) for i in range(0, n)]`. */
  function LeptonViews(n: nat): (r: LeptonSlots)
    requires n <= MaxSlots
    ensures |r| == n
  {
    seq(n, i requires 0 <= i < n => Lepton(i))
  }

  /** `[Jet(i) for i in range(0, n)]`. */
  function JetViews(n: nat): (r: JetSlots)
    requires n <= MaxSlots
    ensures |r| == n
  {
    seq(n, i requires 0 <= i < n => Jet(i))
  }

  /** Builds the store over `tree`.  The two maxima are the pre-scan maxima of
      the lepton and jet count branches, which size the slot buffers. */
  method InitializeTuple(tree: Tree, lepMaximum: int, jetMaximum: int) returns (s: Store)
    ensures s.Valid() && s.tree == tree && s.entry == None
    ensures |s.leptons| == SlotCapacity(lepMaximum) && |s.jets| == SlotCapacity(jetMaximum)
    ensures s.leptons == LeptonViews(SlotCapacity(lepMaximum)) && s.jets == JetViews(SlotCapacity(jetMaximum))
  {
    var maxLep := SlotCapacity(lepMaximum);
    var leptons: seq<Lepton> := [];
    for i := 0 to maxLep
      invariant |leptons| == i
      invariant forall k :: 0 <= k < i ==> leptons[k].idNr == k
    {
      leptons := leptons + [Lepton(i)];
    }
    var maxJet := SlotCapacity(jetMaximum);
    var jets: seq<Jet> := [];
    for i := 0 to maxJet
      invariant |jets| == i
      invariant forall k :: 0 <= k < i ==> jets[k].idNr == k
    {
      jets := jets + [Jet(i)];
    }
    s := Store(tree, None, leptons, jets);
  }

  /** The leptons of the loaded row: a prefix of the slot views cut to the row's count. */
  function GetLeptons(s: Store): (r: seq<Lepton>)
    requires s.Loaded()
    ensures |r| == Min(s.LeptonCount(), |s.leptons|)
    ensures r == s.leptons[..|r|]
    ensures forall i :: 0 <= i < |r| ==> r[i].idNr == i && r[i].Readable(s)
    ensures forall l :: l in r ==> l.Readable(s)
  {
    s.leptons[..Min(s.LeptonCount(), |s.leptons|)]
  }

  /** The jets of the loaded row: a prefix of the slot views cut to the row's count. */
  function GetJets(s: Store): (r: seq<Jet>)
    requires s.Loaded()
    ensures |r| == Min(s.JetCount(), |s.jets|)
    ensures r == s.jets[..|r|]
    ensures forall i :: 0 <= i < |r| ==> r[i].idNr == i && r[i].Readable(s)
    ensures forall j :: j in r ==> j.Readable(s)
  {
    s.jets[..Min(s.JetCount(), |s.jets|)]
  }

  function GetEventInfo(s: Store): EventInfo { EventInfo }

  function GetEtMiss(s: Store): EtMiss { EtMiss }

  /** Bit 512 of a flag word, as Python's `flag & 512` reads it (two's complement). */
  predicate HasTightBit(flag: int)
  {
    (flag / 512) % 2 == 1
  }

  /** The tight bit is exactly bit 9 of the word, whatever the other bits are. */
  lemma TightIffBitNine(high: int, bit: int, low: int)
    requires 0 <= bit <= 1 && 0 <= low < 512
    ensures HasTightBit(high * 1024 + bit * 512 + low) <==> bit == 1
  {
    var flag := high * 1024 + bit * 512 + low;
    assert flag == (high * 2 + bit) * 512 + low;
    assert flag / 512 == high * 2 + bit;
    assert (high * 2 + bit) % 2 == bit;
  }

  /** View of lepton slot `idNr` of the loaded row. */
  datatype Lepton = Lepton(idNr: nat)
  {
    ghost predicate Readable(s: Store)
    {
      s.Loaded() && idNr < s.LeptonCount()
    }

    /** What the buffers hold in this slot. */
    function Slot(s: Store): LeptonRecord
      requires Readable(s)
    {
      s.Current().leptons[idNr]
    }

    function Pt(s: Store): (r: real)
      requires Readable(s)
      ensures r * 1000.0 == Slot(s).pt
    {
      Slot(s).pt * GeV
    }

    function Eta(s: Store): real requires Readable(s) { Slot(s).eta }

    function Phi(s: Store): real requires Readable(s) { Slot(s).phi }

    function E(s: Store): (r: real)
      requires Readable(s)
      ensures r * 1000.0 == Slot(s).e
    {
      Slot(s).e * GeV
    }

    predicate IsTight(s: Store) requires Readable(s) { HasTightBit(Slot(s).flag) }

    function PdgId(s: Store): int requires Readable(s) { Slot(s).pdgId }

    function Charge(s: Store): real requires Readable(s) { Slot(s).charge }

    function IsoPtCone30(s: Store): real requires Readable(s) { Slot(s).ptCone30 }

    function IsoEtCone20(s: Store): real requires Readable(s) { Slot(s).etCone20 }

    /** Raw cone value over the unconverted stored pt; a zero pt makes Python raise. */
    function IsoPtConeRel30(s: Store): (r: real)
      requires Readable(s) && Slot(s).pt != 0.0
      ensures r * Slot(s).pt == IsoPtCone30(s)
    {
      Slot(s).ptCone30 / Slot(s).pt
    }

    /** Raw cone value over the unconverted stored pt; a zero pt makes Python raise. */
    function IsoEtConeRel20(s: Store): (r: real)
      requires Readable(s) && Slot(s).pt != 0.0
      ensures r * Slot(s).pt == IsoEtCone20(s)
    {
      Slot(s).etCone20 / Slot(s).pt
    }

    function D0(s: Store): real requires Readable(s) { Slot(s).d0 }

    function D0Significance(s: Store): real requires Readable(s) { Slot(s).d0Sig }

    predicate IsTriggerMatched(s: Store) requires Readable(s) { Slot(s).trigMatched }

    function Z0(s: Store): real requires Readable(s) { Slot(s).z0 }
  }

  /** View of jet slot `idNr` of the loaded row. */
  datatype Jet = Jet(idNr: nat)
  {
    ghost predicate Readable(s: Store)
    {
      s.Loaded() && idNr < s.JetCount()
    }

    /** What the buffers hold in this slot. */
    function Slot(s: Store): JetRecord
      requires Readable(s)
    {
      s.Current().jets[idNr]
    }

    function Pt(s: Store): (r: real)
      requires Readable(s)
      ensures r * 1000.0 == Slot(s).pt
    {
      Slot(s).pt * GeV
    }

    function Eta(s: Store): real requires Readable(s) { Slot(s).eta }

    function Phi(s: Store): real requires Readable(s) { Slot(s).phi }

    function E(s: Store): (r: real)
      requires Readable(s)
      ensures r * 1000.0 == Slot(s).e
    {
      Slot(s).e * GeV
    }

    function M(s: Store): real requires Readable(s) { Slot(s).m }

    function MV1(s: Store): real requires Readable(s) { Slot(s).mv1 }

    function Jvf(s: Store): real requires Readable(s) { Slot(s).jvf }
  }

  /** Missing transverse momentum of the loaded row. */
  datatype EtMiss = EtMiss
  {
    function Et(s: Store): (r: real)
      requires s.Loaded()
      ensures r * 1000.0 == s.Current().metEt
    {
      s.Current().metEt * GeV
    }

    function Phi(s: Store): real requires s.Loaded() { s.Current().metPhi }
  }

  /** Event-level information of the loaded row. */
  datatype EventInfo = EventInfo
  {
    function EventNumber(s: Store): int requires s.Loaded() { s.Current().eventNumber }

    function RunNumber(s: Store): int requires s.Loaded() { s.Current().runNumber }

    function EventWeight(s: Store): real
      requires s.Loaded()
    {
      s.Current().mcWeight * s.Current().sfPileup * s.Current().sfZVertex
    }

    function ScaleFactor(s: Store): real
      requires s.Loaded()
    {
      s.Current().sfEle * s.Current().sfMuon * s.Current().sfTrigger
    }

    predicate PassGRL(s: Store) requires s.Loaded() { s.Current().passGRL }

    function McWeight(s: Store): real requires s.Loaded() { s.Current().mcWeight }

    predicate HasGoodVertex(s: Store) requires s.Loaded() { s.Current().hasGoodVertex }

    function NumberOfVertices(s: Store): int requires s.Loaded() { s.Current().pvxpN }

    function PrimaryVertexPosition(s: Store): real requires s.Loaded() { s.Current().vxpZ }

    predicate TriggeredByElectron(s: Store) requires s.Loaded() { s.Current().trigE }

    predicate TriggeredByMuon(s: Store) requires s.Loaded() { s.Current().trigM }
  }

  /** A lepton view reads its own slot of the loaded row and nothing else:
      two stores whose loaded rows agree on that slot give the same values. */
  lemma LeptonViewReadsOnlyItsSlot(s: Store, t: Store, l: Lepton)
    requires l.Readable(s) && l.Readable(t) && l.Slot(s) == l.Slot(t)
    ensures l.Pt(s) == l.Pt(t) && l.Eta(s) == l.Eta(t) && l.Phi(s) == l.Phi(t) && l.E(s) == l.E(t)
    ensures l.IsTight(s) == l.IsTight(t) && l.PdgId(s) == l.PdgId(t) && l.Charge(s) == l.Charge(t)
    ensures l.IsoPtCone30(s) == l.IsoPtCone30(t) && l.IsoEtCone20(s) == l.IsoEtCone20(t)
    ensures l.D0(s) == l.D0(t) && l.D0Significance(s) == l.D0Significance(t)
    ensures l.IsTriggerMatched(s) == l.IsTriggerMatched(t) && l.Z0(s) == l.Z0(t)
    ensures l.Slot(s).pt != 0.0 ==>
      l.IsoPtConeRel30(s) == l.IsoPtConeRel30(t) && l.IsoEtConeRel20(s) == l.IsoEtConeRel20(t)
  {
  }

  /** A jet view reads its own slot of the loaded row and nothing else. */
  lemma JetViewReadsOnlyItsSlot(s: Store, t: Store, j: Jet)
    requires j.Readable(s) && j.Readable(t) && j.Slot(s) == j.Slot(t)
    ensures j.Pt(s) == j.Pt(t) && j.Eta(s) == j.Eta(t) && j.Phi(s) == j.Phi(t) && j.E(s) == j.E(t)
    ensures j.M(s) == j.M(t) && j.MV1(s) == j.MV1(t) && j.Jvf(s) == j.Jvf(t)
  {
  }

  /** The b-tagging and JVF scale factors are read but enter neither weight. */
  lemma WeightsIgnoreBTagAndJVF(s: Store, sfBTag: real, sfJVF: real)
    requires s.Loaded()
    ensures var t := s.(tree := s.tree[s.Row() := s.Current().(sfBTag := sfBTag, sfJVF := sfJVF)]);
      t.Loaded() &&
      GetEventInfo(t).EventWeight(t) == GetEventInfo(s).EventWeight(s) &&
      GetEventInfo(t).ScaleFactor(t) == GetEventInfo(s).ScaleFactor(s)
  {
  }
}
