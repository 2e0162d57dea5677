/**
 * Standard object selections, the select-then-sort utility and the standard
 * event cuts shared by the analyses.
 */
module AnalysisHelpers {
  import opened Wrappers
  import opened TupleReader

  // ---------------------------------------------------------------------------
  // Object selection

  /** An electron (|pdgId| 11) or a muon (|pdgId| 13) passing its selection. */
  predicate IsGoodLepton(l: Lepton, s: Store)
    requires l.Readable(s)
  {
    (Abs(l.PdgId(s)) == 11 && IsGoodElectron(l, s)) ||
    (Abs(l.PdgId(s)) == 13 && IsGoodMuon(l, s))
  }

  /** Tight, pt above 25 GeV, both relative isolations below 0.15.  The pt test
      comes first, so the isolations are only evaluated for a non-zero stored pt. */
  predicate IsGoodElectron(l: Lepton, s: Store)
    requires l.Readable(s)
  {
    l.IsTight(s) && l.Pt(s) > 25.0 &&
    l.IsoEtConeRel20(s) < 0.15 && l.IsoPtConeRel30(s) < 0.15
  }

  /** Same cuts as the electron selection. */
  predicate IsGoodMuon(l: Lepton, s: Store)
    requires l.Readable(s)
  {
    l.IsTight(s) && l.Pt(s) > 25.0 &&
    l.IsoEtConeRel20(s) < 0.15 && l.IsoPtConeRel30(s) < 0.15
  }

  /** The jet selection as written: `abs` is applied to the boolean outcome of
      each eta comparison, so the eta tests are one-sided. */
  predicate IsGoodJet(j: Jet, s: Store)
    requires j.Readable(s)
  {
    !(j.Pt(s) < 25.0) &&
    !(j.Eta(s) > 2.5) &&
    !(j.Pt(s) < 50.0 && j.Eta(s) < 2.4 && j.Jvf(s) < 0.5)
  }

  /** A good lepton is tight, has pt > 25 and a known flavour; electrons and muons
      face the same cuts. */
  lemma GoodLeptonCuts(l: Lepton, s: Store)
    requires l.Readable(s)
    ensures IsGoodElectron(l, s) == IsGoodMuon(l, s)
    ensures IsGoodLepton(l, s) <==>
      (Abs(l.PdgId(s)) == 11 || Abs(l.PdgId(s)) == 13) &&
      l.IsTight(s) && l.Pt(s) > 25.0 && l.IsoEtConeRel20(s) < 0.15 && l.IsoPtConeRel30(s) < 0.15
  {
  }

  /** The jet cuts as thresholds: a good jet has pt of at least 25 GeV and eta
      at most 2.5, and a jet below 50 GeV with eta below 2.4 needs a JVF of at
      least 0.5; pt = 25 passes, and a very forward jet at negative eta is not
      rejected by the eta test. */
  lemma GoodJetCuts(j: Jet, s: Store)
    requires j.Readable(s)
    ensures IsGoodJet(j, s) <==>
      j.Pt(s) >= 25.0 && j.Eta(s) <= 2.5 && (j.Pt(s) >= 50.0 || j.Eta(s) >= 2.4 || j.Jvf(s) >= 0.5)
    ensures IsGoodJet(j, s) ==> j.Pt(s) >= 25.0 && j.Eta(s) <= 2.5
    ensures j.Pt(s) >= 50.0 && j.Eta(s) <= 2.5 ==> IsGoodJet(j, s)
    ensures j.Pt(s) >= 25.0 && j.Eta(s) < 2.4 && j.Jvf(s) >= 0.5 ==> IsGoodJet(j, s)
  {
  }

  // ---------------------------------------------------------------------------
  // Select and sort

  /** The elements of `xs` that `keep` accepts, in their original order. */
  function Filter<T>(xs: seq<T>, keep: T --> bool): (r: seq<T>)
    requires forall x :: x in xs ==> keep.requires(x)
    ensures |r| <= |xs|
    ensures forall x :: x in r ==> x in xs && keep(x)
  {
    if xs == [] then []
    else if keep(xs[0]) then [xs[0]] + Filter(xs[1..], keep)
    else Filter(xs[1..], keep)
  }

  /** Filtering drops exactly the rejected elements: each accepted element keeps
      its multiplicity, each rejected one disappears. */
  lemma {:induction false} FilterCounts<T>(xs: seq<T>, keep: T --> bool, x: T)
    requires forall y :: y in xs ==> keep.requires(y)
    ensures x in xs && keep(x) ==> multiset(Filter(xs, keep))[x] == multiset(xs)[x]
    ensures x !in xs || !keep(x) ==> multiset(Filter(xs, keep))[x] == 0
  {
    if xs != [] {
      assert xs == [xs[0]] + xs[1..];
      FilterCounts(xs[1..], keep, x);
      if x !in xs[1..] && x in Filter(xs[1..], keep) {
        assert false;
      }
    }
  }

  /** Non-increasing in the key. */
  ghost predicate SortedDown<T>(xs: seq<T>, key: T --> real)
    requires forall x :: x in xs ==> key.requires(x)
  {
    forall i, j :: 0 <= i < j < |xs| ==> key(xs[i]) >= key(xs[j])
  }

  /** Places `x` in front of the first element whose key does not exceed its own. */
  function Insert<T>(x: T, ys: seq<T>, key: T --> real): (r: seq<T>)
    requires key.requires(x) && forall y :: y in ys ==> key.requires(y)
    ensures |r| == |ys| + 1
    ensures forall z :: z in r ==> z == x || z in ys
  {
    if ys == [] || key(ys[0]) <= key(x) then [x] + ys
    else [ys[0]] + Insert(x, ys[1..], key)
  }

  lemma {:induction false} InsertPermutes<T>(x: T, ys: seq<T>, key: T --> real)
    requires key.requires(x) && forall y :: y in ys ==> key.requires(y)
    ensures multiset(Insert(x, ys, key)) == multiset(ys) + multiset{x}
  {
    if ys != [] && key(ys[0]) > key(x) {
      InsertPermutes(x, ys[1..], key);
      assert ys == [ys[0]] + ys[1..];
    }
  }

  lemma {:induction false} InsertSorted<T>(x: T, ys: seq<T>, key: T --> real)
    requires key.requires(x) && forall y :: y in ys ==> key.requires(y)
    requires SortedDown(ys, key)
    ensures SortedDown(Insert(x, ys, key), key)
  {
    if ys != [] && key(ys[0]) > key(x) {
      var tail := ys[1..];
      assert SortedDown(tail, key);
      InsertSorted(x, tail, key);
      var r := Insert(x, tail, key);
      forall z | z in r ensures key(ys[0]) >= key(z) {
        if z != x {
          var j :| 0 <= j < |tail| && tail[j] == z;
          assert ys[j + 1] == z;
        }
      }
      assert forall j :: 0 < j < |[ys[0]] + r| ==> ([ys[0]] + r)[j] in r;
    }
  }

  /** Python's `sorted(xs, key=key, reverse=True)`: a stable descending sort. */
  function SortDown<T>(xs: seq<T>, key: T --> real): (r: seq<T>)
    requires forall x :: x in xs ==> key.requires(x)
    ensures |r| == |xs|
    ensures forall z :: z in r ==> z in xs
  {
    if xs == [] then []
    else Insert(xs[0], SortDown(xs[1..], key), key)
  }

  /** The sort returns a non-increasing permutation of its input. */
  lemma {:induction false} SortDownCorrect<T>(xs: seq<T>, key: T --> real)
    requires forall x :: x in xs ==> key.requires(x)
    ensures multiset(SortDown(xs, key)) == multiset(xs)
    ensures SortedDown(SortDown(xs, key), key)
  {
    if xs != [] {
      SortDownCorrect(xs[1..], key);
      InsertPermutes(xs[0], SortDown(xs[1..], key), key);
      InsertSorted(xs[0], SortDown(xs[1..], key), key);
      assert xs == [xs[0]] + xs[1..];
    }
  }

  /** The elements of `xs` whose key is `k`, in order. */
  function KeyClass<T>(xs: seq<T>, key: T --> real, k: real): seq<T>
    requires forall x :: x in xs ==> key.requires(x)
  {
    if xs == [] then []
    else if key(xs[0]) == k then [xs[0]] + KeyClass(xs[1..], key, k)
    else KeyClass(xs[1..], key, k)
  }

  /** Inserting `x` puts it in front of every element with the same key. */
  lemma {:induction false} InsertKeyClass<T>(x: T, ys: seq<T>, key: T --> real, k: real)
    requires key.requires(x) && forall y :: y in ys ==> key.requires(y)
    ensures KeyClass(Insert(x, ys, key), key, k) ==
      (if key(x) == k then [x] else []) + KeyClass(ys, key, k)
  {
    var r := Insert(x, ys, key);
    if ys == [] || key(ys[0]) <= key(x) {
      assert r == [x] + ys && r[1..] == ys;
    } else {
      var tail := ys[1..];
      InsertKeyClass(x, tail, key, k);
      assert r == [ys[0]] + Insert(x, tail, key) && r[1..] == Insert(x, tail, key);
      if key(ys[0]) == k {
        assert key(x) != k;
      }
    }
  }

  /** The sort is stable: elements with equal keys keep their input order. */
  lemma {:induction false} SortDownStable<T>(xs: seq<T>, key: T --> real, k: real)
    requires forall x :: x in xs ==> key.requires(x)
    ensures KeyClass(SortDown(xs, key), key, k) == KeyClass(xs, key, k)
  {
    if xs != [] {
      SortDownStable(xs[1..], key, k);
      InsertKeyClass(xs[0], SortDown(xs[1..], key), key, k);
    }
  }

  /** Sorting an already sorted sequence changes nothing. */
  lemma {:induction false} SortDownSorted<T>(xs: seq<T>, key: T --> real)
    requires forall x :: x in xs ==> key.requires(x)
    requires SortedDown(xs, key)
    ensures SortDown(xs, key) == xs
  {
    if xs != [] {
      assert SortedDown(xs[1..], key);
      SortDownSorted(xs[1..], key);
      assert xs == [xs[0]] + xs[1..];
    }
  }

  /** Filtering with a predicate every element already satisfies changes nothing. */
  lemma {:induction false} FilterAllKept<T>(xs: seq<T>, keep: T --> bool)
    requires forall x :: x in xs ==> keep.requires(x) && keep(x)
    ensures Filter(xs, keep) == xs
  {
    if xs != [] {
      FilterAllKept(xs[1..], keep);
      assert xs == [xs[0]] + xs[1..];
    }
  }

  /** `selectAndSortContainer`: keep the accepted elements, then sort them
      stably by descending key: exactly the accepted elements, non-increasing. */
  function SelectAndSortContainer<T>(container: seq<T>, keep: T --> bool, key: T --> real): (r: seq<T>)
    requires forall x :: x in container ==> keep.requires(x) && key.requires(x)
    ensures forall x :: x in r ==> x in container && keep(x)
    ensures forall x :: x in container && keep(x) ==> x in r
    ensures SortedDown(r, key)
  {
    var selected := Filter(container, keep);
    SortDownCorrect(selected, key);
    var sorted := SortDown(selected, key);
    forall x | x in container && keep(x) ensures x in sorted {
      FilterCounts(container, keep, x);
      assert multiset(sorted)[x] == multiset(selected)[x] > 0;
    }
    sorted
  }

  /** The result is a permutation of the accepted elements, each with the
      multiplicity it has in the container. */
  lemma SelectAndSortPermutes<T>(container: seq<T>, keep: T --> bool, key: T --> real)
    requires forall x :: x in container ==> keep.requires(x) && key.requires(x)
    ensures var r := SelectAndSortContainer(container, keep, key);
      multiset(r) == multiset(Filter(container, keep)) &&
      forall x :: x in container && keep(x) ==> multiset(r)[x] == multiset(container)[x]
  {
    var selected := Filter(container, keep);
    SortDownCorrect(selected, key);
    forall x | x in container && keep(x)
      ensures multiset(selected)[x] == multiset(container)[x]
    {
      FilterCounts(container, keep, x);
    }
  }

  /** An element of a sequence without repeats occurs in it at most once. */
  lemma {:induction false} DistinctCount<T>(p: seq<T>, x: T)
    requires Distinct(p)
    ensures multiset(p)[x] <= 1
  {
    if p != [] {
      var rest := p[1..];
      assert p == [p[0]] + rest;
      assert Distinct(rest) by {
        forall a, b | 0 <= a < b < |rest| ensures rest[a] != rest[b] {
          assert rest[a] == p[a + 1] && rest[b] == p[b + 1];
        }
      }
      DistinctCount(rest, x);
      if p[0] == x {
        assert x !in rest by {
          forall b | 0 <= b < |rest| ensures rest[b] != x {
            assert rest[b] == p[b + 1];
          }
        }
      }
    }
  }

  /** An element at two positions occurs at least twice. */
  lemma RepeatCount<T>(p: seq<T>, a: nat, b: nat)
    requires a < b < |p| && p[a] == p[b]
    ensures multiset(p)[p[a]] >= 2
  {
    assert p == p[..b] + [p[b]] + p[b + 1..];
    assert p[..b][a] == p[a];
  }

  /** The good objects of a container without repeats have no repeats. */
  lemma SelectedDistinct<T>(container: seq<T>, keep: T --> bool, key: T --> real)
    requires forall x :: x in container ==> keep.requires(x) && key.requires(x)
    requires Distinct(container)
    ensures Distinct(SelectAndSortContainer(container, keep, key))
  {
    var r := SelectAndSortContainer(container, keep, key);
    SelectAndSortPermutes(container, keep, key);
    forall a, b | 0 <= a < b < |r| ensures r[a] != r[b] {
      if r[a] == r[b] {
        RepeatCount(r, a, b);
        DistinctCount(container, r[a]);
      }
    }
  }

  /** The leptons of a row are distinct slot views. */
  lemma LeptonsDistinct(s: Store)
    requires s.Loaded()
    ensures Distinct(GetLeptons(s))
  {
  }

  /** Equal-key elements come out in the order they had in the container. */
  lemma SelectAndSortStable<T>(container: seq<T>, keep: T --> bool, key: T --> real, k: real)
    requires forall x :: x in container ==> keep.requires(x) && key.requires(x)
    ensures KeyClass(SelectAndSortContainer(container, keep, key), key, k) ==
      KeyClass(Filter(container, keep), key, k)
  {
    SortDownStable(Filter(container, keep), key, k);
  }

  /** Applying the utility to its own output with the same predicate and key
      returns that output unchanged. */
  lemma SelectAndSortIdempotent<T>(container: seq<T>, keep: T --> bool, key: T --> real)
    requires forall x :: x in container ==> keep.requires(x) && key.requires(x)
    ensures var once := SelectAndSortContainer(container, keep, key);
      SelectAndSortContainer(once, keep, key) == once
  {
    var once := SelectAndSortContainer(container, keep, key);
    FilterAllKept(once, keep);
    SortDownSorted(once, key);
  }

  // ---------------------------------------------------------------------------
  // Selections used by the analyses

  /** The row's good leptons (standard selection), highest pt first. */
  function GoodLeptons(s: Store): (r: seq<Lepton>)
    requires s.Loaded()
    ensures forall l :: l in r ==> l in GetLeptons(s) && IsGoodLepton(l, s)
    ensures forall l :: l in GetLeptons(s) && IsGoodLepton(l, s) ==> l in r
    ensures forall i, j :: 0 <= i < j < |r| ==> r[i].Pt(s) >= r[j].Pt(s)
    ensures Distinct(r)
  {
    var keep := (l: Lepton) requires l.Readable(s) => IsGoodLepton(l, s);
    var key := (l: Lepton) requires l.Readable(s) => l.Pt(s);
    LeptonsDistinct(s);
    SelectedDistinct(GetLeptons(s), keep, key);
    SelectAndSortContainer(GetLeptons(s), keep, key)
  }

  /** The row's good jets, highest pt first. */
  function GoodJets(s: Store): (r: seq<Jet>)
    requires s.Loaded()
    ensures forall j :: j in r ==> j in GetJets(s) && IsGoodJet(j, s)
    ensures forall j :: j in GetJets(s) && IsGoodJet(j, s) ==> j in r
    ensures forall i, j :: 0 <= i < j < |r| ==> r[i].Pt(s) >= r[j].Pt(s)
  {
    SelectAndSortContainer(GetJets(s),
      (j: Jet) requires j.Readable(s) => IsGoodJet(j, s),
      (j: Jet) requires j.Readable(s) => j.Pt(s))
  }

  // ---------------------------------------------------------------------------
  // Event selection

  /** Triggered by an electron or a muon, in the good-run list, with a good
      vertex: decided by four flags of the loaded row. */
  predicate StandardEventCuts(s: Store)
    requires s.Loaded()
    ensures StandardEventCuts(s) <==>
      (s.Current().trigE || s.Current().trigM) && s.Current().passGRL && s.Current().hasGoodVertex
  {
    var info := GetEventInfo(s);
    (info.TriggeredByElectron(s) || info.TriggeredByMuon(s)) &&
    info.PassGRL(s) && info.HasGoodVertex(s)
  }

  /** The event cuts read no object: whatever the leptons and jets of the
      loaded row, the verdict is the same. */
  lemma StandardEventCutsIgnoreObjects(s: Store, leptons: seq<LeptonRecord>, jets: seq<JetRecord>)
    requires s.Loaded()
    ensures var t := s.(tree := s.tree[s.Row() := s.Current().(leptons := leptons, jets := jets)]);
      t.Loaded() && StandardEventCuts(t) == StandardEventCuts(s)
  {
  }

  // ---------------------------------------------------------------------------
  // Four-vector quantities

  /** The quantities the analyses take from ROOT four-vectors, as functions of
      the loaded row and the leptons involved.  They are left unmodelled: the
      model holds for any choice of these functions. */
  datatype FourVectors = FourVectors(
    /** Invariant mass of the sum of two leptons' four-vectors. */
    pairMass: (Store, Lepton, Lepton) -> real,
    /** Transverse momentum of the sum of two leptons' four-vectors. */
    pairPt: (Store, Lepton, Lepton) -> real,
    /** Azimuthal angle from the dilepton system to the missing momentum. */
    pairMetDeltaPhi: (Store, Lepton, Lepton) -> real,
    /** Azimuthal angle from one lepton to another. */
    deltaPhi: (Store, Lepton, Lepton) -> real,
    /** `WTransverseMass` of a lepton and the missing momentum. */
    transverseMass: (Store, Lepton) -> real)

  /** Python's `abs` on a float. */
  function AbsReal(x: real): (r: real)
    ensures r >= 0.0 && (r == x || r == -x)
  {
    if x < 0.0 then -x else x
  }
}
