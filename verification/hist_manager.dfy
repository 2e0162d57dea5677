/**
 * The histogram registry of an analysis: a map from histogram name to
 * histogram.  A name is registered at most once; the first registration wins.
 */
module HistManager {
  import opened Wrappers
  import opened StandardHistograms

  /** The registry after `addHistogram(name, h)`: a new name gains the entry,
      an existing name keeps the histogram it already had. */
  function Register(m: map<string, Histogram>, name: string, h: Histogram): (r: map<string, Histogram>)
    ensures r.Keys == m.Keys + {name}
    ensures forall k :: k in m ==> r[k] == m[k]
    ensures name !in m ==> r[name] == h
  {
    if name in m then m else m[name := h]
  }

  /** The registry after `addStandardHistogram(name)`: unchanged for a name
      outside the catalog, otherwise `Register` with the catalog entry. */
  function RegisterStandard(m: map<string, Histogram>, name: string): (r: map<string, Histogram>)
    ensures GetStandardHistogram(name).None? ==> r == m
    ensures GetStandardHistogram(name).Some? ==> r == Register(m, name, GetStandardHistogram(name).value)
  {
    match GetStandardHistogram(name)
    case None => m
    case Some(h) => Register(m, name, h)
  }

  /** The registry after `addStandardHistogram` for each of `names` in turn. */
  function RegisterAllStandard(m: map<string, Histogram>, names: seq<string>): map<string, Histogram>
  {
    if names == [] then m
    else RegisterStandard(RegisterAllStandard(m, names[..|names| - 1]), names[|names| - 1])
  }

  /** `Register` for each (name, histogram) pair in turn. */
  function RegisterAll(m: map<string, Histogram>, entries: seq<(string, Histogram)>): map<string, Histogram>
  {
    if entries == [] then m
    else Register(RegisterAll(m, entries[..|entries| - 1]), entries[|entries| - 1].0, entries[|entries| - 1].1)
  }

  /** The names of a list of entries. */
  function Names(entries: seq<(string, Histogram)>): (r: set<string>)
    ensures forall i :: 0 <= i < |entries| ==> entries[i].0 in r
  {
    if entries == [] then {}
    else Names(entries[..|entries| - 1]) + {entries[|entries| - 1].0}
  }

  /** A name different from every entry's name is not among the names. */
  lemma {:induction false} NotInNames(entries: seq<(string, Histogram)>, name: string)
    requires forall i :: 0 <= i < |entries| ==> entries[i].0 != name
    ensures name !in Names(entries)
  {
    if entries != [] {
      NotInNames(entries[..|entries| - 1], name);
    }
  }

  /** Every name among the names is some entry's name. */
  lemma {:induction false} NamesMember(entries: seq<(string, Histogram)>, name: string)
    requires name in Names(entries)
    ensures exists i :: 0 <= i < |entries| && entries[i].0 == name
  {
    var n := |entries| - 1;
    if name != entries[n].0 {
      NamesMember(entries[..n], name);
      var i :| 0 <= i < n && entries[..n][i].0 == name;
      assert entries[i].0 == name;
    }
  }

  /** Registering distinct names, none of them present yet, adds exactly those
      names with their histograms and keeps every existing entry. */
  lemma {:induction false} RegisterAllFresh(m: map<string, Histogram>, entries: seq<(string, Histogram)>)
    requires forall i :: 0 <= i < |entries| ==> entries[i].0 !in m
    requires forall i, j :: 0 <= i < j < |entries| ==> entries[i].0 != entries[j].0
    ensures var r := RegisterAll(m, entries);
      r.Keys == m.Keys + Names(entries) &&
      (forall k :: k in m ==> r[k] == m[k]) &&
      (forall i :: 0 <= i < |entries| ==> entries[i].0 in r && r[entries[i].0] == entries[i].1)
  {
    if entries != [] {
      var n := |entries| - 1;
      var init := entries[..n];
      RegisterAllFresh(m, init);
      var before := RegisterAll(m, init);
      NotInNames(init, entries[n].0);
      var r := Register(before, entries[n].0, entries[n].1);
      assert RegisterAll(m, entries) == r;
      assert Names(entries) == Names(init) + {entries[n].0};
      assert r.Keys == before.Keys + {entries[n].0};
      forall i | 0 <= i < |entries|
        ensures entries[i].0 in r && r[entries[i].0] == entries[i].1
      {
        if i < n {
          assert init[i] == entries[i];
        }
      }
    }
  }

  /** When every name has a catalog entry, registering the names from the
      catalog is registering those entries. */
  lemma {:induction false} RegisterAllStandardEntries(m: map<string, Histogram>, names: seq<string>, hs: seq<Histogram>)
    requires |hs| == |names|
    requires forall i :: 0 <= i < |names| ==> GetStandardHistogram(names[i]) == Some(hs[i])
    ensures RegisterAllStandard(m, names) == RegisterAll(m, Zip(names, hs))
  {
    if names != [] {
      var n := |names| - 1;
      RegisterAllStandardEntries(m, names[..n], hs[..n]);
      assert Zip(names, hs)[..n] == Zip(names[..n], hs[..n]);
      assert GetStandardHistogram(names[n]) == Some(hs[n]);
    }
  }

  function Zip<A, B>(xs: seq<A>, ys: seq<B>): (r: seq<(A, B)>)
    requires |xs| == |ys|
    ensures |r| == |xs| && forall i :: 0 <= i < |xs| ==> r[i] == (xs[i], ys[i])
  {
    seq(|xs|, i requires 0 <= i < |xs| => (xs[i], ys[i]))
  }

  /** No catalog row occurs twice. */
  ghost predicate DistinctRows(rows: seq<nat>)
  {
    forall i, j :: 0 <= i < j < |rows| ==> rows[i] != rows[j]
  }

  /** Registering the names of distinct catalog rows, none of them present
      yet, adds exactly those names, each with its row's histogram, and keeps
      every existing entry; the names are distinct. */
  lemma RegisterCatalogRows(m: map<string, Histogram>, rows: seq<nat>)
    requires InCatalog(rows) && DistinctRows(rows)
    requires forall i :: 0 <= i < |rows| ==> NamesOfRows(rows)[i] !in m
    ensures var names := NamesOfRows(rows);
      var r := RegisterAllStandard(m, names);
      (forall n :: n in r <==> n in m || n in names) &&
      (forall k :: k in m ==> r[k] == m[k]) &&
      (forall i :: 0 <= i < |rows| ==> names[i] in r && r[names[i]] == CatalogEntry(rows[i])) &&
      (forall i, j :: 0 <= i < j < |rows| ==> names[i] != names[j])
  {
    var names := NamesOfRows(rows);
    NamesOfRowsAt(rows);
    var hs := RowEntries(rows);
    var entries := Zip(names, hs);
    RowNamesDistinct(rows);
    RegisterAllFresh(m, entries);
    NamesOfZip(names, hs);
  }

  /** An `initialize` that books its own histograms under distinct names and
      then the names of distinct catalog rows, none of them one of its own,
      ends with exactly those names: its own bookings as given, the catalog
      names with their rows' histograms. */
  lemma {:induction false} RegisterCustomThenCatalog(custom: seq<(string, Histogram)>, rows: seq<nat>)
    requires forall i, j :: 0 <= i < j < |custom| ==> custom[i].0 != custom[j].0
    requires InCatalog(rows) && DistinctRows(rows)
    requires forall i :: 0 <= i < |custom| ==> custom[i].0 !in NamesOfRows(rows)
    ensures var names := NamesOfRows(rows);
      var r := RegisterAllStandard(RegisterAll(map[], custom), names);
      (forall n :: n in r <==> n in Names(custom) || n in names) &&
      (forall i :: 0 <= i < |custom| ==> custom[i].0 in r && r[custom[i].0] == custom[i].1) &&
      (forall i :: 0 <= i < |rows| ==> names[i] in r && r[names[i]] == CatalogEntry(rows[i])) &&
      (forall i, j :: 0 <= i < j < |rows| ==> names[i] != names[j])
  {
    CustomThenCatalogKeys(custom, rows);
    CustomEntriesKept(custom, rows);
    CatalogEntriesAdded(custom, rows);
  }

  lemma {:induction false} CustomThenCatalogKeys(custom: seq<(string, Histogram)>, rows: seq<nat>)
    requires forall i, j :: 0 <= i < j < |custom| ==> custom[i].0 != custom[j].0
    requires InCatalog(rows) && DistinctRows(rows)
    requires forall i :: 0 <= i < |custom| ==> custom[i].0 !in NamesOfRows(rows)
    ensures var names := NamesOfRows(rows);
      var r := RegisterAllStandard(RegisterAll(map[], custom), names);
      forall n :: n in r <==> n in Names(custom) || n in names
  {
    RegisterAllFresh(map[], custom);
    CustomNamesAbsent(custom, rows);
    RegisterCatalogRows(RegisterAll(map[], custom), rows);
  }

  lemma {:induction false} CustomEntriesKept(custom: seq<(string, Histogram)>, rows: seq<nat>)
    requires forall i, j :: 0 <= i < j < |custom| ==> custom[i].0 != custom[j].0
    requires InCatalog(rows) && DistinctRows(rows)
    requires forall i :: 0 <= i < |custom| ==> custom[i].0 !in NamesOfRows(rows)
    ensures var r := RegisterAllStandard(RegisterAll(map[], custom), NamesOfRows(rows));
      forall i :: 0 <= i < |custom| ==> custom[i].0 in r && r[custom[i].0] == custom[i].1
  {
    RegisterAllFresh(map[], custom);
    CustomNamesAbsent(custom, rows);
    RegisterCatalogRows(RegisterAll(map[], custom), rows);
  }

  lemma {:induction false} CatalogEntriesAdded(custom: seq<(string, Histogram)>, rows: seq<nat>)
    requires InCatalog(rows) && DistinctRows(rows)
    requires forall i :: 0 <= i < |custom| ==> custom[i].0 !in NamesOfRows(rows)
    ensures var names := NamesOfRows(rows);
      var r := RegisterAllStandard(RegisterAll(map[], custom), names);
      (forall i :: 0 <= i < |rows| ==> names[i] in r && r[names[i]] == CatalogEntry(rows[i])) &&
      (forall i, j :: 0 <= i < j < |rows| ==> names[i] != names[j])
  {
    CustomNamesAbsent(custom, rows);
    RegisterCatalogRows(RegisterAll(map[], custom), rows);
  }

  /** After the own bookings, none of the rows' names is registered yet. */
  lemma {:induction false} CustomNamesAbsent(custom: seq<(string, Histogram)>, rows: seq<nat>)
    requires InCatalog(rows)
    requires forall i :: 0 <= i < |custom| ==> custom[i].0 !in NamesOfRows(rows)
    ensures var m := RegisterAll(map[], custom);
      forall i :: 0 <= i < |rows| ==> NamesOfRows(rows)[i] !in m
  {
    var m := RegisterAll(map[], custom);
    forall i | 0 <= i < |rows| ensures NamesOfRows(rows)[i] !in m {
      RegisterAllKeys(map[], custom);
      if NamesOfRows(rows)[i] in Names(custom) {
        NamesMember(custom, NamesOfRows(rows)[i]);
      }
    }
  }

  /** Registering adds the entries' names to the keys, and nothing else. */
  lemma {:induction false} RegisterAllKeys(m: map<string, Histogram>, entries: seq<(string, Histogram)>)
    ensures RegisterAll(m, entries).Keys == m.Keys + Names(entries)
  {
    if entries != [] {
      RegisterAllKeys(m, entries[..|entries| - 1]);
    }
  }

  /** The catalog histograms of the given rows, which their names look up. */
  lemma RowEntries(rows: seq<nat>) returns (hs: seq<Histogram>)
    requires InCatalog(rows)
    ensures |hs| == |rows| && forall i :: 0 <= i < |rows| ==> hs[i] == CatalogEntry(rows[i])
    ensures forall m :: RegisterAllStandard(m, NamesOfRows(rows)) == RegisterAll(m, Zip(NamesOfRows(rows), hs))
  {
    var names := NamesOfRows(rows);
    NamesOfRowsAt(rows);
    hs := seq(|rows|, i requires 0 <= i < |rows| => CatalogEntry(rows[i]));
    forall i | 0 <= i < |names| ensures GetStandardHistogram(names[i]) == Some(hs[i]) {
      EveryRowReachable(rows[i]);
    }
    forall m: map<string, Histogram> ensures RegisterAllStandard(m, names) == RegisterAll(m, Zip(names, hs)) {
      RegisterAllStandardEntries(m, names, hs);
    }
  }

  /** Names of distinct catalog rows are distinct. */
  lemma RowNamesDistinct(rows: seq<nat>)
    requires InCatalog(rows) && DistinctRows(rows)
    ensures var names := NamesOfRows(rows);
      forall i, j :: 0 <= i < j < |names| ==> names[i] != names[j]
  {
    NamesOfRowsAt(rows);
    CatalogNamesDistinct();
    CatalogSizes();
  }

  /** The names of zipped entries are the zipped names. */
  lemma NamesOfZip(names: seq<string>, hs: seq<Histogram>)
    requires |names| == |hs|
    ensures forall n :: n in Names(Zip(names, hs)) <==> n in names
  {
    var entries := Zip(names, hs);
    forall n | n in names ensures n in Names(entries) {
      var i :| 0 <= i < |names| && names[i] == n;
      assert entries[i].0 == n;
    }
    forall n | n in Names(entries) ensures n in names {
      NamesMember(entries, n);
    }
  }

  /** Each registered name exactly once, with its histogram: what
      `writeHistograms` writes, in the registry's iteration order. */
  method WriteEach(m: map<string, Histogram>) returns (order: seq<string>, written: seq<Histogram>)
    ensures |order| == |written|
    ensures forall i :: 0 <= i < |order| ==> order[i] in m && written[i] == m[order[i]]
    ensures forall k :: k in m ==> k in order
    ensures forall i, j :: 0 <= i < j < |order| ==> order[i] != order[j]
  {
    var remaining := m.Keys;
    order, written := [], [];
    while remaining != {}
      invariant remaining <= m.Keys && |order| == |written|
      invariant forall i :: 0 <= i < |order| ==>
        order[i] in m && order[i] !in remaining && written[i] == m[order[i]]
      invariant forall k :: k in m && k !in remaining ==> k in order
      invariant forall i, j :: 0 <= i < j < |order| ==> order[i] != order[j]
      decreases remaining
    {
      var k :| k in remaining;
      order, written := order + [k], written + [m[k]];
      remaining := remaining - {k};
    }
  }

  class HistManager {
    const name: string
    var histograms: map<string, Histogram>

    /** A registry with no histograms. */
    constructor(name: string)
      ensures this.name == name && histograms == map[]
    {
      this.name := name;
      histograms := map[];
    }

    /** Registers `histogram` under `histName` unless the name is taken, and
        hands back the argument either way. */
    method AddHistogram(histName: string, histogram: Histogram) returns (r: Histogram)
      modifies this
      ensures r == histogram
      ensures histograms == Register(old(histograms), histName, histogram)
    {
      if histName !in histograms {
        histograms := histograms[histName := histogram];
      }
      r := histogram;
    }

    /** Registers the catalog histogram called `histName`; a name outside the
        catalog gives None and leaves the registry alone. */
    method AddStandardHistogram(histName: string) returns (r: Option<Histogram>)
      modifies this
      ensures r == GetStandardHistogram(histName)
      ensures r.None? <==> histName !in CatalogNames
      ensures histograms == RegisterStandard(old(histograms), histName)
    {
      var histogram := GetStandardHistogram(histName);
      if histogram.None? {
        return None;
      }
      var added := AddHistogram(histName, histogram.value);
      r := Some(added);
    }

    /** The `addStandardHistogram` calls of an `initialize`, one per name, in order. */
    method AddStandardHistograms(names: seq<string>)
      modifies this
      ensures histograms == RegisterAllStandard(old(histograms), names)
    {
      for i := 0 to |names|
        invariant histograms == RegisterAllStandard(old(histograms), names[..i])
      {
        assert names[..i + 1][..i] == names[..i];
        var _ := AddStandardHistogram(names[i]);
      }
      assert names[..|names|] == names;
    }

    /** Writes every registered histogram once; returns the names in the order
        written and the histograms written. */
    method WriteHistograms() returns (order: seq<string>, written: seq<Histogram>)
      ensures |order| == |written|
      ensures forall i :: 0 <= i < |order| ==> order[i] in histograms && written[i] == histograms[order[i]]
      ensures forall k :: k in histograms ==> k in order
      ensures forall i, j :: 0 <= i < j < |order| ==> order[i] != order[j]
    {
      order, written := WriteEach(histograms);
    }
  }
}
