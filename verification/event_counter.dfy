/**
 * The cut-flow counter of an analysis: for every cut label, how many events
 * reached it (raw) and the sum of their weights (weighted).  Both counters are
 * Python `collections.Counter`s, so a cut never seen reads as zero.
 */
module EventCounter {

  /** One line of the printed cut-flow table. */
  datatype ReportRow = ReportRow(cut: string, raw: nat, weighted: real)

  /** Number of updates in `updates` that carry `cut`. */
  function Occurrences(updates: seq<(string, real)>, cut: string): nat
  {
    if updates == [] then 0
    else Occurrences(updates[..|updates| - 1], cut) + (if updates[|updates| - 1].0 == cut then 1 else 0)
  }

  /** Sum of the weights of the updates in `updates` that carry `cut`. */
  function WeightSum(updates: seq<(string, real)>, cut: string): real
  {
    if updates == [] then 0.0
    else WeightSum(updates[..|updates| - 1], cut) + (if updates[|updates| - 1].0 == cut then updates[|updates| - 1].1 else 0.0)
  }

  /** Occurrences add up over concatenation. */
  lemma {:induction false} OccurrencesAppend(u: seq<(string, real)>, v: seq<(string, real)>, cut: string)
    ensures Occurrences(u + v, cut) == Occurrences(u, cut) + Occurrences(v, cut)
  {
    if v != [] {
      var w := v[..|v| - 1];
      assert (u + v)[..|u + v| - 1] == u + w;
      assert (u + v)[|u + v| - 1] == v[|v| - 1];
      OccurrencesAppend(u, w, cut);
    } else {
      assert u + v == u;
    }
  }

  /** Weight sums add up over concatenation. */
  lemma {:induction false} WeightSumAppend(u: seq<(string, real)>, v: seq<(string, real)>, cut: string)
    ensures WeightSum(u + v, cut) == WeightSum(u, cut) + WeightSum(v, cut)
  {
    if v != [] {
      var w := v[..|v| - 1];
      assert (u + v)[..|u + v| - 1] == u + w;
      assert (u + v)[|u + v| - 1] == v[|v| - 1];
      WeightSumAppend(u, w, cut);
    } else {
      assert u + v == u;
    }
  }

  /** A cut that was never counted has accumulated no weight. */
  lemma {:induction false} WeightSumUncounted(updates: seq<(string, real)>, cut: string)
    requires Occurrences(updates, cut) == 0
    ensures WeightSum(updates, cut) == 0.0
  {
    if updates != [] {
      WeightSumUncounted(updates[..|updates| - 1], cut);
    }
  }

  /** The cut labels of a table, top to bottom. */
  function Cuts(rows: seq<ReportRow>): (r: seq<string>)
    ensures |r| == |rows| && forall i :: 0 <= i < |rows| ==> r[i] == rows[i].cut
  {
    if rows == [] then [] else Cuts(rows[..|rows| - 1]) + [rows[|rows| - 1].cut]
  }

  /** A cut occurs in an update sequence exactly when its count is positive. */
  lemma {:induction false} OccurrencesPositive(updates: seq<(string, real)>, cut: string)
    ensures Occurrences(updates, cut) > 0 <==> exists i :: 0 <= i < |updates| && updates[i].0 == cut
  {
    if updates != [] {
      var u := updates[..|updates| - 1];
      OccurrencesPositive(u, cut);
      if exists i :: 0 <= i < |updates| && updates[i].0 == cut {
        var i :| 0 <= i < |updates| && updates[i].0 == cut;
        if i < |u| {
          assert u[i].0 == cut;
        }
      }
      if exists i :: 0 <= i < |u| && u[i].0 == cut {
        var i :| 0 <= i < |u| && u[i].0 == cut;
        assert updates[i].0 == cut;
      }
    }
  }

  class EventCounter {
    const name: string
    var raw: map<string, nat>
    var weighted: map<string, real>
    /** Every `update` call so far, oldest first. */
    ghost var updates: seq<(string, real)>

    /** Both counters hold the same cuts, exactly those that were updated, and
        their values are the count and the weight sum of those updates. */
    ghost predicate Valid()
      reads this
    {
      raw.Keys == weighted.Keys &&
      (forall l :: l in raw <==> Occurrences(updates, l) > 0) &&
      (forall l :: l in raw ==> raw[l] == Occurrences(updates, l) && weighted[l] == WeightSum(updates, l))
    }

    /** `RawCounter[cut]`: zero for a cut never counted. */
    function Count(cut: string): (n: nat)
      reads this
      requires Valid()
      ensures n == Occurrences(updates, cut)
    {
      if cut in raw then raw[cut] else 0
    }

    /** `WeightedCounter[cut]`: zero for a cut never counted. */
    function WeightedCount(cut: string): (w: real)
      reads this
      requires Valid()
      ensures w == WeightSum(updates, cut)
    {
      if cut in weighted then weighted[cut]
      else WeightSumUncounted(updates, cut); 0.0
    }

    /** Both counters start empty. */
    constructor(name: string)
      ensures this.name == name && raw == map[] && weighted == map[] && updates == []
      ensures Valid()
    {
      this.name := name;
      raw := map[];
      weighted := map[];
      updates := [];
    }

    /** Counts one more event at `cut` with weight `weight`; no other cut changes. */
    method Update(cut: string, weight: real)
      requires Valid()
      modifies this
      ensures Valid()
      ensures updates == old(updates) + [(cut, weight)]
      ensures raw == old(raw)[cut := old(Count(cut)) + 1]
      ensures weighted == old(weighted)[cut := old(WeightedCount(cut)) + weight]
    {
      var n := Count(cut);
      var w := WeightedCount(cut);
      raw := raw[cut := n + 1];
      weighted := weighted[cut := w + weight];
      updates := updates + [(cut, weight)];
      assert updates[..|updates| - 1] == old(updates);
    }

    /** The rows of the printed table: one per cut, in non-increasing order of
        the raw count (ties in no particular order), each with the weighted
        count of its own cut. */
    method PrintResults() returns (rows: seq<ReportRow>)
      requires Valid()
      ensures forall i :: 0 <= i < |rows| ==>
        rows[i].cut in raw && rows[i].raw == raw[rows[i].cut] &&
        rows[i].weighted == weighted[rows[i].cut]
      ensures forall l :: l in raw ==> l in Cuts(rows)
      ensures forall i, j :: 0 <= i < j < |rows| ==> rows[i].cut != rows[j].cut
      ensures forall i, j :: 0 <= i < j < |rows| ==> rows[i].raw >= rows[j].raw
    {
      rows := MostCommon(raw, weighted);
    }
  }

  /** `Counter.most_common()` joined with the weighted counter: every label of
      `counts` once, largest count first. */
  method MostCommon(counts: map<string, nat>, sums: map<string, real>) returns (rows: seq<ReportRow>)
    requires counts.Keys <= sums.Keys
    ensures forall i :: 0 <= i < |rows| ==>
      rows[i].cut in counts && rows[i].raw == counts[rows[i].cut] && rows[i].weighted == sums[rows[i].cut]
    ensures forall l :: l in counts ==> l in Cuts(rows)
    ensures forall i, j :: 0 <= i < j < |rows| ==> rows[i].cut != rows[j].cut
    ensures forall i, j :: 0 <= i < j < |rows| ==> rows[i].raw >= rows[j].raw
  {
    var remaining := counts.Keys;
    rows := [];
    while remaining != {}
      invariant remaining <= counts.Keys && TableSoFar(counts, sums, rows, remaining)
      decreases remaining
    {
      MostCommonExists(remaining, counts);
      var cut :| cut in remaining && forall l :: l in remaining ==> counts[l] <= counts[cut];
      var row := ReportRow(cut, counts[cut], sums[cut]);
      TableStep(counts, sums, rows, remaining, cut);
      rows := rows + [row];
      remaining := remaining - {cut};
    }
  }

  /** The loop state of `MostCommon`: the rows printed so far are the labels
      outside `remaining`, each once, in order, and none below a remaining one. */
  ghost predicate TableSoFar(counts: map<string, nat>, sums: map<string, real>,
                             rows: seq<ReportRow>, remaining: set<string>)
  {
    (forall i :: 0 <= i < |rows| ==>
      rows[i].cut in counts && rows[i].cut in sums && rows[i].cut !in remaining &&
      rows[i].raw == counts[rows[i].cut] && rows[i].weighted == sums[rows[i].cut]) &&
    (forall l :: l in counts && l !in remaining ==> l in Cuts(rows)) &&
    (forall i, j :: 0 <= i < j < |rows| ==> rows[i].cut != rows[j].cut) &&
    (forall i, j :: 0 <= i < j < |rows| ==> rows[i].raw >= rows[j].raw) &&
    (forall i, l :: 0 <= i < |rows| && l in remaining && l in counts ==> rows[i].raw >= counts[l])
  }

  /** Printing a most common remaining label keeps the loop state. */
  lemma TableStep(counts: map<string, nat>, sums: map<string, real>,
                  rows: seq<ReportRow>, remaining: set<string>, cut: string)
    requires remaining <= counts.Keys <= sums.Keys && TableSoFar(counts, sums, rows, remaining)
    requires cut in remaining && forall l :: l in remaining ==> counts[l] <= counts[cut]
    ensures TableSoFar(counts, sums, rows + [ReportRow(cut, counts[cut], sums[cut])], remaining - {cut})
  {
    var row := ReportRow(cut, counts[cut], sums[cut]);
    var next, left := rows + [row], remaining - {cut};
    assert Cuts(next) == Cuts(rows) + [cut] by {
      assert next[..|rows|] == rows;
    }
    forall l | l in counts && l !in left ensures l in Cuts(next) {
      if l != cut {
        assert l in Cuts(rows);
      }
    }
    forall i, j | 0 <= i < j < |next| ensures next[i].cut != next[j].cut && next[i].raw >= next[j].raw {
      if j == |rows| {
        assert next[i] == rows[i] && next[j] == row;
      }
    }
    forall i, l | 0 <= i < |next| && l in left && l in counts ensures next[i].raw >= counts[l] {
      if i < |rows| {
        assert next[i] == rows[i];
      }
    }
  }

  /** A non-empty finite set of cuts has one with the largest count. */
  lemma MostCommonExists(cuts: set<string>, counts: map<string, nat>)
    requires cuts != {} && cuts <= counts.Keys
    ensures exists m :: m in cuts && forall l :: l in cuts ==> counts[l] <= counts[m]
  {
    var x :| x in cuts;
    if cuts != {x} {
      var rest := cuts - {x};
      MostCommonExists(rest, counts);
      var m :| m in rest && forall l :: l in rest ==> counts[l] <= counts[m];
      if counts[x] > counts[m] {
        assert forall l :: l in cuts ==> counts[l] <= counts[x];
      } else {
        assert forall l :: l in cuts ==> counts[l] <= counts[m];
      }
    }
  }
}
