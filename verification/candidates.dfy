/**
 * The boson-candidate search of the WZ and ZZ analyses: run through the
 * ordered k-permutations of the good leptons in `itertools.permutations`
 * order, skip those whose lepton pairs are not valid Z candidates, and keep
 * the one with the smallest distance to the Z mass (the first one on ties).
 */
module Candidates {
  import opened Wrappers
  import opened TupleReader
  import opened AnalysisHelpers

  // ---------------------------------------------------------------------------
  // Ordered permutations

  /** `pool` without its element at position i. */
  function Without<T>(pool: seq<T>, i: nat): (r: seq<T>)
    requires i < |pool|
    ensures |r| == |pool| - 1
    ensures forall c :: 0 <= c < |r| ==> r[c] == pool[if c < i then c else c + 1]
  {
    pool[..i] + pool[i + 1..]
  }

  /** `itertools.permutations(pool, k)`: every sequence of k elements of `pool`
      taken from distinct positions, in lexicographic order of those
      positions. */
  function Permutations<T>(pool: seq<T>, k: nat): (r: seq<seq<T>>)
    ensures |r| == Falling(|pool|, k)
    decreases k, 1, 0
  {
    if k == 0 then [[]] else PermutationsFrom(pool, 0, k)
  }

  /** The permutations of length k whose first element sits at position i or
      later in `pool`. */
  function PermutationsFrom<T>(pool: seq<T>, i: nat, k: nat): (r: seq<seq<T>>)
    requires 0 < k && i <= |pool|
    ensures |pool| == 0 ==> r == []
    ensures |pool| > 0 ==> |r| == (|pool| - i) * Falling(|pool| - 1, k - 1)
    decreases k, 0, |pool| - i
  {
    if i == |pool| then []
    else
      var r := Prepend(pool[i], Permutations(Without(pool, i), k - 1)) + PermutationsFrom(pool, i + 1, k);
      assert (|pool| - i) * Falling(|pool| - 1, k - 1) ==
        Falling(|pool| - 1, k - 1) + (|pool| - (i + 1)) * Falling(|pool| - 1, k - 1);
      r
  }

  /** n (n - 1) ... (n - k + 1): how many ways there are to draw k of n
      positions in order; 0 when k > n. */
  function Falling(n: nat, k: nat): nat
  {
    if k == 0 then 1 else if n == 0 then 0 else n * Falling(n - 1, k - 1)
  }

  /** Each of `tails` with x put in front. */
  function Prepend<T>(x: T, tails: seq<seq<T>>): (r: seq<seq<T>>)
    ensures |r| == |tails| && forall j :: 0 <= j < |tails| ==> r[j] == [x] + tails[j]
  {
    seq(|tails|, j requires 0 <= j < |tails| => [x] + tails[j])
  }

  /** p has k elements, all from the pool, and no repeats when the pool has none. */
  ghost predicate Drawn<T>(pool: seq<T>, k: nat, p: seq<T>)
  {
    |p| == k && (forall x :: x in p ==> x in pool) && (Distinct(pool) ==> Distinct(p))
  }

  /** Each permutation has k elements, all from the pool, and they are
      distinct when the pool itself has no repeats. */
  lemma {:induction false} PermutationsShape<T>(pool: seq<T>, k: nat)
    ensures forall p :: p in Permutations(pool, k) ==>
      |p| == k && (forall x :: x in p ==> x in pool) && (Distinct(pool) ==> Distinct(p))
    decreases k, 1, 0
  {
    if k > 0 {
      PermutationsFromShape(pool, 0, k);
    }
  }

  lemma {:induction false} PermutationsFromShape<T>(pool: seq<T>, i: nat, k: nat)
    requires 0 < k && i <= |pool|
    ensures forall p :: p in PermutationsFrom(pool, i, k) ==> Drawn(pool, k, p)
    decreases k, 0, |pool| - i
  {
    if i < |pool| {
      var rest := Without(pool, i);
      var tails := Permutations(rest, k - 1);
      PermutationsShape(rest, k - 1);
      PermutationsFromShape(pool, i + 1, k);
      PrependShape(pool, i, k, tails);
      assert PermutationsFrom(pool, i, k) == Prepend(pool[i], tails) + PermutationsFrom(pool, i + 1, k);
    }
  }

  /** Putting the element at position i in front of each permutation of
      the rest of the pool gives permutations of the pool. */
  lemma PrependShape<T>(pool: seq<T>, i: nat, k: nat, tails: seq<seq<T>>)
    requires i < |pool| && 0 < k
    requires forall t :: t in tails ==> Drawn(Without(pool, i), k - 1, t)
    ensures forall p :: p in Prepend(pool[i], tails) ==> Drawn(pool, k, p)
  {
    var heads := Prepend(pool[i], tails);
    forall p | p in heads ensures Drawn(pool, k, p) {
      var j :| 0 <= j < |tails| && heads[j] == p;
      assert tails[j] in tails;
      ConsShape(pool, i, tails[j]);
    }
  }

  /** Putting the element at position i in front of a permutation of the
      rest of the pool gives a permutation of the pool. */
  lemma ConsShape<T>(pool: seq<T>, i: nat, t: seq<T>)
    requires i < |pool|
    requires (forall x :: x in t ==> x in Without(pool, i)) && (Distinct(Without(pool, i)) ==> Distinct(t))
    ensures (forall x :: x in [pool[i]] + t ==> x in pool) && (Distinct(pool) ==> Distinct([pool[i]] + t))
  {
    var rest := Without(pool, i);
    forall x | x in t ensures x in pool && (Distinct(pool) ==> x != pool[i]) {
      var c :| 0 <= c < |rest| && rest[c] == x;
      var c' := if c < i then c else c + 1;
      assert pool[c'] == x;
    }
    if Distinct(pool) {
      WithoutDistinct(pool, i);
      var p := [pool[i]] + t;
      forall a, b | 0 <= a < b < |p| ensures p[a] != p[b] {
        if a == 0 {
          assert p[b] == t[b - 1] && t[b - 1] in t;
        } else {
          assert p[a] == t[a - 1] && p[b] == t[b - 1];
        }
      }
    }
  }

  /** Removing one element keeps a pool free of repeats. */
  lemma WithoutDistinct<T>(pool: seq<T>, i: nat)
    requires i < |pool| && Distinct(pool)
    ensures Distinct(Without(pool, i))
  {
    var rest := Without(pool, i);
    forall a, b | 0 <= a < b < |rest| ensures rest[a] != rest[b] {
      var a', b' := if a < i then a else a + 1, if b < i then b else b + 1;
      assert rest[a] == pool[a'] && rest[b] == pool[b'];
    }
  }

  /** Every sequence of k distinct elements of a pool without repeats is one
      of its k-permutations: nothing is missed. */
  lemma {:induction false} PermutationsComplete<T>(pool: seq<T>, k: nat, p: seq<T>)
    requires Distinct(pool)
    requires |p| == k && Distinct(p) && forall x :: x in p ==> x in pool
    ensures p in Permutations(pool, k)
    decreases k
  {
    if k == 0 {
      assert p == [];
    } else {
      assert p[0] in p;
      var i :| 0 <= i < |pool| && pool[i] == p[0];
      var rest := Without(pool, i);
      var t := p[1..];
      TailDrawnFromRest(pool, i, p);
      WithoutDistinct(pool, i);
      PermutationsComplete(rest, k - 1, t);
      var tails := Permutations(rest, k - 1);
      var j :| 0 <= j < |tails| && tails[j] == t;
      assert Prepend(pool[i], tails)[j] == p;
      PermutationsFromHas(pool, 0, i, k, p);
    }
  }

  /** Once the head of p is taken from position i, the rest of p is drawn
      from the rest of the pool, without repeats. */
  lemma TailDrawnFromRest<T>(pool: seq<T>, i: nat, p: seq<T>)
    requires Distinct(pool) && i < |pool|
    requires |p| > 0 && Distinct(p) && (forall x :: x in p ==> x in pool) && pool[i] == p[0]
    ensures Distinct(p[1..]) && forall x :: x in p[1..] ==> x in Without(pool, i)
  {
    var rest := Without(pool, i);
    var t := p[1..];
    forall x | x in t ensures x in rest {
      var m :| 0 <= m < |t| && t[m] == x;
      assert p[m + 1] == x && p[m + 1] in p;
      var c :| 0 <= c < |pool| && pool[c] == x;
      assert c != i;
      assert rest[if c < i then c else c - 1] == x;
    }
    forall a, b | 0 <= a < b < |t| ensures t[a] != t[b] {
      assert t[a] == p[a + 1] && t[b] == p[b + 1];
    }
  }

  /** The permutations headed by position j are among those headed by
      position i or later, for i <= j. */
  lemma {:induction false} PermutationsFromHas<T>(pool: seq<T>, i: nat, j: nat, k: nat, p: seq<T>)
    requires 0 < k && i <= j < |pool|
    requires p in Prepend(pool[j], Permutations(Without(pool, j), k - 1))
    ensures p in PermutationsFrom(pool, i, k)
    decreases j - i
  {
    if i < j {
      PermutationsFromHas(pool, i + 1, j, k, p);
    }
    assert PermutationsFrom(pool, i, k) ==
      Prepend(pool[i], Permutations(Without(pool, i), k - 1)) + PermutationsFrom(pool, i + 1, k);
  }

  /** For a pool without repeats, the k-permutations are exactly the
      sequences of k distinct pool elements. */
  lemma PermutationsExactly<T>(pool: seq<T>, k: nat)
    requires Distinct(pool)
    ensures forall p :: p in Permutations(pool, k) <==>
      |p| == k && Distinct(p) && forall x :: x in p ==> x in pool
  {
    PermutationsShape(pool, k);
    forall p | |p| == k && Distinct(p) && (forall x :: x in p ==> x in pool)
      ensures p in Permutations(pool, k)
    {
      PermutationsComplete(pool, k, p);
    }
  }

  // ---------------------------------------------------------------------------
  // Enumeration order

  /** The positions 0 .. n - 1. */
  function Positions(n: nat): (r: seq<nat>)
    ensures |r| == n && forall i :: 0 <= i < n ==> r[i] == i
  {
    seq(n, i => i)
  }

  /** Every position in ix is below n. */
  ghost predicate Within(n: nat, ix: seq<nat>)
  {
    forall j :: 0 <= j < |ix| ==> ix[j] < n
  }

  /** The elements of `pool` at the positions ix, in that order. */
  function Pick<T>(pool: seq<T>, ix: seq<nat>): (r: seq<T>)
    requires Within(|pool|, ix)
    ensures |r| == |ix| && forall j :: 0 <= j < |ix| ==> r[j] == pool[ix[j]]
  {
    seq(|ix|, j requires 0 <= j < |ix| => pool[ix[j]])
  }

  /** `Pick` applied to each of a list of position sequences. */
  function PickAll<T>(pool: seq<T>, ixs: seq<seq<nat>>): (r: seq<seq<T>>)
    requires forall ix :: ix in ixs ==> Within(|pool|, ix)
    ensures |r| == |ixs| && forall j :: 0 <= j < |ixs| ==> r[j] == Pick(pool, ixs[j])
  {
    seq(|ixs|, j requires 0 <= j < |ixs| => assert ixs[j] in ixs; Pick(pool, ixs[j]))
  }

  /** a precedes b in lexicographic order. */
  predicate LexLess(a: seq<nat>, b: seq<nat>)
  {
    |a| > 0 && |b| > 0 && (a[0] < b[0] || (a[0] == b[0] && LexLess(a[1..], b[1..])))
  }

  /** Each sequence of the list precedes every later one. */
  ghost predicate LexSorted(ixs: seq<seq<nat>>)
  {
    forall a, b :: 0 <= a < b < |ixs| ==> LexLess(ixs[a], ixs[b])
  }

  /** Strictly increasing. */
  ghost predicate Increasing(xs: seq<nat>)
  {
    forall i, j :: 0 <= i < j < |xs| ==> xs[i] < xs[j]
  }

  /** `itertools.permutations(pool, k)` in full: the position sequences of
      length k without repeats, each exactly once and in strictly increasing
      lexicographic order, with the pool's elements read off at those
      positions. */
  lemma PermutationsInItertoolsOrder<T>(pool: seq<T>, k: nat)
    ensures var ixs := Permutations(Positions(|pool|), k);
      (forall ix :: ix in ixs <==> |ix| == k && Distinct(ix) && Within(|pool|, ix)) &&
      LexSorted(ixs) &&
      Permutations(pool, k) == PickAll(pool, ixs)
  {
    var n := |pool|;
    var ixs := Permutations(Positions(n), k);
    PermutationsExactly(Positions(n), k);
    forall ix | ix in ixs ensures Within(n, ix) {
      forall j | 0 <= j < |ix| ensures ix[j] < n {
        assert ix[j] in ix;
      }
    }
    forall ix: seq<nat> | |ix| == k && Distinct(ix) && Within(n, ix) ensures forall x :: x in ix ==> x in Positions(n) {
      forall x | x in ix ensures x in Positions(n) {
        assert Positions(n)[x] == x;
      }
    }
    PositionsLexSorted(Positions(n), k);
    PickPermutations(pool, Positions(n), k);
    assert Pick(pool, Positions(n)) == pool;
  }

  /** Reading elements at positions commutes with enumerating permutations. */
  lemma {:induction false} PickPermutations<T>(pool: seq<T>, ix: seq<nat>, k: nat)
    requires Within(|pool|, ix)
    ensures forall q :: q in Permutations(ix, k) ==> Within(|pool|, q)
    ensures Permutations(Pick(pool, ix), k) == PickAll(pool, Permutations(ix, k))
    decreases k, 1, 0
  {
    PermutationsWithin(pool, ix, k);
    if k > 0 {
      PickPermutationsFrom(pool, ix, 0, k);
    }
  }

  lemma {:induction false} PickPermutationsFrom<T>(pool: seq<T>, ix: seq<nat>, i: nat, k: nat)
    requires Within(|pool|, ix) && 0 < k && i <= |ix|
    ensures forall q :: q in PermutationsFrom(ix, i, k) ==> Within(|pool|, q)
    ensures PermutationsFrom(Pick(pool, ix), i, k) == PickAll(pool, PermutationsFrom(ix, i, k))
    decreases k, 0, |ix| - i
  {
    PermutationsFromShape(ix, i, k);
    forall q | q in PermutationsFrom(ix, i, k) ensures Within(|pool|, q) {
      forall j | 0 <= j < |q| ensures q[j] < |pool| {
        assert q[j] in q;
      }
    }
    if i < |ix| {
      var rest := Without(ix, i);
      assert Within(|pool|, rest);
      assert Without(Pick(pool, ix), i) == Pick(pool, rest);
      PickPermutations(pool, rest, k - 1);
      PickPermutationsFrom(pool, ix, i + 1, k);
      var tails := Permutations(rest, k - 1);
      PickPrepend(pool, ix[i], tails);
      var a := Prepend(ix[i], tails);
      var b := PermutationsFrom(ix, i + 1, k);
      PickAllAppend(pool, a, b);
    }
  }

  /** The positions in a permutation of ix are positions of ix. */
  lemma PermutationsWithin<T>(pool: seq<T>, ix: seq<nat>, k: nat)
    requires Within(|pool|, ix)
    ensures forall q :: q in Permutations(ix, k) ==> Within(|pool|, q)
  {
    PermutationsShape(ix, k);
    forall q | q in Permutations(ix, k) ensures Within(|pool|, q) {
      forall j | 0 <= j < |q| ensures q[j] < |pool| {
        assert q[j] in q;
      }
    }
  }

  /** Picking after prepending a position is prepending that element. */
  lemma PickPrepend<T>(pool: seq<T>, x: nat, tails: seq<seq<nat>>)
    requires x < |pool| && forall t :: t in tails ==> Within(|pool|, t)
    ensures forall q :: q in Prepend(x, tails) ==> Within(|pool|, q)
    ensures Prepend(pool[x], PickAll(pool, tails)) == PickAll(pool, Prepend(x, tails))
  {
    var heads := Prepend(x, tails);
    forall q | q in heads ensures Within(|pool|, q) {
      var j :| 0 <= j < |heads| && heads[j] == q;
      assert tails[j] in tails;
    }
    forall j | 0 <= j < |tails| ensures [pool[x]] + Pick(pool, tails[j]) == Pick(pool, heads[j]) {
      assert tails[j] in tails;
    }
  }

  /** Picking distributes over concatenation of lists. */
  lemma PickAllAppend<T>(pool: seq<T>, a: seq<seq<nat>>, b: seq<seq<nat>>)
    requires forall q :: q in a ==> Within(|pool|, q)
    requires forall q :: q in b ==> Within(|pool|, q)
    ensures forall q :: q in a + b ==> Within(|pool|, q)
    ensures PickAll(pool, a + b) == PickAll(pool, a) + PickAll(pool, b)
  {
    var ab := a + b;
    forall j | 0 <= j < |ab| ensures PickAll(pool, ab)[j] == (PickAll(pool, a) + PickAll(pool, b))[j] {
      if j < |a| {
        assert ab[j] == a[j];
      } else {
        assert ab[j] == b[j - |a|];
      }
    }
  }

  /** For a strictly increasing pool of positions, the permutations come in
      strictly increasing lexicographic order. */
  lemma {:induction false} PositionsLexSorted(pool: seq<nat>, k: nat)
    requires Increasing(pool)
    ensures LexSorted(Permutations(pool, k))
    decreases k, 1, 0
  {
    if k > 0 {
      PositionsFromLexSorted(pool, 0, k);
    }
  }

  lemma {:induction false} PositionsFromLexSorted(pool: seq<nat>, i: nat, k: nat)
    requires Increasing(pool) && 0 < k && i <= |pool|
    ensures LexSorted(PermutationsFrom(pool, i, k))
    ensures forall p :: p in PermutationsFrom(pool, i, k) ==>
      |p| == k && forall m :: 0 <= m < i ==> pool[m] < p[0]
    decreases k, 0, |pool| - i
  {
    if i < |pool| {
      var rest := Without(pool, i);
      WithoutIncreasing(pool, i);
      var tails := Permutations(rest, k - 1);
      PositionsLexSorted(rest, k - 1);
      PositionsFromLexSorted(pool, i + 1, k);
      PermutationsShape(rest, k - 1);
      var a := Prepend(pool[i], tails);
      var b := PermutationsFrom(pool, i + 1, k);
      assert PermutationsFrom(pool, i, k) == a + b;
      PrependLexSorted(pool[i], tails, k);
      assert forall x :: x in a ==> |x| == k && forall m :: 0 <= m < i ==> pool[m] < x[0];
      forall x, y | 0 <= x < |a| && 0 <= y < |b| ensures LexLess(a[x], b[y]) {
        assert a[x] in a && b[y] in b;
      }
      LexSortedAppend(a, b);
    }
  }

  /** Removing one position keeps a pool strictly increasing. */
  lemma WithoutIncreasing(pool: seq<nat>, i: nat)
    requires i < |pool| && Increasing(pool)
    ensures Increasing(Without(pool, i))
  {
    var rest := Without(pool, i);
    forall a, b | 0 <= a < b < |rest| ensures rest[a] < rest[b] {
      assert rest[a] == pool[if a < i then a else a + 1];
      assert rest[b] == pool[if b < i then b else b + 1];
    }
  }

  /** Putting the same position in front of each of a sorted list keeps it
      sorted. */
  lemma PrependLexSorted(x: nat, tails: seq<seq<nat>>, k: nat)
    requires 0 < k && LexSorted(tails) && forall t :: t in tails ==> |t| == k - 1
    ensures LexSorted(Prepend(x, tails))
    ensures forall q :: q in Prepend(x, tails) ==> |q| == k && q[0] == x
  {
    var a := Prepend(x, tails);
    forall u, v | 0 <= u < v < |a| ensures LexLess(a[u], a[v]) {
      assert a[u][1..] == tails[u] && a[v][1..] == tails[v];
    }
    forall q | q in a ensures |q| == k && q[0] == x {
      var j :| 0 <= j < |a| && a[j] == q;
      assert tails[j] in tails;
    }
  }

  /** Two sorted lists, every element of the first preceding every element of
      the second, make a sorted list. */
  lemma LexSortedAppend(a: seq<seq<nat>>, b: seq<seq<nat>>)
    requires LexSorted(a) && LexSorted(b)
    requires forall x, y :: 0 <= x < |a| && 0 <= y < |b| ==> LexLess(a[x], b[y])
    ensures LexSorted(a + b)
  {
    var ab := a + b;
    forall x, y | 0 <= x < y < |ab| ensures LexLess(ab[x], ab[y]) {
      if y < |a| {
        assert ab[x] == a[x] && ab[y] == a[y];
      } else if x < |a| {
        assert ab[x] == a[x] && ab[y] == b[y - |a|];
      } else {
        assert ab[x] == b[x - |a|] && ab[y] == b[y - |a|];
      }
    }
  }

  // ---------------------------------------------------------------------------
  // Best candidate

  /** The candidate the search loop holds after looking at the first n
      candidates: None until a valid one is met, then the first valid one,
      replaced only by a strictly closer valid one. */
  function BestUpTo<C>(cands: seq<C>, valid: C --> bool, dist: C --> real, n: nat): (r: Option<nat>)
    requires n <= |cands| && forall c :: c in cands ==> valid.requires(c) && dist.requires(c)
    ensures r.Some? ==> r.value < n
  {
    if n == 0 then None
    else
      var best := BestUpTo(cands, valid, dist, n - 1);
      var c := cands[n - 1];
      if !valid(c) then best
      else if best.None? then Some(n - 1)
      else if dist(c) < dist(cands[best.value]) then Some(n - 1)
      else best
  }

  /** The search result is None exactly when no candidate is valid; otherwise
      it is a valid candidate at minimal distance, and every valid candidate
      before it is strictly farther: the earliest minimum. */
  lemma {:induction false} BestUpToCorrect<C>(cands: seq<C>, valid: C --> bool, dist: C --> real, n: nat)
    requires n <= |cands| && forall c :: c in cands ==> valid.requires(c) && dist.requires(c)
    ensures var r := BestUpTo(cands, valid, dist, n);
      (r.None? <==> forall i :: 0 <= i < n ==> !valid(cands[i])) &&
      (r.Some? ==> valid(cands[r.value])) &&
      (r.Some? ==> forall i :: 0 <= i < n && valid(cands[i]) ==> dist(cands[r.value]) <= dist(cands[i])) &&
      (r.Some? ==> forall i :: 0 <= i < r.value && valid(cands[i]) ==> dist(cands[r.value]) < dist(cands[i]))
  {
    if n > 0 {
      BestUpToCorrect(cands, valid, dist, n - 1);
    }
  }

  /** The search loop of `WZCandidate` and `ZZCandidate` over a candidate list. */
  method FindBest<C>(cands: seq<C>, valid: C --> bool, dist: C --> real) returns (best: Option<nat>)
    requires forall c :: c in cands ==> valid.requires(c) && dist.requires(c)
    ensures best == BestUpTo(cands, valid, dist, |cands|)
    ensures best.None? <==> forall i :: 0 <= i < |cands| ==> !valid(cands[i])
    ensures best.Some? ==> best.value < |cands| && valid(cands[best.value])
    ensures best.Some? ==> forall i :: 0 <= i < |cands| && valid(cands[i]) ==>
      dist(cands[best.value]) <= dist(cands[i])
    ensures best.Some? ==> forall i :: 0 <= i < best.value && valid(cands[i]) ==>
      dist(cands[best.value]) < dist(cands[i])
  {
    best := None;
    for n := 0 to |cands|
      invariant best == BestUpTo(cands, valid, dist, n)
    {
      var p := cands[n];
      if !valid(p) {
        continue;
      }
      if best.None? {
        best := Some(n);
      }
      if dist(p) < dist(cands[best.value]) {
        best := Some(n);
      }
    }
    BestUpToCorrect(cands, valid, dist, |cands|);
  }

  // ---------------------------------------------------------------------------
  // Z candidates

  /** Two leptons can come from one Z: their charge product is not positive
      (zero passes) and they have the same flavour. */
  predicate ValidPair(s: Store, a: Lepton, b: Lepton)
    requires a.Readable(s) && b.Readable(s)
    ensures ValidPair(s, a, b) ==> a.Charge(s) <= 0.0 || b.Charge(s) <= 0.0
    ensures ValidPair(s, a, b) ==> a.Charge(s) >= 0.0 || b.Charge(s) >= 0.0
  {
    !(a.Charge(s) * b.Charge(s) > 0.0) && Abs(a.PdgId(s)) == Abs(b.PdgId(s))
  }

  /** The pair test does not depend on the order of the two leptons, and a
      lepton paired with itself passes only when it is neutral. */
  lemma ValidPairSymmetric(s: Store, a: Lepton, b: Lepton)
    requires a.Readable(s) && b.Readable(s)
    ensures ValidPair(s, a, b) == ValidPair(s, b, a)
    ensures ValidPair(s, a, a) <==> a.Charge(s) == 0.0
  {
    if a.Charge(s) != 0.0 {
      assert a.Charge(s) * a.Charge(s) > 0.0;
    }
  }

  /** Distance of a lepton pair's invariant mass from the Z mass. */
  function ZWindow(fv: FourVectors, s: Store, a: Lepton, b: Lepton, zMass: real): (r: real)
    ensures r >= 0.0
    ensures r == fv.pairMass(s, a, b) - zMass || r == zMass - fv.pairMass(s, a, b)
  {
    AbsReal(fv.pairMass(s, a, b) - zMass)
  }
}
