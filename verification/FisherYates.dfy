/** The shuffle as Fisher and Yates mean it: draws `d[i]` from 0 to `i`, one exchange for each position, and every
    permutation comes from exactly one sequence of draws. The pass of the tables is that shuffle at the draws of its
    generator. */
module FisherYates {
  import opened LtpTables

  /** One draw for each position, none above it. */
  predicate AreDraws(draws: seq<nat>) {
    forall i :: 0 <= i < |draws| ==> draws[i] <= i
  }

  function Exchange(p: seq<nat>, i: nat, j: nat): (q: seq<nat>)
    requires i < |p| && j < |p|
    ensures |q| == |p|
    ensures forall k {:trigger q[k]} :: 0 <= k < |p| ==> q[k] == if k == i then p[j] else if k == j then p[i] else p[k]
  {
    p[i := p[j]][j := p[i]]
  }

  /** Exchanges each position below `i` with its draw, the highest first. */
  function DrawnTo(p: seq<nat>, draws: seq<nat>, i: nat): (q: seq<nat>)
    requires |draws| == |p| && AreDraws(draws) && i <= |p|
    ensures |q| == |p|
    decreases i
  {
    if i == 0 then p else DrawnTo(Exchange(p, i - 1, draws[i - 1]), draws, i - 1)
  }

  lemma DrawnStep(p: seq<nat>, draws: seq<nat>, i: nat, j: nat)
    requires |draws| == |p| && AreDraws(draws) && 0 < i <= |p| && j == draws[i - 1]
    ensures DrawnTo(p, draws, i) == DrawnTo(Exchange(p, i - 1, j), draws, i - 1)
  {
  }

  function Drawn(p: seq<nat>, draws: seq<nat>): (q: seq<nat>)
    requires |draws| == |p| && AreDraws(draws)
    ensures |q| == |p|
  {
    DrawnTo(p, draws, |p|)
  }

  /** Positions from `i` on are settled. */
  lemma {:induction false} SettledAbove(p: seq<nat>, draws: seq<nat>, i: nat, k: nat)
    requires |draws| == |p| && AreDraws(draws) && i <= k < |p|
    ensures DrawnTo(p, draws, i)[k] == p[k]
    decreases i
  {
    if i > 0 {
      SettledAbove(Exchange(p, i - 1, draws[i - 1]), draws, i - 1, k);
    }
  }

  /** The highest open position gets what its draw names. */
  lemma DrawTaken(p: seq<nat>, draws: seq<nat>, i: nat)
    requires |draws| == |p| && AreDraws(draws) && 0 < i <= |p|
    ensures DrawnTo(p, draws, i)[i - 1] == p[draws[i - 1]]
  {
    SettledAbove(Exchange(p, i - 1, draws[i - 1]), draws, i - 1, i - 1);
  }

  // ---- permutations ----

  /** The permutations of the numbers below `n`. */
  ghost function Permutations(n: nat): iset<seq<nat>> {
    iset p: seq<nat> | |p| == n && exists inv: seq<nat> :: Inverse(p, inv)
  }

  lemma ExchangePermutes(p: seq<nat>, n: nat, i: nat, j: nat)
    requires p in Permutations(n) && i < |p| && j < |p|
    ensures Exchange(p, i, j) in Permutations(n)
  {
    var inv: seq<nat> :| Inverse(p, inv);
    SwapInverse(p, inv, i, j);
    assert Inverse(Exchange(p, i, j), inv[p[i] := j][p[j] := i]);
  }

  /** Every number below `n` has one place, and only they have. */
  lemma PlaceOf(p: seq<nat>, n: nat, v: nat) returns (j: nat)
    requires p in Permutations(n) && v < n
    ensures j < |p| && p[j] == v && forall k :: 0 <= k < |p| && p[k] == v ==> k == j
  {
    var inv: seq<nat> :| Inverse(p, inv);
    j := inv[v];
  }

  lemma ValueBelow(p: seq<nat>, n: nat, i: nat)
    requires p in Permutations(n) && i < |p|
    ensures p[i] < n
  {
    var inv: seq<nat> :| Inverse(p, inv);
  }

  // ---- one sequence of draws for each permutation ----

  /** Whatever the draws, a permutation stays one. */
  lemma {:induction false} DrawnIsPermutation(p: seq<nat>, n: nat, draws: seq<nat>, i: nat)
    requires p in Permutations(n) && |draws| == |p| && AreDraws(draws) && i <= |p|
    ensures DrawnTo(p, draws, i) in Permutations(n)
    decreases i
  {
    if i > 0 {
      ExchangePermutes(p, n, i - 1, draws[i - 1]);
      DrawnIsPermutation(Exchange(p, i - 1, draws[i - 1]), n, draws, i - 1);
    }
  }

  predicate SameBelow(d: seq<nat>, e: seq<nat>, i: nat)
    requires i <= |d| && i <= |e|
  {
    forall k :: 0 <= k < i ==> d[k] == e[k]
  }

  lemma SameBelowNext(d: seq<nat>, e: seq<nat>, i: nat)
    requires i < |d| && i < |e| && SameBelow(d, e, i) && d[i] == e[i]
    ensures SameBelow(d, e, i + 1)
  {
  }

  lemma SameDraw(p: seq<nat>, n: nat, d: seq<nat>, e: seq<nat>, i: nat)
    requires p in Permutations(n) && |d| == |e| == |p| && AreDraws(d) && AreDraws(e) && 0 < i <= |p|
    requires DrawnTo(p, d, i) == DrawnTo(p, e, i)
    ensures d[i - 1] == e[i - 1]
  {
    DrawTaken(p, d, i);
    DrawTaken(p, e, i);
    ValueBelow(p, n, d[i - 1]);
    var _ := PlaceOf(p, n, p[d[i - 1]]);
  }

  /** Equal results come from one draw at the highest open position, and equal results below it. */
  lemma DecideHighest(p: seq<nat>, n: nat, d: seq<nat>, e: seq<nat>, i: nat) returns (next: seq<nat>)
    requires p in Permutations(n) && |d| == |e| == |p| && AreDraws(d) && AreDraws(e) && 0 < i <= |p|
    requires DrawnTo(p, d, i) == DrawnTo(p, e, i)
    ensures d[i - 1] == e[i - 1] && next in Permutations(n) && |next| == |p|
    ensures DrawnTo(next, d, i - 1) == DrawnTo(next, e, i - 1)
  {
    SameDraw(p, n, d, e, i);
    next := Exchange(p, i - 1, d[i - 1]);
    DrawnStep(p, d, i, d[i - 1]);
    DrawnStep(p, e, i, d[i - 1]);
    ExchangePermutes(p, n, i - 1, d[i - 1]);
  }

  /** Different draws below `i` give different results. */
  lemma {:induction false} DrawsDecide(p: seq<nat>, n: nat, d: seq<nat>, e: seq<nat>, i: nat)
    requires p in Permutations(n) && |d| == |e| == |p| && AreDraws(d) && AreDraws(e) && i <= |p|
    requires DrawnTo(p, d, i) == DrawnTo(p, e, i)
    ensures SameBelow(d, e, i)
    decreases i
  {
    if i > 0 {
      var next := DecideHighest(p, n, d, e, i);
      DrawsDecide(next, n, d, e, i - 1);
      SameBelowNext(d, e, i - 1);
    }
  }

  /** Only the draws below `i` matter. */
  lemma {:induction false} DrawsBelow(p: seq<nat>, d: seq<nat>, e: seq<nat>, i: nat)
    requires |d| == |e| == |p| && AreDraws(d) && AreDraws(e) && i <= |p| && SameBelow(d, e, i)
    ensures DrawnTo(p, d, i) == DrawnTo(p, e, i)
    decreases i
  {
    if i > 0 {
      DrawsBelow(Exchange(p, i - 1, d[i - 1]), d, e, i - 1);
    }
  }

  /** Where the number that belongs at the highest open position is. */
  lemma OpenPlace(p: seq<nat>, q: seq<nat>, n: nat, i: nat) returns (j: nat)
    requires p in Permutations(n) && q in Permutations(n) && 0 < i <= |p|
    requires forall k :: i <= k < |p| ==> p[k] == q[k]
    ensures j < i && p[j] == q[i - 1]
  {
    ValueBelow(q, n, i - 1);
    j := PlaceOf(p, n, q[i - 1]);
    var at := PlaceOf(q, n, q[i - 1]);
    assert at == i - 1;
  }

  /** A draw put before others. */
  lemma DrawFirst(p: seq<nat>, rest: seq<nat>, i: nat, j: nat)
    requires |rest| == |p| && AreDraws(rest) && j < i <= |p|
    ensures AreDraws(rest[i - 1 := j])
    ensures DrawnTo(p, rest[i - 1 := j], i) == DrawnTo(Exchange(p, i - 1, j), rest, i - 1)
  {
    DrawsBelow(Exchange(p, i - 1, j), rest[i - 1 := j], rest, i - 1);
    DrawnStep(p, rest[i - 1 := j], i, j);
  }

  /** Draws that lead to a given permutation `q`, settled from `i` on. */
  lemma {:induction false} DrawsFor(p: seq<nat>, q: seq<nat>, n: nat, i: nat) returns (draws: seq<nat>)
    requires p in Permutations(n) && q in Permutations(n) && i <= |p|
    requires forall k :: i <= k < |p| ==> p[k] == q[k]
    ensures |draws| == |p| && AreDraws(draws) && DrawnTo(p, draws, i) == q
    decreases i
  {
    if i == 0 {
      draws := seq(|p|, _ => 0);
      assert p == q;
    } else {
      var j := OpenPlace(p, q, n, i);
      ExchangePermutes(p, n, i - 1, j);
      var rest := DrawsFor(Exchange(p, i - 1, j), q, n, i - 1);
      draws := rest[i - 1 := j];
      DrawFirst(p, rest, i, j);
    }
  }

  ghost predicate Yields(p: seq<nat>, draws: seq<nat>, q: seq<nat>) {
    |draws| == |p| && AreDraws(draws) && Drawn(p, draws) == q
  }

  /** From any permutation, the permutations are what the draws yield, and each comes from one sequence of draws
      only. */
  lemma EveryPermutationOnce(p: seq<nat>, n: nat, q: seq<nat>)
    requires p in Permutations(n)
    ensures q in Permutations(n) <==> exists draws: seq<nat> :: Yields(p, draws, q)
    ensures forall d: seq<nat>, e: seq<nat> :: Yields(p, d, q) && Yields(p, e, q) ==> d == e
  {
    if q in Permutations(n) {
      var draws := DrawsFor(p, q, n, n);
      assert Yields(p, draws, q);
    }
    forall draws: seq<nat> | Yields(p, draws, q) ensures q in Permutations(n) {
      DrawnIsPermutation(p, n, draws, n);
    }
    forall d: seq<nat>, e: seq<nat> | Yields(p, d, q) && Yields(p, e, q) ensures d == e {
      DrawsDecide(p, n, d, e, n);
      assert d == e;
    }
  }

  // ---- the pass of the tables ----

  /** The generator's state after `k` steps. */
  function LcgState(seed: nat, k: nat): nat {
    if k == 0 then seed else LcgNext(LcgState(seed, k - 1))
  }

  /** Position `i` is drawn for after the positions above it. */
  function LcgDraws(seed: nat, n: nat): (draws: seq<nat>)
    ensures |draws| == n && AreDraws(draws)
  {
    seq(n, i requires 0 <= i < n => LcgState(seed, n - i) % (i + 1))
  }

  lemma {:induction false} ShuffleFromIsDrawn(p: seq<nat>, seed: nat, i: nat)
    requires i <= |p|
    ensures ShuffleFrom(p, LcgState(seed, |p| - i), i) == DrawnTo(p, LcgDraws(seed, |p|), i)
    decreases i
  {
    var draws := LcgDraws(seed, |p|);
    if i == 1 {
      assert draws[0] == 0 && Exchange(p, 0, 0) == p;
      assert DrawnTo(p, draws, 1) == DrawnTo(p, draws, 0) == p;
    } else if i > 1 {
      assert LcgState(seed, |p| - (i - 1)) == LcgNext(LcgState(seed, |p| - i));
      assert draws[i - 1] == LcgNext(LcgState(seed, |p| - i)) % i;
      ShuffleFromIsDrawn(Exchange(p, i - 1, draws[i - 1]), seed, i - 1);
    }
  }

  /** The pass over a pool is the shuffle at the draws of the generator: position `i` takes the state reached for it
      modulo `i + 1`. */
  lemma ShuffleIsFisherYates(p: seq<nat>, seed: nat)
    ensures ShuffleFrom(p, seed, |p|) == Drawn(p, LcgDraws(seed, |p|))
  {
    ShuffleFromIsDrawn(p, seed, |p|);
  }
}
