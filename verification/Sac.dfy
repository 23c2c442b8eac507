/** Singleton arc consistency: every free cell is probed with both values on a state
    that is rolled back after each probe. */
module Sac {
  import opened Arithmetic
  import opened Gf2
  import opened Lines
  import opened Paths
  import opened Propagation
  import opened SingletonStates

  lemma ConflictRefutes(L: LineSystem, known: Partial, j: nat, v: bool, start: Partial)
    requires L.Wf() && j !in known && start == known[j := v] && forall M: Partial :: !Stable(L, start, M)
    ensures Refuted(L, known, j, v)
  {
    forall x: Vec | Solution(L, x) && Agrees(x, known) && j < |x| ensures x[j] != v {
      if x[j] == v {
        SolutionIsStable(L, x, start);
      }
    }
  }

  /** Propagation from the lines of the probed cell alone closes a closed state again. */
  lemma DrainedIsClosed(L: LineSystem, before: Partial, j: nat, v: bool, ls: seq<nat>, known: Partial)
    requires L.Wf() && j < L.n && j !in before && LinesThrough(L, j, ls) && Closed(L, before)
    requires forall i :: 0 <= i < |L.members| && (i in ls || Quiet(L, before[j := v], i)) ==> Settled(L, known, i, true)
    ensures Closed(L, known)
  {
    forall i | 0 <= i < |L.members| ensures Quiet(L, known, i) {
      if i !in ls {
        UntouchedLine(L, before, before[j := v], i);
        assert Quiet(L, before, i);
      }
      assert Settled(L, known, i, true);
    }
  }

  /** Sets a free cell and propagates from its lines only. */
  method AssignFree(cs: ConstraintSystem, j: nat, v: bool) returns (ok: bool)
    requires cs.Valid() && j in cs.free
    modifies cs
    ensures cs.Valid() && cs.free < old(cs.free)
    ensures Extends(cs.known, old(cs.known)[j := v]) && Below(cs.L, old(cs.known)[j := v], cs.known)
    ensures Derives(cs.L, old(cs.known)[j := v], cs.known)
    ensures !ok ==> Refuted(cs.L, old(cs.known), j, v)
    ensures !ok ==> exists i :: 0 <= i < |cs.L.members| && OutOfRange(cs.L, cs.known, i)
    ensures ok && Closed(cs.L, old(cs.known)) ==> Closed(cs.L, cs.known)
  {
    ghost var before := cs.known;
    cs.Determine(j, v);
    ghost var start := cs.known;
    var ls := cs.cellLines[j];
    assert LinesThrough(cs.L, j, ls);
    var _, conflict := cs.Drain(ls, true);
    ok := !conflict;
    assert j in cs.known;
    if conflict {
      ConflictRefutes(cs.L, before, j, v, start);
    } else if Closed(cs.L, before) {
      DrainedIsClosed(cs.L, before, j, v, ls, cs.known);
    }
  }

  /** Sets a cell and propagates; a cell already set is compared. */
  method Assign(cs: ConstraintSystem, j: nat, v: bool) returns (ok: bool)
    requires cs.Valid() && j < cs.L.n
    modifies cs
    ensures cs.Valid() && j in cs.known
    ensures j in old(cs.known) ==> cs.known == old(cs.known) && ok == (cs.known[j] == v)
    ensures j !in old(cs.known) ==>
      Extends(cs.known, old(cs.known)[j := v]) && Below(cs.L, old(cs.known)[j := v], cs.known) && cs.free < old(cs.free)
    ensures j !in old(cs.known) ==> Derives(cs.L, old(cs.known)[j := v], cs.known)
    ensures !ok ==> Refuted(cs.L, old(cs.known), j, v)
    ensures !ok && j !in old(cs.known) ==> Breaks(cs.L, old(cs.known), j, v)
    ensures ok && j !in old(cs.known) && Closed(cs.L, old(cs.known)) ==> Closed(cs.L, cs.known)
  {
    if j in cs.free {
      ok := AssignFree(cs, j, v);
    } else {
      ok := cs.known[j] == v;
    }
  }

  /** Tries a value and rolls the state back. */
  method Probe(cs: ConstraintSystem, j: nat, v: bool) returns (ok: bool)
    requires cs.Valid() && j in cs.free
    modifies cs
    ensures cs.Valid() && cs.Snapshot() == old(cs.Snapshot())
    ensures !ok ==> Refuted(cs.L, cs.known, j, v) && Breaks(cs.L, cs.known, j, v)
    ensures ok && Closed(cs.L, cs.known) ==> Survives(cs.L, cs.known, j, v)
  {
    var snap := cs.Snapshot();
    ok := Assign(cs, j, v);
    assert ok && Closed(cs.L, snap.known) ==> RestsAt(cs.L, snap.known, j, v, cs.known);
    cs.Restore(snap);
  }

  /** One pass. Returns -1 on a cell with no possible value, else the number of probed values it forced. */
  method SacPass(cs: ConstraintSystem) returns (forced: int)
    requires cs.Valid()
    modifies cs
    ensures cs.Valid() && -1 <= forced && Extends(cs.known, old(cs.known))
    ensures forced <= 0 ==> cs.Snapshot() == old(cs.Snapshot())
    ensures forced == -1 ==> !Satisfiable(cs.L, old(cs.known))
    ensures Entails(cs.L, old(cs.known), cs.known) && BelowSingleton(cs.L, old(cs.known), cs.known)
    ensures forced == 0 && Closed(cs.L, cs.known) ==> Standing(cs.L, cs.known, cs.known)
    ensures forced > 0 ==> forced + |cs.free| <= |old(cs.free)|
    ensures Closed(cs.L, old(cs.known)) && Satisfiable(cs.L, old(cs.known)) ==>
      Closed(cs.L, cs.known) && (forced > 0 ==> Pass(cs.L, old(cs.known), cs.known))
  {
    var bad, toForce := ProbeAll(cs);
    if bad {
      return -1;
    }
    ghost var before := cs.known;
    forced := ForceAll(cs, toForce);
    if Closed(cs.L, before) {
      SiftedStands(cs.L, before, toForce, cs.known);
      if toForce != [] {
        assert Fits(cs.L, before, toForce, 0) && Set(cs.known, toForce, 0);
      }
    }
  }

  lemma BothRefuted(L: LineSystem, known: Partial, j: nat)
    requires j < L.n && Refuted(L, known, j, false) && Refuted(L, known, j, true)
    ensures !Satisfiable(L, known)
  {
    forall x: Vec | Solution(L, x) ensures !Agrees(x, known) {
    }
  }

  type Forcings = seq<(nat, bool)>

  /** The listed cell is free, and a probe of its other value breaks a line. */
  ghost predicate Fits(L: LineSystem, known: Partial, toForce: Forcings, k: nat)
    requires |L.members| == |L.targets| && k < |toForce|
  {
    toForce[k].0 < L.n && toForce[k].0 !in known && Breaks(L, known, toForce[k].0, !toForce[k].1)
  }

  ghost predicate Justified(L: LineSystem, known: Partial, toForce: Forcings)
    requires |L.members| == |L.targets|
  {
    forall k :: 0 <= k < |toForce| ==> Fits(L, known, toForce, k)
  }

  ghost predicate Set(known: Partial, toForce: Forcings, k: nat)
    requires k < |toForce|
  {
    toForce[k].0 in known
  }

  ghost predicate Listed(toForce: Forcings, j: nat) {
    exists k :: 0 <= k < |toForce| && toForce[k].0 == j
  }

  function AddForcing(toForce: Forcings, j: nat, zero: bool, one: bool): Forcings {
    if !zero then toForce + [(j, true)] else if !one then toForce + [(j, false)] else toForce
  }

  lemma AddJustified(L: LineSystem, known: Partial, toForce: Forcings, j: nat, zero: bool, one: bool)
    requires |L.members| == |L.targets| && Justified(L, known, toForce) && j < L.n && j !in known
    requires (!zero ==> Breaks(L, known, j, false)) && (!one ==> Breaks(L, known, j, true))
    ensures Justified(L, known, AddForcing(toForce, j, zero, one))
  {
    var longer := AddForcing(toForce, j, zero, one);
    forall k | 0 <= k < |longer| ensures Fits(L, known, longer, k) {
      if k < |toForce| {
        assert Fits(L, known, toForce, k);
      }
    }
  }

  /** Every free cell below `n` is listed or survives both probes. */
  ghost predicate Sifted(L: LineSystem, known: Partial, toForce: Forcings, n: nat)
    requires |L.members| == |L.targets|
  {
    forall j: nat :: j < n && j !in known && !Listed(toForce, j) ==>
      Survives(L, known, j, false) && Survives(L, known, j, true)
  }

  lemma SiftedNext(L: LineSystem, known: Partial, toForce: Forcings, j: nat, zero: bool, one: bool)
    requires |L.members| == |L.targets| && Sifted(L, known, toForce, j)
    requires zero && one ==> Survives(L, known, j, false) && Survives(L, known, j, true)
    ensures Sifted(L, known, AddForcing(toForce, j, zero, one), j + 1)
  {
    var longer := AddForcing(toForce, j, zero, one);
    assert !zero || !one ==> longer[|toForce|].0 == j;
    forall i: nat | Listed(toForce, i) ensures Listed(longer, i) {
      var k :| 0 <= k < |toForce| && toForce[k].0 == i;
      assert longer[k].0 == i;
    }
  }

  /** Once the listed cells are set, the others stand. */
  lemma SiftedStands(L: LineSystem, known: Partial, toForce: Forcings, after: Partial)
    requires |L.members| == |L.targets| && Sifted(L, known, toForce, L.n) && Extends(after, known)
    requires forall k :: 0 <= k < |toForce| ==> Set(after, toForce, k)
    ensures Standing(L, known, after)
  {
    forall j: nat | Listed(toForce, j) ensures j in after {
      var k :| 0 <= k < |toForce| && toForce[k].0 == j;
      assert Set(after, toForce, k);
    }
  }

  method ProbeBoth(cs: ConstraintSystem, j: nat) returns (zero: bool, one: bool)
    requires cs.Valid() && j in cs.free
    modifies cs
    ensures cs.Valid() && cs.Snapshot() == old(cs.Snapshot())
    ensures !zero ==> Refuted(cs.L, cs.known, j, false) && Breaks(cs.L, cs.known, j, false)
    ensures !one ==> Refuted(cs.L, cs.known, j, true) && Breaks(cs.L, cs.known, j, true)
    ensures zero && one && Closed(cs.L, cs.known) ==>
      Survives(cs.L, cs.known, j, false) && Survives(cs.L, cs.known, j, true)
  {
    zero := Probe(cs, j, false);
    one := Probe(cs, j, true);
  }

  method ProbeAll(cs: ConstraintSystem) returns (bad: bool, toForce: Forcings)
    requires cs.Valid()
    modifies cs
    ensures cs.Valid() && cs.Snapshot() == old(cs.Snapshot())
    ensures bad ==> !Satisfiable(cs.L, cs.known)
    ensures !bad ==> Justified(cs.L, cs.known, toForce)
    ensures !bad && Closed(cs.L, cs.known) ==> Sifted(cs.L, cs.known, toForce, cs.L.n)
  {
    bad, toForce := false, [];
    ghost var L, known := cs.L, cs.known;
    for j := 0 to cs.L.n
      invariant cs.Valid() && cs.Snapshot() == old(cs.Snapshot())
      invariant Justified(L, known, toForce)
      invariant Closed(L, known) ==> Sifted(L, known, toForce, j)
    {
      if j in cs.free {
        var zero, one := ProbeBoth(cs, j);
        if !zero && !one {
          BothRefuted(L, known, j);
          return true, [];
        }
        AddJustified(L, known, toForce, j, zero, one);
        if Closed(L, known) {
          SiftedNext(L, known, toForce, j, zero, one);
        }
        toForce := AddForcing(toForce, j, zero, one);
      }
    }
  }

  /** Applies one forcing that is still open. */
  method ForceOne(cs: ConstraintSystem, ghost start: Partial, j: nat, v: bool)
    requires cs.Valid() && j in cs.free && j !in start && Breaks(cs.L, start, j, !v)
    requires Entails(cs.L, start, cs.known) && BelowSingleton(cs.L, start, cs.known)
    requires Closed(cs.L, start) && Satisfiable(cs.L, start) ==> Closed(cs.L, cs.known)
    modifies cs
    ensures cs.Valid() && Extends(cs.known, old(cs.known)) && j in cs.known && |cs.free| < |old(cs.free)|
    ensures Entails(cs.L, start, cs.known) && BelowSingleton(cs.L, start, cs.known)
    ensures Closed(cs.L, start) && Satisfiable(cs.L, start) ==> Closed(cs.L, cs.known)
  {
    ghost var before, beforeFree := cs.known, cs.free;
    var ok := Assign(cs, j, v);
    SubsetSize(cs.free, beforeFree);
    BreaksRefutes(cs.L, start, j, !v);
    ForcingEntails(cs.L, start, before, j, v, cs.known, ok);
    ForcingStaysBelow(cs.L, start, before, j, v, cs.known);
  }

  /** Applies the forcings still open; what earlier ones propagated is skipped. */
  method ForceAll(cs: ConstraintSystem, toForce: Forcings) returns (forced: nat)
    requires cs.Valid() && Justified(cs.L, cs.known, toForce)
    modifies cs
    ensures cs.Valid() && Extends(cs.known, old(cs.known))
    ensures Entails(cs.L, old(cs.known), cs.known) && BelowSingleton(cs.L, old(cs.known), cs.known)
    ensures forall k :: 0 <= k < |toForce| ==> Set(cs.known, toForce, k)
    ensures toForce == [] ==> forced == 0 && cs.Snapshot() == old(cs.Snapshot())
    ensures toForce != [] ==> forced > 0
    ensures forced + |cs.free| <= |old(cs.free)|
    ensures Closed(cs.L, old(cs.known)) && Satisfiable(cs.L, old(cs.known)) ==> Closed(cs.L, cs.known)
  {
    forced := 0;
    ghost var start, startFree := cs.known, cs.free;
    for k := 0 to |toForce|
      invariant cs.Valid() && Extends(cs.known, start)
      invariant Entails(cs.L, start, cs.known) && BelowSingleton(cs.L, start, cs.known)
      invariant forall i :: 0 <= i < k ==> Set(cs.known, toForce, i)
      invariant k == 0 ==> forced == 0 && cs.Snapshot() == old(cs.Snapshot())
      invariant k > 0 ==> forced > 0
      invariant forced + |cs.free| <= |startFree|
      invariant Closed(cs.L, start) && Satisfiable(cs.L, start) ==> Closed(cs.L, cs.known)
    {
      var (j, v) := toForce[k];
      assert Fits(cs.L, start, toForce, k);
      if j in cs.free {
        ghost var before := cs.known;
        ForceOne(cs, start, j, v);
        forced := forced + 1;
        SetGrows(before, cs.known, toForce, k);
      }
    }
  }

  lemma SetGrows(K: Partial, M: Partial, toForce: Forcings, n: nat)
    requires n <= |toForce| && (forall k :: 0 <= k < n ==> Set(K, toForce, k)) && Extends(M, K)
    ensures forall k :: 0 <= k < n ==> Set(M, toForce, k)
  {
    forall k | 0 <= k < n ensures Set(M, toForce, k) {
      assert Set(K, toForce, k);
    }
  }

  lemma ForcingEntails(L: LineSystem, start: Partial, before: Partial, j: nat, v: bool, after: Partial, ok: bool)
    requires L.Wf() && j < L.n && Entails(L, start, before) && Refuted(L, start, j, !v)
    requires Below(L, before[j := v], after) && (!ok ==> Refuted(L, before, j, v))
    ensures Entails(L, start, after)
    ensures Satisfiable(L, start) ==> ok
  {
    forall x: Vec | Solution(L, x) && Agrees(x, start) ensures Agrees(x, after) && ok {
      assert Agrees(x, before) && x[j] == v;
      BelowAgrees(L, before[j := v], after, x);
    }
  }

  /** Where a run on a satisfiable start can be after some passes that fixed something. */
  ghost function AfterPasses(L: LineSystem, start: Partial): iset<(Partial, nat)>
    requires |L.members| == |L.targets|
  {
    iset t: (Partial, nat) |
      Closed(L, t.0) && exists P: Partial :: LeastStable(L, start, P) && Steps(Passes(L), P, t.0, t.1)
  }

  lemma BeforePasses(L: LineSystem, start: Partial, P: Partial)
    requires |L.members| == |L.targets| && LeastStable(L, start, P)
    ensures (P, 0) in AfterPasses(L, start)
  {
    NoStep(Passes(L), P);
  }

  lemma OnePass(L: LineSystem, start: Partial, K: Partial, M: Partial, n: nat)
    requires |L.members| == |L.targets| && (K, n) in AfterPasses(L, start) && Pass(L, K, M)
    ensures (M, n + 1) in AfterPasses(L, start)
  {
    var P: Partial :| LeastStable(L, start, P) && Steps(Passes(L), P, K, n);
    NextStep(Passes(L), P, K, M, n);
  }

  /** Integer propagation, which fixes the least stable extension of a satisfiable start. */
  method Propagate(cs: ConstraintSystem)
    requires cs.Valid()
    modifies cs
    ensures cs.Valid() && Extends(cs.known, old(cs.known)) && cs.free <= old(cs.free)
    ensures Entails(cs.L, old(cs.known), cs.known) && BelowSingleton(cs.L, old(cs.known), cs.known)
    ensures Satisfiable(cs.L, old(cs.known)) ==> LeastStable(cs.L, old(cs.known), cs.known)
  {
    ghost var start := cs.known;
    var _, _ := cs.IntBound(true);
    BelowEntails(cs.L, start, cs.known);
    StableStaysBelow(cs.L, start, cs.known);
    forall x: Vec | Solution(cs.L, x) && Agrees(x, start) ensures LeastStable(cs.L, start, cs.known) {
      SolutionIsStable(cs.L, x, start);
    }
  }

  /** Integer propagation, then passes until one changes nothing, finds a contradiction or the limit is met. What is
      fixed holds in every solution and in every extension whose free cells can take both values. From a satisfiable
      start `passes` passes lead from the least stable extension to the state, as many as the limit says unless the last
      pass fixed nothing; then the state is the least extension whose free cells can take both values exactly if no
      probe comes to rest on a full line with a wrong sum, which is what the source does not look at. */
  method Run(cs: ConstraintSystem, maxIterations: nat) returns (last: int, ghost passes: nat)
    requires cs.Valid()
    modifies cs
    ensures cs.Valid() && Extends(cs.known, old(cs.known))
    ensures Entails(cs.L, old(cs.known), cs.known) && BelowSingleton(cs.L, old(cs.known), cs.known)
    ensures -1 <= last && (last == -1 ==> !Satisfiable(cs.L, old(cs.known)))
    ensures passes <= maxIterations && (last > 0 ==> passes == maxIterations)
    ensures passes + |cs.free| <= |old(cs.free)|
    ensures Satisfiable(cs.L, old(cs.known)) ==>
      exists P: Partial :: LeastStable(cs.L, old(cs.known), P) && Steps(Passes(cs.L), P, cs.known, passes)
    ensures Satisfiable(cs.L, old(cs.known)) && last == 0 ==>
      Stable(cs.L, old(cs.known), cs.known) && Standing(cs.L, cs.known, cs.known)
    ensures Satisfiable(cs.L, old(cs.known)) && last == 0 ==>
      (LeastSingleton(cs.L, old(cs.known), cs.known) <==> CleanProbes(cs.L, cs.known))
  {
    ghost var start, startFree := cs.known, cs.free;
    Propagate(cs);
    SubsetSize(cs.free, startFree);
    last, passes := 1, 0;
    if Satisfiable(cs.L, start) {
      BeforePasses(cs.L, start, cs.known);
    }
    for iteration := 0 to maxIterations
      invariant cs.Valid() && Extends(cs.known, start) && passes == iteration && last > 0
      invariant Entails(cs.L, start, cs.known) && BelowSingleton(cs.L, start, cs.known)
      invariant passes + |cs.free| <= |startFree|
      invariant Satisfiable(cs.L, start) ==> (cs.known, passes) in AfterPasses(cs.L, start)
    {
      ghost var before := cs.known;
      last := SacPass(cs);
      SatisfiableKept(cs.L, start, before);
      BelowSingletonChain(cs.L, start, before, cs.known);
      if last <= 0 {
        if last == 0 && Satisfiable(cs.L, start) {
          EndOfPasses(cs.L, start, cs.known, passes);
        }
        return;
      }
      if Satisfiable(cs.L, start) {
        OnePass(cs.L, start, before, cs.known, passes);
      }
      passes := passes + 1;
    }
  }

  lemma EndOfPasses(L: LineSystem, start: Partial, K: Partial, n: nat)
    requires L.Wf() && (K, n) in AfterPasses(L, start) && Satisfiable(L, K) && Standing(L, K, K)
    requires K.Keys <= Cells(L.n) && Extends(K, start) && BelowSingleton(L, start, K)
    ensures Stable(L, start, K) && (LeastSingleton(L, start, K) <==> CleanProbes(L, K))
  {
    var x: Vec :| Solution(L, x) && Agrees(x, K);
    SolutionIsStable(L, x, K);
    ClosedIsLeast(L, K, K, Total(x));
    StandingIsLeastIff(L, start, K);
  }

  lemma SatisfiableKept(L: LineSystem, start: Partial, known: Partial)
    requires Entails(L, start, known)
    ensures Satisfiable(L, start) ==> Satisfiable(L, known)
  {
  }
}
