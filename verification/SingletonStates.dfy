/** States that singleton arc consistency aims at: what a probe of one cell can do to a state, and the least state
    each free cell of which can still take both values. */
module SingletonStates {
  import opened Gf2
  import opened Lines
  import opened Paths

  /** Setting cell `j` to `v` and forcing lines can end at `K` with every line quiet. */
  ghost predicate RestsAt(L: LineSystem, known: Partial, j: nat, v: bool, K: Partial)
    requires |L.members| == |L.targets|
  {
    Derives(L, known[j := v], K) && Closed(L, K)
  }

  /** A probe of the value can come to rest. */
  ghost predicate Survives(L: LineSystem, known: Partial, j: nat, v: bool)
    requires |L.members| == |L.targets|
  {
    exists K: Partial :: RestsAt(L, known, j, v, K)
  }

  /** Setting cell `j` to `v` and forcing lines can bring a line out of range. */
  ghost predicate Breaks(L: LineSystem, known: Partial, j: nat, v: bool)
    requires |L.members| == |L.targets|
  {
    exists K: Partial, i :: Derives(L, known[j := v], K) && 0 <= i < |L.members| && OutOfRange(L, K, i)
  }

  /** No solution with the values of `known` has `v` at cell `j`. */
  ghost predicate Refuted(L: LineSystem, known: Partial, j: nat, v: bool) {
    forall x: Vec :: Solution(L, x) && Agrees(x, known) && j < |x| ==> x[j] != v
  }

  /** A value that a stable extension has never breaks a line. */
  lemma StableNeverBreaks(L: LineSystem, known: Partial, j: nat, v: bool, M: Partial)
    requires L.Wf() && Stable(L, known[j := v], M)
    ensures !Breaks(L, known, j, v)
  {
    if Breaks(L, known, j, v) {
      var K: Partial, i :| Derives(L, known[j := v], K) && 0 <= i < |L.members| && OutOfRange(L, K, i);
      DerivesIsSound(L, known[j := v], K);
      OutOfRangeIsFinal(L, known[j := v], K, i, M);
    }
  }

  /** Every value of a cell that `M` leaves free survives its probe on `K`. */
  ghost predicate Standing(L: LineSystem, K: Partial, M: Partial)
    requires |L.members| == |L.targets|
  {
    forall j: nat, v :: j < L.n && j !in M ==> Survives(L, K, j, v)
  }

  ghost predicate StableWith(L: LineSystem, E: Partial, j: nat, v: bool, M: Partial)
    requires |L.members| == |L.targets|
  {
    Stable(L, E[j := v], M)
  }

  /** The state with one more value has a stable extension. */
  ghost predicate Admits(L: LineSystem, E: Partial, j: nat, v: bool)
    requires |L.members| == |L.targets|
  {
    exists M: Partial :: StableWith(L, E, j, v, M)
  }

  /** Stable, and every free cell can still take both values. */
  ghost predicate SingletonStable(L: LineSystem, E: Partial)
    requires |L.members| == |L.targets|
  {
    Stable(L, map[], E) && forall j: nat, v :: j < L.n && j !in E ==> Admits(L, E, j, v)
  }

  ghost predicate BelowSingleton(L: LineSystem, start: Partial, K: Partial)
    requires |L.members| == |L.targets|
  {
    forall E: Partial :: SingletonStable(L, E) && Extends(E, start) ==> Extends(E, K)
  }

  ghost predicate LeastSingleton(L: LineSystem, start: Partial, K: Partial)
    requires |L.members| == |L.targets|
  {
    SingletonStable(L, K) && Extends(K, start) && BelowSingleton(L, start, K)
  }

  /** No probe of a free cell comes to rest on a full line with a wrong sum. */
  ghost predicate CleanProbes(L: LineSystem, K: Partial)
    requires |L.members| == |L.targets|
  {
    forall j: nat, v, M: Partial :: j < L.n && j !in K && RestsAt(L, K, j, v, M) ==> Legal(L, M)
  }

  /** One pass that fixes something: some probe breaks a line; every value of the cells left free survives; what is
      fixed lies below every extension whose free cells can take both values. */
  ghost predicate Pass(L: LineSystem, K: Partial, M: Partial)
    requires |L.members| == |L.targets|
  {
    && Extends(M, K) && BelowSingleton(L, K, M) && Standing(L, K, M) && Closed(L, M)
    && exists j: nat, v :: j < L.n && j !in K && j in M && Breaks(L, K, j, v)
  }

  ghost function Passes(L: LineSystem): (Partial, Partial) -> bool
    requires |L.members| == |L.targets|
  {
    (K: Partial, M: Partial) => Pass(L, K, M)
  }

  /** Breaking refutes. */
  lemma BreaksRefutes(L: LineSystem, known: Partial, j: nat, v: bool)
    requires L.Wf() && j !in known && Breaks(L, known, j, v)
    ensures Refuted(L, known, j, v)
  {
    forall x: Vec | Solution(L, x) && Agrees(x, known) && j < |x| ensures x[j] != v {
      if x[j] == v {
        SolutionIsStable(L, x, known[j := v]);
        StableNeverBreaks(L, known, j, v, Total(x));
      }
    }
  }

  /** A value that breaks a line is denied by every extension whose free cells can take both values. */
  lemma BrokenIsDenied(L: LineSystem, K: Partial, j: nat, v: bool, E: Partial)
    requires L.Wf() && j < L.n && Breaks(L, K, j, v) && j !in K && SingletonStable(L, E) && Extends(E, K)
    ensures j in E && E[j] == !v
  {
    if j in E && E[j] == v {
      StableNeverBreaks(L, K, j, v, E);
    } else if j !in E {
      assert Admits(L, E, j, v);
      var M: Partial :| StableWith(L, E, j, v, M);
      assert Extends(M, K[j := v]);
      StableNeverBreaks(L, K, j, v, M);
    }
  }

  /** What is derived from a value that must be taken lies below. */
  lemma ForcingStaysBelow(L: LineSystem, start: Partial, before: Partial, j: nat, v: bool, after: Partial)
    requires L.Wf() && j < L.n && j !in start && Breaks(L, start, j, !v)
    requires BelowSingleton(L, start, before) && Below(L, before[j := v], after)
    ensures BelowSingleton(L, start, after)
  {
    forall E: Partial | SingletonStable(L, E) && Extends(E, start) ensures Extends(E, after) {
      BrokenIsDenied(L, start, j, !v, E);
      assert Stable(L, before[j := v], E);
    }
  }

  lemma StableStaysBelow(L: LineSystem, start: Partial, K: Partial)
    requires |L.members| == |L.targets| && Below(L, start, K)
    ensures BelowSingleton(L, start, K)
  {
    forall E: Partial | SingletonStable(L, E) && Extends(E, start) ensures Extends(E, K) {
      assert Stable(L, start, E);
    }
  }

  lemma BelowSingletonChain(L: LineSystem, start: Partial, K: Partial, M: Partial)
    requires |L.members| == |L.targets| && BelowSingleton(L, start, K) && BelowSingleton(L, K, M)
    ensures BelowSingleton(L, start, M)
  {
  }

  lemma LeastSingletonUnique(L: LineSystem, start: Partial, K: Partial, M: Partial)
    requires |L.members| == |L.targets| && LeastSingleton(L, start, K) && LeastSingleton(L, start, M)
    ensures K == M
  {
    assert Extends(M, K) && Extends(K, M);
  }

  /** Chains of forced lines fix cells of the system only. */
  lemma {:induction false} ChainStaysInside(L: LineSystem, K: Partial, M: Partial, n: nat)
    requires L.Wf() && Steps(Forces(L), K, M, n) && K.Keys <= Cells(L.n)
    ensures Extends(M, K) && M.Keys <= Cells(L.n)
    decreases n
  {
    if n == 0 {
      NothingStepped(Forces(L), K, M);
    } else {
      var P := LastStep(Forces(L), K, M, n - 1);
      ChainStaysInside(L, K, P, n - 1);
      assert ForcedStep(L, P, M);
    }
  }

  lemma DerivedStaysInside(L: LineSystem, K: Partial, M: Partial)
    requires L.Wf() && Derives(L, K, M) && K.Keys <= Cells(L.n)
    ensures Extends(M, K) && M.Keys <= Cells(L.n)
  {
    var n: nat :| Steps(Forces(L), K, M, n);
    ChainStaysInside(L, K, M, n);
  }

  /** Where a probe comes to rest decides whether the value can be taken: exactly on a legal state. */
  lemma RestDecides(L: LineSystem, K: Partial, j: nat, v: bool, M: Partial)
    requires L.Wf() && K.Keys <= Cells(L.n) && j < L.n && RestsAt(L, K, j, v, M)
    ensures Legal(L, M) <==> Admits(L, K, j, v)
  {
    DerivedStaysInside(L, K[j := v], M);
    if Legal(L, M) {
      assert StableWith(L, K, j, v, M);
    }
    if Admits(L, K, j, v) {
      var N: Partial :| StableWith(L, K, j, v, N);
      DerivesIsSound(L, K[j := v], M);
      ClosedIsLeast(L, K[j := v], M, N);
    }
  }

  /** A stable state whose free cells survive both probes is the least extension of the start in which they can take
      both values exactly when no probe comes to rest on a full line with a wrong sum. */
  lemma StandingIsLeastIff(L: LineSystem, start: Partial, K: Partial)
    requires L.Wf() && Stable(L, start, K) && BelowSingleton(L, start, K) && Standing(L, K, K)
    ensures LeastSingleton(L, start, K) <==> CleanProbes(L, K)
  {
    if CleanProbes(L, K) {
      forall j: nat, v | j < L.n && j !in K ensures Admits(L, K, j, v) {
        assert Survives(L, K, j, v);
        var M: Partial :| RestsAt(L, K, j, v, M);
        RestDecides(L, K, j, v, M);
      }
    }
    if LeastSingleton(L, start, K) {
      forall j: nat, v, M: Partial | j < L.n && j !in K && RestsAt(L, K, j, v, M)
        ensures Legal(L, M)
      {
        RestDecides(L, K, j, v, M);
      }
    }
  }

  /** Being closed is not enough: for every cell a run has fixed, some full assignment that extends the start denies
      it, and that one is closed and has no free cell to probe. */
  lemma ClosedIsTooLittle(L: LineSystem, start: Partial, K: Partial, j: nat) returns (E: Partial)
    requires L.Wf() && start.Keys <= Cells(L.n) && j < L.n && j in K && j !in start
    ensures Extends(E, start) && Closed(L, E) && Standing(L, E, E) && !Extends(E, K)
  {
    E := map c | c in Cells(L.n) :: if c in start then start[c] else c == j && !K[j];
    forall i | 0 <= i < |L.members| ensures Quiet(L, E, i) {
      CountNone(L.members[i], Cells(L.n) - E.Keys);
    }
    assert j in E && E[j] != K[j];
  }

  /** Two lines: one of the cells 0, 1, 2 is one, and three of the cells 1 to 4 are. */
  const TWO_LINES: LineSystem := LineSystem(5, [[0, 1, 2], [1, 2, 3, 4]], [1, 3])

  lemma CountLast(front: seq<nat>, m: nat, s: set<nat>)
    ensures Count(front + [m], s) == Count(front, s) + if m in s then 1 else 0
  {
    assert (front + [m])[..|front|] == front;
  }

  lemma CountThree(a: nat, b: nat, c: nat, s: set<nat>)
    ensures Count([a, b, c], s) ==
      (if a in s then 1 else 0) + (if b in s then 1 else 0) + (if c in s then 1 else 0)
  {
    CountLast([], a, s);
    CountLast([a], b, s);
    CountLast([a, b], c, s);
    assert [] + [a] == [a] && [a] + [b] == [a, b] && [a, b] + [c] == [a, b, c];
  }

  lemma CountFour(a: nat, b: nat, c: nat, d: nat, s: set<nat>)
    ensures Count([a, b, c, d], s) == (if a in s then 1 else 0) + (if b in s then 1 else 0)
      + (if c in s then 1 else 0) + (if d in s then 1 else 0)
  {
    CountThree(a, b, c, s);
    CountLast([a, b, c], d, s);
    assert [a, b, c] + [d] == [a, b, c, d];
  }

  lemma TwoLinesResiduals(known: Partial)
    ensures TWO_LINES.Wf()
    ensures Rho(TWO_LINES, known, 0) == 1 - Count([0, 1, 2], Ones(known))
    ensures Rho(TWO_LINES, known, 1) == 3 - Count([1, 2, 3, 4], Ones(known))
    ensures U(TWO_LINES, known, 0) == Count([0, 1, 2], Cells(5) - known.Keys)
    ensures U(TWO_LINES, known, 1) == Count([1, 2, 3, 4], Cells(5) - known.Keys)
  {
    CountThree(0, 1, 2, Ones(known));
    CountThree(0, 1, 2, Cells(5) - known.Keys);
    CountFour(1, 2, 3, 4, Ones(known));
    CountFour(1, 2, 3, 4, Cells(5) - known.Keys);
  }

  lemma TwoLinesAtStart()
    ensures TWO_LINES.Wf() && Closed(TWO_LINES, NOTHING)
  {
    TwoLinesResiduals(NOTHING);
    CountThree(0, 1, 2, Ones(NOTHING));
    CountThree(0, 1, 2, Cells(5) - NOTHING.Keys);
    CountFour(1, 2, 3, 4, Ones(NOTHING));
    CountFour(1, 2, 3, 4, Cells(5) - NOTHING.Keys);
  }

  const NOTHING: Partial := map[]
  const PROBED: Partial := map[0 := true]
  const FORCED: Partial := map[0 := true, 1 := false, 2 := false]

  lemma TwoLinesProbed()
    ensures Forcing(TWO_LINES, PROBED, 0) && Rho(TWO_LINES, PROBED, 0) == 0 && !Forcing(TWO_LINES, PROBED, 1)
    ensures Force(PROBED, [0, 1, 2], false) == FORCED
  {
    TwoLinesResiduals(PROBED);
    CountThree(0, 1, 2, Ones(PROBED));
    CountThree(0, 1, 2, Cells(5) - PROBED.Keys);
    CountFour(1, 2, 3, 4, Ones(PROBED));
    CountFour(1, 2, 3, 4, Cells(5) - PROBED.Keys);
  }

  lemma TwoLinesForced()
    ensures !Forcing(TWO_LINES, FORCED, 0) && !Forcing(TWO_LINES, FORCED, 1) && OutOfRange(TWO_LINES, FORCED, 1)
  {
    TwoLinesResiduals(FORCED);
    CountThree(0, 1, 2, Ones(FORCED));
    CountThree(0, 1, 2, Cells(5) - FORCED.Keys);
    CountFour(1, 2, 3, 4, Ones(FORCED));
    CountFour(1, 2, 3, 4, Cells(5) - FORCED.Keys);
  }

  lemma StepFromProbed(M: Partial)
    requires ForcedStep(TWO_LINES, PROBED, M)
    ensures M == FORCED
  {
    TwoLinesProbed();
    var i :| 0 <= i < 2 && Forcing(TWO_LINES, PROBED, i)
      && M == Force(PROBED, TWO_LINES.members[i], Rho(TWO_LINES, PROBED, i) != 0);
    assert i == 0;
  }

  lemma NoStepFromForced(M: Partial)
    ensures !ForcedStep(TWO_LINES, FORCED, M)
  {
    TwoLinesForced();
    forall i | 0 <= i < |TWO_LINES.members| ensures !Forcing(TWO_LINES, FORCED, i) {
      assert i == 0 || i == 1;
    }
  }

  /** Every chain from the probe ends at the probe or at the state with the zeros forced. */
  lemma {:induction false} OnlyTwoStates(K: Partial, n: nat)
    requires Steps(Forces(TWO_LINES), PROBED, K, n)
    ensures K == PROBED || K == FORCED
    decreases n
  {
    if n > 0 {
      var P := LastStep(Forces(TWO_LINES), PROBED, K, n - 1);
      OnlyTwoStates(P, n - 1);
      if P == PROBED {
        StepFromProbed(K);
      } else {
        NoStepFromForced(K);
      }
    }
  }

  /** The empty state is closed, yet a one at cell 0 forces zeros at 1 and 2, and then nothing can be done but
      to report the second line: the probe does not survive. */
  lemma ProbeCanFail()
    ensures TWO_LINES.Wf() && Closed(TWO_LINES, NOTHING)
    ensures Breaks(TWO_LINES, NOTHING, 0, true) && !Survives(TWO_LINES, NOTHING, 0, true)
  {
    var L := TWO_LINES;
    TwoLinesAtStart();
    TwoLinesProbed();
    TwoLinesForced();
    assert NOTHING[0 := true] == PROBED;
    DerivesNothing(L, PROBED);
    assert ForcedStep(L, PROBED, FORCED);
    DerivesStep(L, PROBED, PROBED, FORCED);
    assert !Quiet(L, PROBED, 0) && !Quiet(L, FORCED, 1);
    forall K: Partial ensures !RestsAt(L, NOTHING, 0, true, K) {
      if RestsAt(L, NOTHING, 0, true, K) {
        var n: nat :| Steps(Forces(L), PROBED, K, n);
        OnlyTwoStates(K, n);
      }
    }
  }

  // ---- what the probes cannot see ----

  /** Two lines: one of the cells 0, 1, 2 is one, and one of the cells 1, 2 is. Cell 0 can only be zero. */
  const NESTED: LineSystem := LineSystem(3, [[0, 1, 2], [1, 2]], [1, 1])

  const EMPTIED: Partial := map[0 := true, 1 := false, 2 := false]

  lemma CountTwo(a: nat, b: nat, s: set<nat>)
    ensures Count([a, b], s) == (if a in s then 1 else 0) + (if b in s then 1 else 0)
  {
    CountLast([], a, s);
    CountLast([a], b, s);
    assert [] + [a] == [a] && [a] + [b] == [a, b];
  }

  lemma NestedResiduals(known: Partial)
    ensures NESTED.Wf()
    ensures Rho(NESTED, known, 0) == 1 - Count([0, 1, 2], Ones(known))
    ensures Rho(NESTED, known, 1) == 1 - Count([1, 2], Ones(known))
    ensures U(NESTED, known, 0) == Count([0, 1, 2], Cells(3) - known.Keys)
    ensures U(NESTED, known, 1) == Count([1, 2], Cells(3) - known.Keys)
  {
    CountThree(0, 1, 2, Ones(known));
    CountThree(0, 1, 2, Cells(3) - known.Keys);
    CountTwo(1, 2, Ones(known));
    CountTwo(1, 2, Cells(3) - known.Keys);
  }

  lemma NestedAtStart()
    ensures NESTED.Wf() && Closed(NESTED, NOTHING) && Legal(NESTED, NOTHING)
  {
    NestedResiduals(NOTHING);
    CountThree(0, 1, 2, Ones(NOTHING));
    CountThree(0, 1, 2, Cells(3) - NOTHING.Keys);
    CountTwo(1, 2, Ones(NOTHING));
    CountTwo(1, 2, Cells(3) - NOTHING.Keys);
  }

  lemma NestedProbed()
    ensures Forcing(NESTED, PROBED, 0) && Rho(NESTED, PROBED, 0) == 0
    ensures !Forcing(NESTED, PROBED, 1) && !OutOfRange(NESTED, PROBED, 0) && !OutOfRange(NESTED, PROBED, 1)
    ensures Force(PROBED, [0, 1, 2], false) == EMPTIED
  {
    NestedResiduals(PROBED);
    CountThree(0, 1, 2, Ones(PROBED));
    CountThree(0, 1, 2, Cells(3) - PROBED.Keys);
    CountTwo(1, 2, Ones(PROBED));
    CountTwo(1, 2, Cells(3) - PROBED.Keys);
  }

  lemma NestedEmptied()
    ensures U(NESTED, EMPTIED, 0) == 0 && U(NESTED, EMPTIED, 1) == 0 && Rho(NESTED, EMPTIED, 1) == 1
  {
    NestedResiduals(EMPTIED);
    CountThree(0, 1, 2, Ones(EMPTIED));
    CountThree(0, 1, 2, Cells(3) - EMPTIED.Keys);
    CountTwo(1, 2, Ones(EMPTIED));
    CountTwo(1, 2, Cells(3) - EMPTIED.Keys);
  }

  lemma NestedSolution(x: Vec)
    requires x == [false, true, false] || x == [false, false, true]
    ensures Solution(NESTED, x)
  {
    CountThree(0, 1, 2, Support(x));
    CountTwo(1, 2, Support(x));
  }

  /** Every chain from a one at cell 0 ends there or at the state with the zeros forced, and breaks no line. */
  lemma {:induction false} NestedChains(K: Partial, n: nat)
    requires Steps(Forces(NESTED), PROBED, K, n)
    ensures K == PROBED || K == EMPTIED
    decreases n
  {
    if n == 0 {
      NothingStepped(Forces(NESTED), PROBED, K);
    } else {
      var P := LastStep(Forces(NESTED), PROBED, K, n - 1);
      NestedChains(P, n - 1);
      NestedStep(P, K);
    }
  }

  lemma NestedStep(P: Partial, M: Partial)
    requires (P == PROBED || P == EMPTIED) && ForcedStep(NESTED, P, M)
    ensures M == EMPTIED
  {
    NestedProbed();
    NestedEmptied();
    var i :| 0 <= i < 2 && Forcing(NESTED, P, i) && M == Force(P, NESTED.members[i], Rho(NESTED, P, i) != 0);
    assert i == 0 || i == 1;
  }

  /** The value that cannot be taken breaks no line. */
  lemma NestedNeverBreaks(j: nat, v: bool)
    requires j < 3
    ensures !Breaks(NESTED, NOTHING, j, v)
  {
    NestedAtStart();
    if j == 0 && v {
      NestedProbed();
      NestedEmptied();
      assert NOTHING[0 := true] == PROBED;
      forall K: Partial, i | 0 <= i < 2 && Derives(NESTED, PROBED, K) ensures !OutOfRange(NESTED, K, i) {
        var n: nat :| Steps(Forces(NESTED), PROBED, K, n);
        NestedChains(K, n);
        assert i == 0 || i == 1;
      }
    } else {
      var x := if j == 0 || (j == 1) == v then [false, true, false] else [false, false, true];
      NestedSolution(x);
      SolutionIsStable(NESTED, x, NOTHING[j := v]);
      StableNeverBreaks(NESTED, NOTHING, j, v, Total(x));
    }
  }

  /** A solvable input on which no pass fixes anything, so that every run ends where it starts, although one value of
      a free cell has no stable extension: its probe comes to rest on a full line with a wrong sum. */
  lemma BlindSpot(K: Partial, n: nat)
    ensures NESTED.Wf() && Satisfiable(NESTED, NOTHING) && LeastStable(NESTED, NOTHING, NOTHING)
    ensures RestsAt(NESTED, NOTHING, 0, true, EMPTIED) && !CleanProbes(NESTED, NOTHING)
    ensures !Admits(NESTED, NOTHING, 0, true) && !SingletonStable(NESTED, NOTHING)
    ensures Steps(Passes(NESTED), NOTHING, K, n) ==> n == 0 && K == NOTHING
  {
    NestedAtStart();
    NestedRests();
    NestedSolution([false, true, false]);
    assert Satisfiable(NESTED, NOTHING);
    RestDecides(NESTED, NOTHING, 0, true, EMPTIED);
    if Steps(Passes(NESTED), NOTHING, K, n) {
      NoPass(K, n);
    }
  }

  lemma NestedRests()
    ensures RestsAt(NESTED, NOTHING, 0, true, EMPTIED) && !Legal(NESTED, EMPTIED)
  {
    var L := NESTED;
    NestedProbed();
    NestedEmptied();
    assert NOTHING[0 := true] == PROBED;
    DerivesNothing(L, PROBED);
    assert ForcedStep(L, PROBED, EMPTIED);
    DerivesStep(L, PROBED, PROBED, EMPTIED);
    forall i | 0 <= i < 2 ensures Quiet(L, EMPTIED, i) {
      assert i == 0 || i == 1;
    }
  }

  lemma NoPass(K: Partial, n: nat)
    requires Steps(Passes(NESTED), NOTHING, K, n)
    ensures n == 0 && K == NOTHING
    decreases n
  {
    if n == 0 {
      NothingStepped(Passes(NESTED), NOTHING, K);
    } else {
      var P := LastStep(Passes(NESTED), NOTHING, K, n - 1);
      NoPass(P, n - 1);
      var j: nat, v :| j < 3 && j !in P && j in K && Breaks(NESTED, P, j, v);
      NestedNeverBreaks(j, v);
      assert false;
    }
  }
}
