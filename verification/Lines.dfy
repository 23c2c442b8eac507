/** Line systems: each line is a list of distinct cells with a target sum.
    A partial assignment fixes some cells; `Rho` and `U` are the residual of a line
    and its number of unfixed cells. */
module Lines {
  import opened Gf2
  import opened Paths

  datatype LineSystem = LineSystem(n: nat, members: seq<seq<nat>>, targets: seq<int>) {
    ghost predicate Wf() {
      && |members| == |targets|
      && forall i :: 0 <= i < |members| ==>
           Distinct(members[i]) && forall k :: 0 <= k < |members[i]| ==> members[i][k] < n
    }
  }

  type Partial = map<nat, bool>

  ghost predicate Distinct(s: seq<nat>) {
    forall i, j :: 0 <= i < j < |s| ==> s[i] != s[j]
  }

  /** How many entries of `ms` lie in `s`. */
  function Count(ms: seq<nat>, s: set<nat>): (c: nat)
    ensures c <= |ms|
  {
    if ms == [] then 0 else Count(ms[..|ms| - 1], s) + if ms[|ms| - 1] in s then 1 else 0
  }

  predicate Within(j: nat, n: nat) {
    j < n
  }

  function Cells(n: nat): (s: set<nat>)
    ensures forall j: nat :: j in s <==> j < n
  {
    set j: nat | j < n && Within(j, n)
  }

  lemma {:induction false} CellsSize(n: nat)
    ensures |Cells(n)| == n
  {
    if n > 0 {
      CellsSize(n - 1);
      assert Cells(n) == Cells(n - 1) + {n - 1};
    } else {
      assert Cells(0) == {};
    }
  }

  function Ones(known: Partial): (s: set<nat>)
    ensures forall j :: j in s <==> j in known && known[j]
  {
    set j | j in known && known[j]
  }

  function Zeros(known: Partial): (s: set<nat>)
    ensures forall j :: j in s <==> j in known && !known[j]
  {
    set j | j in known && !known[j]
  }

  function Support(x: Vec): (s: set<nat>)
    ensures forall j: nat :: j in s <==> j < |x| && x[j]
  {
    set j: nat | j in Cells(|x|) && x[j]
  }

  function Rho(L: LineSystem, known: Partial, i: nat): int
    requires i < |L.members| && i < |L.targets|
  {
    L.targets[i] - Count(L.members[i], Ones(known))
  }

  function U(L: LineSystem, known: Partial, i: nat): nat
    requires i < |L.members|
  {
    Count(L.members[i], Cells(L.n) - known.Keys)
  }

  /** A 0/1 assignment of all cells that meets every line target. */
  ghost predicate Solution(L: LineSystem, x: Vec) {
    && |x| == L.n && |L.members| == |L.targets|
    && forall i :: 0 <= i < |L.members| ==> Count(L.members[i], Support(x)) == L.targets[i]
  }

  /** `x` has the values that `known` fixes. */
  ghost predicate Agrees(x: Vec, known: Partial) {
    forall j :: j in known ==> j < |x| && x[j] == known[j]
  }

  ghost predicate Extends(K: Partial, known: Partial) {
    forall j :: j in known ==> j in K && K[j] == known[j]
  }

  ghost predicate Satisfiable(L: LineSystem, known: Partial) {
    exists x: Vec :: Solution(L, x) && Agrees(x, known)
  }

  /** Every solution with the values of `known` has those of `K` too. */
  ghost predicate Entails(L: LineSystem, known: Partial, K: Partial) {
    forall x: Vec :: Solution(L, x) && Agrees(x, known) ==> Agrees(x, K)
  }

  ghost predicate OutOfRange(L: LineSystem, known: Partial, i: nat)
    requires i < |L.members| && |L.members| == |L.targets|
  {
    U(L, known, i) > 0 && (Rho(L, known, i) < 0 || Rho(L, known, i) > U(L, known, i))
  }

  /** The line forces its unfixed cells. */
  ghost predicate Forcing(L: LineSystem, known: Partial, i: nat)
    requires i < |L.members| && |L.members| == |L.targets|
  {
    U(L, known, i) > 0 && (Rho(L, known, i) == 0 || Rho(L, known, i) == U(L, known, i))
  }

  /** Neither forcing nor out of range: 0 < rho < u, or no unfixed cell is left. */
  ghost predicate Quiet(L: LineSystem, known: Partial, i: nat)
    requires i < |L.members| && |L.members| == |L.targets|
  {
    U(L, known, i) > 0 ==> 0 < Rho(L, known, i) < U(L, known, i)
  }

  ghost predicate Closed(L: LineSystem, known: Partial)
    requires |L.members| == |L.targets|
  {
    forall i :: 0 <= i < |L.members| ==> Quiet(L, known, i)
  }

  /** Every line is quiet, or one is out of range. */
  ghost predicate AtRest(L: LineSystem, known: Partial)
    requires |L.members| == |L.targets|
  {
    Closed(L, known) || exists i :: 0 <= i < |L.members| && OutOfRange(L, known, i)
  }

  /** Every residual lies between zero and the number of unfixed cells. */
  ghost predicate Legal(L: LineSystem, known: Partial)
    requires |L.members| == |L.targets|
  {
    forall i :: 0 <= i < |L.members| ==> 0 <= Rho(L, known, i) <= U(L, known, i)
  }

  /** `M` extends `known`, breaks no line and forces nothing further. */
  ghost predicate Stable(L: LineSystem, known: Partial, M: Partial)
    requires |L.members| == |L.targets|
  {
    Extends(M, known) && M.Keys <= Cells(L.n) && Closed(L, M) && Legal(L, M)
  }

  /** `K` lies below every stable extension of `known`. */
  ghost predicate Below(L: LineSystem, known: Partial, K: Partial)
    requires |L.members| == |L.targets|
  {
    forall M: Partial :: Stable(L, known, M) ==> Extends(M, K)
  }

  /** `K` is the least stable extension of `known`. */
  ghost predicate LeastStable(L: LineSystem, known: Partial, K: Partial)
    requires |L.members| == |L.targets|
  {
    Stable(L, known, K) && Below(L, known, K)
  }

  // ---- counting ----

  lemma {:induction false} CountSplit(ms: seq<nat>, a: set<nat>, b: set<nat>)
    requires a !! b
    ensures Count(ms, a + b) == Count(ms, a) + Count(ms, b)
  {
    if ms != [] {
      CountSplit(ms[..|ms| - 1], a, b);
    }
  }

  lemma {:induction false} CountEqual(ms: seq<nat>, a: set<nat>, b: set<nat>)
    requires forall k :: 0 <= k < |ms| ==> (ms[k] in a <==> ms[k] in b)
    ensures Count(ms, a) == Count(ms, b)
  {
    if ms != [] {
      CountEqual(ms[..|ms| - 1], a, b);
    }
  }

  lemma {:induction false} CountNone(ms: seq<nat>, s: set<nat>)
    ensures Count(ms, s) == 0 <==> forall k :: 0 <= k < |ms| ==> ms[k] !in s
  {
    if ms != [] {
      CountNone(ms[..|ms| - 1], s);
      if Count(ms, s) != 0 && ms[|ms| - 1] !in s {
        var k :| 0 <= k < |ms| - 1 && ms[..|ms| - 1][k] in s;
        assert ms[k] in s;
      }
    }
  }

  lemma {:induction false} CountAll(ms: seq<nat>, s: set<nat>)
    requires forall k :: 0 <= k < |ms| ==> ms[k] in s
    ensures Count(ms, s) == |ms|
  {
    if ms != [] {
      CountAll(ms[..|ms| - 1], s);
    }
  }

  /** A subset with the same count has the same members on the line. */
  lemma CountSubset(ms: seq<nat>, a: set<nat>, b: set<nat>)
    requires a <= b
    ensures Count(ms, a) <= Count(ms, b)
    ensures Count(ms, a) == Count(ms, b) ==> forall k :: 0 <= k < |ms| && ms[k] in b ==> ms[k] in a
  {
    CountSplit(ms, a, b - a);
    assert a + (b - a) == b;
    CountNone(ms, b - a);
  }

  lemma {:induction false} CountOne(ms: seq<nat>, j: nat)
    requires Distinct(ms)
    ensures Count(ms, {j}) == if j in ms then 1 else 0
  {
    if ms != [] {
      var front := ms[..|ms| - 1];
      CountOne(front, j);
      assert ms == front + [ms[|ms| - 1]];
    }
  }

  // ---- one more fixed cell ----

  lemma AssignRhoU(L: LineSystem, known: Partial, j: nat, v: bool, i: nat)
    requires L.Wf() && i < |L.members| && j < L.n && j !in known
    ensures Rho(L, known[j := v], i) == Rho(L, known, i) - if j in L.members[i] then BitToInt(v) else 0
    ensures U(L, known[j := v], i) == U(L, known, i) - if j in L.members[i] then 1 else 0
  {
    var ms, K := L.members[i], known[j := v];
    CountOne(ms, j);
    if v {
      assert Ones(K) == Ones(known) + {j};
      CountSplit(ms, Ones(known), {j});
    } else {
      assert Ones(K) == Ones(known);
    }
    assert Cells(L.n) - known.Keys == (Cells(L.n) - K.Keys) + {j};
    CountSplit(ms, Cells(L.n) - K.Keys, {j});
  }

  /** Fixing cells that are not on the line leaves its residual and count alone. */
  lemma UntouchedLine(L: LineSystem, known: Partial, K: Partial, i: nat)
    requires L.Wf() && i < |L.members| && Extends(K, known)
    requires forall j :: j in L.members[i] ==> (j in K <==> j in known)
    ensures Rho(L, K, i) == Rho(L, known, i) && U(L, K, i) == U(L, known, i)
  {
    CountEqual(L.members[i], Ones(K), Ones(known));
    CountEqual(L.members[i], Cells(L.n) - K.Keys, Cells(L.n) - known.Keys);
  }

  // ---- what a line tells about the extensions ----

  /** u - rho counts the zeros still to place: it falls only when a zero is fixed. */
  lemma GapIsZeros(L: LineSystem, known: Partial, i: nat)
    requires L.Wf() && i < |L.members| && known.Keys <= Cells(L.n)
    ensures U(L, known, i) - Rho(L, known, i) == |L.members[i]| - L.targets[i] - Count(L.members[i], Zeros(known))
  {
    var ms := L.members[i];
    CountAll(ms, Cells(L.n));
    CountSplit(ms, Ones(known), Zeros(known));
    CountSplit(ms, known.Keys, Cells(L.n) - known.Keys);
    assert Ones(known) + Zeros(known) == known.Keys;
    assert known.Keys + (Cells(L.n) - known.Keys) == Cells(L.n);
  }

  /** Fixing more cells only lowers rho and u - rho; where one of them stays, no cell of that value was added. */
  lemma ResidualsFall(L: LineSystem, known: Partial, M: Partial, i: nat)
    requires L.Wf() && i < |L.members| && Extends(M, known) && M.Keys <= Cells(L.n)
    ensures Rho(L, M, i) <= Rho(L, known, i)
    ensures U(L, M, i) - Rho(L, M, i) <= U(L, known, i) - Rho(L, known, i)
    ensures Rho(L, M, i) == Rho(L, known, i) ==>
      forall j :: j in L.members[i] && j in M && j !in known ==> !M[j]
    ensures U(L, M, i) - Rho(L, M, i) == U(L, known, i) - Rho(L, known, i) ==>
      forall j :: j in L.members[i] && j in M && j !in known ==> M[j]
  {
    GapIsZeros(L, known, i);
    GapIsZeros(L, M, i);
    CountSubset(L.members[i], Ones(known), Ones(M));
    CountSubset(L.members[i], Zeros(known), Zeros(M));
  }

  lemma OutOfRangeIsFinal(L: LineSystem, start: Partial, known: Partial, i: nat, M: Partial)
    requires L.Wf() && i < |L.members| && OutOfRange(L, known, i) && Below(L, start, known)
    ensures !Stable(L, start, M)
  {
    if Stable(L, start, M) {
      ResidualsFall(L, known, M, i);
    }
  }

  lemma UPositive(L: LineSystem, known: Partial, i: nat)
    requires L.Wf() && i < |L.members|
    ensures U(L, known, i) == 0 <==> forall j :: j in L.members[i] ==> j in known
  {
    CountNone(L.members[i], Cells(L.n) - known.Keys);
    if forall k :: 0 <= k < |L.members[i]| ==> L.members[i][k] !in Cells(L.n) - known.Keys {
      forall j | j in L.members[i] ensures j in known {
        var k :| 0 <= k < |L.members[i]| && L.members[i][k] == j;
      }
    }
  }

  /** `known` with the unfixed cells of `ms` set to `v`. */
  ghost function Force(known: Partial, ms: seq<nat>, v: bool): (K: Partial)
    ensures Extends(K, known) && K.Keys == known.Keys + (set j | j in ms)
    ensures forall j :: j in ms && j !in known ==> K[j] == v
  {
    map j | j in known.Keys + (set k | k in ms) :: if j in known then known[j] else v
  }

  /** A forced line fixes nothing that a stable extension denies. */
  lemma ForceIsSound(L: LineSystem, start: Partial, known: Partial, i: nat, v: bool)
    requires L.Wf() && i < |L.members| && Forcing(L, known, i)
    requires v == (Rho(L, known, i) != 0)
    requires Below(L, start, known)
    ensures Below(L, start, Force(known, L.members[i], v))
  {
    forall M: Partial | Stable(L, start, M) ensures Extends(M, Force(known, L.members[i], v)) {
      ResidualsFall(L, known, M, i);
      assert Quiet(L, M, i);
      UPositive(L, M, i);
    }
  }

  // ---- chains of forced lines ----

  /** One line that forces its unfixed cells does so. */
  ghost predicate ForcedStep(L: LineSystem, K: Partial, M: Partial)
    requires |L.members| == |L.targets|
  {
    exists i :: 0 <= i < |L.members| && Forcing(L, K, i) && M == Force(K, L.members[i], Rho(L, K, i) != 0)
  }

  ghost function Forces(L: LineSystem): (Partial, Partial) -> bool
    requires |L.members| == |L.targets|
  {
    (K: Partial, M: Partial) => ForcedStep(L, K, M)
  }

  /** A chain of forced lines leads from `K` to `M`. */
  ghost predicate Derives(L: LineSystem, K: Partial, M: Partial)
    requires |L.members| == |L.targets|
  {
    Leads(Forces(L), K, M)
  }

  lemma DerivesNothing(L: LineSystem, K: Partial)
    requires |L.members| == |L.targets|
    ensures Derives(L, K, K)
  {
    NoStep(Forces(L), K);
  }

  lemma DerivesStep(L: LineSystem, K: Partial, M: Partial, N: Partial)
    requires |L.members| == |L.targets| && Derives(L, K, M) && ForcedStep(L, M, N)
    ensures Derives(L, K, N)
  {
    var n: nat :| Steps(Forces(L), K, M, n);
    NextStep(Forces(L), K, M, N, n);
  }

  /** What a chain derives, every stable extension has. */
  lemma {:induction false} ChainIsSound(L: LineSystem, K: Partial, M: Partial, n: nat)
    requires L.Wf() && Steps(Forces(L), K, M, n)
    ensures Below(L, K, M)
    decreases n
  {
    if n > 0 {
      var P := LastStep(Forces(L), K, M, n - 1);
      ChainIsSound(L, K, P, n - 1);
      var i :| 0 <= i < |L.members| && Forcing(L, P, i) && M == Force(P, L.members[i], Rho(L, P, i) != 0);
      ForceIsSound(L, K, P, i, Rho(L, P, i) != 0);
    }
  }

  lemma DerivesIsSound(L: LineSystem, K: Partial, M: Partial)
    requires L.Wf() && Derives(L, K, M)
    ensures Below(L, K, M)
  {
    var n: nat :| Steps(Forces(L), K, M, n);
    ChainIsSound(L, K, M, n);
  }

  // ---- solutions are stable extensions ----

  function Total(x: Vec): (K: Partial)
    ensures K.Keys == Cells(|x|) && Agrees(x, K)
  {
    map j | j in Cells(|x|) :: x[j]
  }

  lemma SolutionIsStable(L: LineSystem, x: Vec, known: Partial)
    requires L.Wf() && Solution(L, x) && Agrees(x, known)
    ensures Stable(L, known, Total(x))
  {
    var M := Total(x);
    assert Ones(M) == Support(x);
    forall i | 0 <= i < |L.members| ensures Rho(L, M, i) == 0 && U(L, M, i) == 0 {
      CountNone(L.members[i], Cells(L.n) - M.Keys);
    }
  }

  /** In a solution the residual is the number of ones among the unfixed cells. */
  lemma ResidualIsFreeOnes(L: LineSystem, known: Partial, x: Vec, i: nat)
    requires L.Wf() && i < |L.members| && Solution(L, x) && Agrees(x, known)
    ensures Rho(L, known, i) == Count(L.members[i], Support(x) - known.Keys)
  {
    assert Support(x) == Ones(known) + (Support(x) - known.Keys);
    CountSplit(L.members[i], Ones(known), Support(x) - known.Keys);
  }

  lemma BelowAgrees(L: LineSystem, known: Partial, K: Partial, x: Vec)
    requires L.Wf() && Below(L, known, K) && Solution(L, x) && Agrees(x, known)
    ensures Agrees(x, K)
  {
    SolutionIsStable(L, x, known);
    assert Extends(Total(x), K);
  }

  /** Whatever lies below the stable extensions holds in every solution. */
  lemma BelowEntails(L: LineSystem, known: Partial, K: Partial)
    requires L.Wf() && Below(L, known, K)
    ensures Entails(L, known, K)
  {
    forall x: Vec | Solution(L, x) && Agrees(x, known) ensures Agrees(x, K) {
      BelowAgrees(L, known, K, x);
    }
  }

  // ---- the outcome of the forcing cascade ----

  /** The forcing cascade has one outcome: two least stable extensions are equal. */
  lemma LeastStableUnique(L: LineSystem, known: Partial, K: Partial, M: Partial)
    requires L.Wf() && LeastStable(L, known, K) && LeastStable(L, known, M)
    ensures K == M
  {
    assert Extends(M, K) && Extends(K, M);
  }

  /** A closed state reached by forcing is the least stable extension as soon as any stable extension exists. */
  lemma ClosedIsLeast(L: LineSystem, start: Partial, known: Partial, M: Partial)
    requires L.Wf() && Extends(known, start) && known.Keys <= Cells(L.n)
    requires Below(L, start, known) && Closed(L, known) && Stable(L, start, M)
    ensures LeastStable(L, start, known)
  {
    forall i | 0 <= i < |L.members| ensures 0 <= Rho(L, known, i) <= U(L, known, i) {
      assert Quiet(L, known, i);
      if U(L, known, i) == 0 {
        UPositive(L, known, i);
        UntouchedLine(L, known, M, i);
      }
    }
  }
}
