/** The combinator fixpoint: elimination over GF(2), integer propagation and cross deduction,
    each feeding the cells it fixes back into the linear system, until an iteration gains nothing. */
module Fixpoint {
  import opened Arithmetic
  import opened Gf2
  import opened Elimination
  import opened SolutionSpace
  import opened Lines
  import opened JointStates
  import opened Paths
  import opened Propagation
  import opened Deduction

  /** For vectors with the fixed values the two systems have the same solutions. */
  ghost predicate Equivalent(G: seq<Vec>, b: Vec, H: seq<Vec>, c: Vec, n: nat, known: Partial)
    requires Shape(G, b, n) && Shape(H, c, n)
  {
    forall x: Vec :: |x| == n && Agrees(x, known) ==> (Sat(G, b, x) <==> Sat(H, c, x))
  }

  /** The columns of fixed cells are zero. */
  ghost predicate Cleared(G: seq<Vec>, known: Partial) {
    forall i, j :: 0 <= i < |G| && j in known && j < |G[i]| ==> !G[i][j]
  }

  /** Meets every line target and every equation. */
  ghost predicate JointSolution(L: LineSystem, G: seq<Vec>, b: Vec, x: Vec)
    requires Shape(G, b, L.n)
  {
    Solution(L, x) && Sat(G, b, x)
  }

  ghost predicate JointEntails(L: LineSystem, G: seq<Vec>, b: Vec, known: Partial)
    requires Shape(G, b, L.n)
  {
    forall x: Vec :: JointSolution(L, G, b, x) ==> Agrees(x, known)
  }

  ghost predicate HasJointSolution(L: LineSystem, G: seq<Vec>, b: Vec)
    requires Shape(G, b, L.n)
  {
    exists x: Vec :: JointSolution(L, G, b, x)
  }

  // ---- substitution ----

  lemma SubstitutionKeeps(G: seq<Vec>, b: Vec, H: seq<Vec>, c: Vec, n: nat, j: nat, v: bool, x: Vec)
    requires Shape(G, b, n) && Shape(H, c, n) && |G| == |H| && j < n
    requires forall i :: 0 <= i < |G| ==> H[i] == G[i][j := false] && c[i] == (b[i] != (v && G[i][j]))
    requires |x| == n && x[j] == v
    ensures Sat(G, b, x) <==> Sat(H, c, x)
  {
    forall i | 0 <= i < |G| ensures (Dot(G[i], x) == b[i]) <==> (Dot(H[i], x) == c[i]) {
      DotClearTo(G[i], x, j, n);
    }
    if Sat(H, c, x) {
      forall i | 0 <= i < |G| ensures Dot(G[i], x) == b[i] {
        assert Dot(H[i], x) == c[i];
      }
    }
  }

  /** Substitutes one cell: its column moves to the right-hand side. */
  method SubstituteCell(G: array<Vec>, b: array<bool>, n: nat, j: nat, v: bool)
    requires Shape(G[..], b[..], n) && j < n
    modifies G, b
    ensures Shape(G[..], b[..], n)
    ensures forall i :: 0 <= i < G.Length ==> G[i] == old(G[i])[j := false]
    ensures Equivalent(old(G[..]), old(b[..]), G[..], b[..], n, map[j := v])
  {
    for i := 0 to G.Length
      invariant Shape(G[..], b[..], n)
      invariant forall k :: 0 <= k < i ==> G[k] == old(G[k])[j := false] && b[k] == (old(b[k]) != (v && old(G[k])[j]))
      invariant forall k :: i <= k < G.Length ==> G[k] == old(G[k]) && b[k] == old(b[k])
    {
      assert |G[..][i]| == n;
      if v && G[i][j] {
        b[i] := !b[i];
      }
      G[i] := G[i][j := false];
    }
    forall x: Vec | |x| == n && Agrees(x, map[j := v])
      ensures Sat(old(G[..]), old(b[..]), x) <==> Sat(G[..], b[..], x)
    {
      assert j in map[j := v];
      SubstitutionKeeps(old(G[..]), old(b[..]), G[..], b[..], n, j, v, x);
    }
  }

  /** `H` is `G` with the columns in `keys` cleared. */
  ghost predicate Masked(G: seq<Vec>, H: seq<Vec>, n: nat, keys: set<nat>) {
    |H| == |G| && forall i :: 0 <= i < |G| ==> MaskedRow(G[i], H[i], n, keys)
  }

  ghost predicate MaskedRow(a: Vec, c: Vec, n: nat, keys: set<nat>) {
    |a| == |c| == n && forall j :: 0 <= j < n ==> c[j] == (j !in keys && a[j])
  }

  lemma MaskStep(G: seq<Vec>, H: seq<Vec>, K: seq<Vec>, n: nat, keys: set<nat>, j: nat)
    requires Masked(G, H, n, keys) && |K| == |H| && j < n
    requires forall i :: 0 <= i < |H| ==> K[i] == H[i][j := false]
    ensures Masked(G, K, n, keys + {j})
  {
    forall i | 0 <= i < |G| ensures MaskedRow(G[i], K[i], n, keys + {j}) {
      assert MaskedRow(G[i], H[i], n, keys);
    }
  }

  /** Substitutes a batch of fixed cells, in any order. */
  method PropagateGf2(G: array<Vec>, b: array<bool>, n: nat, newly: Partial)
    requires Shape(G[..], b[..], n) && newly.Keys <= Cells(n)
    modifies G, b
    ensures Shape(G[..], b[..], n)
    ensures Equivalent(old(G[..]), old(b[..]), G[..], b[..], n, newly)
    ensures Masked(old(G[..]), G[..], n, newly.Keys)
  {
    var todo := newly.Keys;
    while todo != {}
      invariant todo <= newly.Keys && Shape(G[..], b[..], n)
      invariant Equivalent(old(G[..]), old(b[..]), G[..], b[..], n, newly)
      invariant Masked(old(G[..]), G[..], n, newly.Keys - todo)
    {
      var j :| j in todo;
      todo := todo - {j};
      ghost var H, c := G[..], b[..];
      SubstituteCell(G, b, n, j, newly[j]);
      EquivalentChain(old(G[..]), old(b[..]), H, c, G[..], b[..], n, newly, map[j := newly[j]], newly);
      MaskStep(old(G[..]), H, G[..], n, newly.Keys - todo - {j}, j);
      assert newly.Keys - todo - {j} + {j} == newly.Keys - todo;
    }
    assert newly.Keys - todo == newly.Keys;
  }

  lemma EquivalentChain(G: seq<Vec>, b: Vec, H: seq<Vec>, c: Vec, K: seq<Vec>, d: Vec, n: nat,
                        known: Partial, newly: Partial, all: Partial)
    requires Shape(G, b, n) && Shape(H, c, n) && Shape(K, d, n)
    requires Equivalent(G, b, H, c, n, known) && Equivalent(H, c, K, d, n, newly)
    requires Extends(all, known) && Extends(all, newly)
    ensures Equivalent(G, b, K, d, n, all)
  {
    forall x: Vec | |x| == n && Agrees(x, all) ensures Sat(G, b, x) <==> Sat(K, d, x) {
      assert Agrees(x, known) && Agrees(x, newly);
    }
  }

  // ---- the elimination phase ----

  /** What the linear system alone determines, read from a reduced copy. */
  method SolveLinear(G: array<Vec>, b: array<bool>, n: nat) returns (det: Partial)
    requires Shape(G[..], b[..], n)
    ensures det.Keys <= Cells(n)
    ensures forall x: Vec :: |x| == n && Sat(G[..], b[..], x) ==> Agrees(x, det)
    ensures forall x: Vec, j: nat :: |x| == n && Sat(G[..], b[..], x) && j < n ==>
              (j in det <==> ConstantAt(G[..], b[..], n, j))
  {
    ghost var G0, b0 := G[..], b[..];
    var H := new Vec[G.Length](i requires 0 <= i < G.Length reads G => G[i]);
    var c := new bool[b.Length](i requires 0 <= i < b.Length reads b => b[i]);
    assert H[..] == G0 && c[..] == b0;
    var pivots := GaussElim(H, c, n);
    var frees := FreeCols(pivots, n);
    FreeColsSpec(pivots, n);
    assert forall e :: 0 <= e < |frees| ==> frees[e] in frees;
    assert forall i :: 0 <= i < H.Length ==> |H[..][i]| == n;
    det := ExtractDetermined(H, c, pivots, frees);
    forall x: Vec | |x| == n && Sat(G0, b0, x) ensures Agrees(x, det) {
      DeterminedIsSound(H[..], c[..], pivots, det, x);
    }
    forall x: Vec, j: nat | |x| == n && Sat(G0, b0, x) && j < n
      ensures j in det <==> ConstantAt(G0, b0, n, j)
    {
      DeterminedIsExact(H[..], c[..], n, pivots, det, x, j);
      ConstantSame(G0, b0, H[..], c[..], n, j);
    }
  }

  lemma ConstantSame(G: seq<Vec>, b: Vec, H: seq<Vec>, c: Vec, n: nat, j: nat)
    requires Shape(G, b, n) && Shape(H, c, n) && SameSolutions(G, b, H, c, n) && j < n
    ensures ConstantAt(G, b, n, j) <==> ConstantAt(H, c, n, j)
  {
  }

  // ---- the loop ----

  /** The three views agree: what is fixed holds in every joint solution and in every jointly stable state, the
      substituted system says the same as the original one about vectors with the fixed values, and mentions no fixed
      cell. */
  ghost predicate InStep(L: LineSystem, G0: seq<Vec>, b0: Vec, G: seq<Vec>, b: Vec, known: Partial) {
    && Shape(G0, b0, L.n) && Shape(G, b, L.n)
    && |L.members| == |L.targets|
    && JointEntails(L, G0, b0, known)
    && JointBelow(L, Solutions(G0, b0, L.n), known)
    && Equivalent(G0, b0, G, b, L.n, known)
    && Cleared(G, known)
  }

  /** The linear system fixes no further cell. */
  ghost predicate Exhausted(G: seq<Vec>, b: Vec, n: nat, known: Partial)
    requires Shape(G, b, n)
  {
    forall x: Vec, j: nat :: |x| == n && Sat(G, b, x) && j < n && j !in known ==> !ConstantAt(G, b, n, j)
  }

  lemma SubstitutionInStep(L: LineSystem, G0: seq<Vec>, b0: Vec, G: seq<Vec>, b: Vec, H: seq<Vec>, c: Vec,
                           known: Partial, newly: Partial, after: Partial)
    requires InStep(L, G0, b0, G, b, known) && Shape(H, c, L.n)
    requires Equivalent(G, b, H, c, L.n, newly) && Masked(G, H, L.n, newly.Keys)
    requires Extends(after, known) && newly == Gain(known, after)
    requires JointEntails(L, G0, b0, after) && JointBelow(L, Solutions(G0, b0, L.n), after)
    ensures InStep(L, G0, b0, H, c, after)
  {
    EquivalentChain(G0, b0, G, b, H, c, L.n, known, newly, after);
    forall i, j | 0 <= i < |H| && j in after && j < |H[i]| ensures !H[i][j] {
      assert MaskedRow(G[i], H[i], L.n, newly.Keys);
    }
  }

  lemma LinearEntails(L: LineSystem, G0: seq<Vec>, b0: Vec, G: seq<Vec>, b: Vec, known: Partial, newly: Partial)
    requires InStep(L, G0, b0, G, b, known) && newly.Keys <= Cells(L.n)
    requires forall x: Vec :: |x| == L.n && Sat(G, b, x) ==> Agrees(x, newly)
    ensures JointEntails(L, G0, b0, known + newly)
    ensures JointBelow(L, Solutions(G0, b0, L.n), known + newly)
  {
    EquationsStayBelow(L, Solutions(G0, b0, L.n), known, newly);
    forall x: Vec | JointSolution(L, G0, b0, x) ensures Agrees(x, known + newly) {
      assert Agrees(x, known) && Sat(G, b, x);
    }
  }

  lemma LinesEntail(L: LineSystem, G0: seq<Vec>, b0: Vec, G: seq<Vec>, b: Vec, known: Partial, after: Partial)
    requires L.Wf() && InStep(L, G0, b0, G, b, known) && Below(L, known, after)
    ensures JointEntails(L, G0, b0, after)
    ensures JointBelow(L, Solutions(G0, b0, L.n), after)
  {
    LinesStayBelow(L, Solutions(G0, b0, L.n), known, after);
    forall x: Vec | JointSolution(L, G0, b0, x) ensures Agrees(x, after) {
      BelowAgrees(L, known, after, x);
    }
  }

  /** No state at all is left alone by the lines and the equations, so no vector solves both. */
  ghost predicate Hopeless(L: LineSystem, G0: seq<Vec>, b0: Vec)
    requires Shape(G0, b0, L.n) && |L.members| == |L.targets|
  {
    && (forall M: Partial :: !JointStable(L, Solutions(G0, b0, L.n), M))
    && (forall x: Vec :: !JointSolution(L, G0, b0, x))
  }

  lemma ConflictIsFinal(L: LineSystem, G0: seq<Vec>, b0: Vec, known: Partial)
    requires L.Wf() && Shape(G0, b0, L.n) && JointBelow(L, Solutions(G0, b0, L.n), known)
    requires forall M: Partial :: !Stable(L, known, M)
    ensures Hopeless(L, G0, b0)
  {
    var S := Solutions(G0, b0, L.n);
    forall M: Partial ensures !JointStable(L, S, M) {
      assert !Stable(L, known, M);
    }
    forall x: Vec ensures !JointSolution(L, G0, b0, x) {
      if JointSolution(L, G0, b0, x) {
        SolutionIsJointStable(L, S, x);
      }
    }
  }

  /** A free column that is not constant on the substituted equations is left open by the original ones. */
  lemma OpenColumn(L: LineSystem, G0: seq<Vec>, b0: Vec, G: seq<Vec>, b: Vec, known: Partial, j: nat)
    requires InStep(L, G0, b0, G, b, known) && known.Keys <= Cells(L.n)
    requires j < L.n && j !in known && !ConstantAt(G, b, L.n, j)
    ensures LeavesOpen(Solutions(G0, b0, L.n), known, j)
  {
    var y: Vec, z: Vec :| |y| == |z| == L.n && Sat(G, b, y) && Sat(G, b, z) && y[j] != z[j];
    OverwriteKeeps(G, b, known, y);
    OverwriteKeeps(G, b, known, z);
    var v, w := Overwrite(y, known), Overwrite(z, known);
    assert Sat(G0, b0, v) && Sat(G0, b0, w);
    assert v in Solutions(G0, b0, L.n) && w in Solutions(G0, b0, L.n) && v[j] != w[j];
  }

  /** A column that is constant on the substituted equations is not. */
  lemma ClosedColumn(L: LineSystem, G0: seq<Vec>, b0: Vec, G: seq<Vec>, b: Vec, known: Partial, j: nat)
    requires InStep(L, G0, b0, G, b, known) && j < L.n && ConstantAt(G, b, L.n, j)
    ensures !LeavesOpen(Solutions(G0, b0, L.n), known, j)
  {
  }

  /** A free cell that the substituted equations leave open is left open by the original ones. */
  lemma OpenCell(L: LineSystem, G0: seq<Vec>, b0: Vec, G: seq<Vec>, b: Vec, known: Partial, x: Vec, j: nat)
    requires InStep(L, G0, b0, G, b, known) && Exhausted(G, b, L.n, known) && known.Keys <= Cells(L.n)
    requires |x| == L.n && Sat(G, b, x) && j < L.n && j !in known
    ensures LeavesOpen(Solutions(G0, b0, L.n), known, j)
  {
    OpenColumn(L, G0, b0, G, b, known, j);
  }

  /** What the substituted equations determine is what the original ones decide. */
  lemma LinearDecides(L: LineSystem, G0: seq<Vec>, b0: Vec, G: seq<Vec>, b: Vec, known: Partial, newly: Partial, x: Vec)
    requires InStep(L, G0, b0, G, b, known) && known.Keys <= Cells(L.n) && newly.Keys <= Cells(L.n)
    requires x in Solutions(G0, b0, L.n) && Agrees(x, known)
    requires forall y: Vec :: |y| == L.n && Sat(G, b, y) ==> Agrees(y, newly)
    requires forall j: nat :: j in newly <==> j < L.n && j !in known && ConstantAt(G, b, L.n, j)
    ensures Decided(Solutions(G0, b0, L.n), L.n, known, known + newly)
  {
    var S := Solutions(G0, b0, L.n);
    forall j: nat ensures j in known + newly <==> j in known || (j < L.n && !LeavesOpen(S, known, j)) {
      if j < L.n && j !in known {
        if ConstantAt(G, b, L.n, j) {
          ClosedColumn(L, G0, b0, G, b, known, j);
        } else {
          OpenColumn(L, G0, b0, G, b, known, j);
        }
      }
    }
    forall y: Vec | y in S && Agrees(y, known) ensures Agrees(y, known + newly) {
      assert Sat(G, b, y);
    }
  }

  /** Where a run ends, if any state is left alone by both halves: in the least such state. */
  lemma EndIsLeast(L: LineSystem, G0: seq<Vec>, b0: Vec, G: seq<Vec>, b: Vec, known: Partial, M: Partial)
    requires L.Wf() && InStep(L, G0, b0, G, b, known) && known.Keys <= Cells(L.n)
    requires Closed(L, known) && Exhausted(G, b, L.n, known)
    requires JointStable(L, Solutions(G0, b0, L.n), M)
    ensures JointLeast(L, Solutions(G0, b0, L.n), known)
  {
    var S := Solutions(G0, b0, L.n);
    var x: Vec :| x in S && Agrees(x, M);
    assert Agrees(x, known) && Sat(G, b, x);
    forall j: nat | j < L.n && j !in known ensures LeavesOpen(S, known, j) {
      OpenCell(L, G0, b0, G, b, known, x, j);
    }
    SettledIsLeast(L, S, known, M);
  }

  method LinearPhase(cs: ConstraintSystem, G: array<Vec>, b: array<bool>, ghost G0: seq<Vec>, ghost b0: Vec)
      returns (newly: Partial)
    requires cs.Valid() && InStep(cs.L, G0, b0, G[..], b[..], cs.known)
    modifies cs, G, b
    ensures cs.Valid() && InStep(cs.L, G0, b0, G[..], b[..], cs.known)
    ensures Extends(cs.known, old(cs.known)) && newly == Gain(old(cs.known), cs.known)
    ensures newly == map[] ==> cs.known == old(cs.known) && Exhausted(G[..], b[..], cs.L.n, cs.known)
    ensures forall x: Vec :: x in Solutions(G0, b0, cs.L.n) && Agrees(x, old(cs.known)) ==>
      Decided(Solutions(G0, b0, cs.L.n), cs.L.n, old(cs.known), cs.known)
  {
    ghost var known, H, c := cs.known, G[..], b[..];
    var det := SolveLinear(G, b, cs.L.n);
    newly := map j | j in det && j in cs.free :: det[j];
    forall x: Vec | x in Solutions(G0, b0, cs.L.n) && Agrees(x, known)
      ensures Decided(Solutions(G0, b0, cs.L.n), cs.L.n, known, known + newly)
    {
      LinearDecides(cs.L, G0, b0, H, c, known, newly, x);
    }
    LinearEntails(cs.L, G0, b0, H, c, known, newly);
    assert newly == Gain(known, known + newly);
    if newly != map[] {
      DetermineAll(cs, newly);
      PropagateGf2(G, b, cs.L.n, newly);
      SubstitutionInStep(cs.L, G0, b0, H, c, G[..], b[..], known, newly, cs.known);
    } else {
      assert forall j :: j in det && j in cs.free ==> j in newly;
      assert known + newly == known;
    }
  }

  method LinePhase(cs: ConstraintSystem, G: array<Vec>, b: array<bool>, ghost G0: seq<Vec>, ghost b0: Vec)
      returns (newly: Partial, conflict: bool)
    requires cs.Valid() && InStep(cs.L, G0, b0, G[..], b[..], cs.known)
    modifies cs, G, b
    ensures cs.Valid() && Shape(G[..], b[..], cs.L.n) && JointEntails(cs.L, G0, b0, cs.known)
    ensures Extends(cs.known, old(cs.known))
    ensures conflict ==> Hopeless(cs.L, G0, b0)
    ensures !conflict ==> InStep(cs.L, G0, b0, G[..], b[..], cs.known) && Closed(cs.L, cs.known)
    ensures !conflict ==> newly == Gain(old(cs.known), cs.known)
    ensures !conflict && newly == map[] ==> cs.known == old(cs.known) && G[..] == old(G[..]) && b[..] == old(b[..])
    ensures (exists M: Partial :: Stable(cs.L, old(cs.known), M)) ==>
      !conflict && LeastStable(cs.L, old(cs.known), cs.known)
  {
    ghost var known, H, c := cs.known, G[..], b[..];
    newly, conflict := cs.IntBound(true);
    LinesEntail(cs.L, G0, b0, H, c, known, cs.known);
    if conflict {
      ConflictIsFinal(cs.L, G0, b0, known);
    } else if newly != map[] {
      PropagateGf2(G, b, cs.L.n, newly);
      SubstitutionInStep(cs.L, G0, b0, H, c, G[..], b[..], known, newly, cs.known);
    } else {
      assert forall j :: j in cs.known && j !in known ==> j in newly;
      assert cs.known == known;
    }
  }

  /** One iteration. After integer propagation has ended normally, cross deduction can neither
      deduce nor object, so the two branches that handle its outcome are never taken. */
  method Iterate(cs: ConstraintSystem, G: array<Vec>, b: array<bool>, ghost G0: seq<Vec>, ghost b0: Vec)
      returns (feasible: bool)
    requires cs.Valid() && InStep(cs.L, G0, b0, G[..], b[..], cs.known)
    modifies cs, G, b
    ensures cs.Valid() && Shape(G[..], b[..], cs.L.n) && JointEntails(cs.L, G0, b0, cs.known)
    ensures Extends(cs.known, old(cs.known))
    ensures !feasible ==> Hopeless(cs.L, G0, b0)
    ensures feasible ==> InStep(cs.L, G0, b0, G[..], b[..], cs.known) && Closed(cs.L, cs.known)
    ensures feasible && cs.known == old(cs.known) ==> Exhausted(G[..], b[..], cs.L.n, cs.known)
    ensures feasible || !HasJointSolution(cs.L, G0, b0)
    ensures HasJointSolution(cs.L, G0, b0) ==> JointRound(cs.L, Solutions(G0, b0, cs.L.n), old(cs.known), cs.known)
  {
    ghost var known := cs.known;
    var detGf2 := LinearPhase(cs, G, b, G0, b0);
    ghost var between := cs.known;
    var detInt, conflict := LinePhase(cs, G, b, G0, b0);
    forall x: Vec | JointSolution(cs.L, G0, b0, x)
      ensures !conflict && JointRound(cs.L, Solutions(G0, b0, cs.L.n), known, cs.known)
    {
      SolutionIsStable(cs.L, x, between);
      assert x in Solutions(G0, b0, cs.L.n) && Agrees(x, known);
    }
    if conflict {
      return false;
    }
    ghost var settled := cs.known;
    var detCross, crossConflict := CrossDeduce(cs);
    assert !crossConflict && detCross == map[];
    assert cs.known == settled;
    assert cs.known == known ==> between == known && detGf2 == map[] && detInt == map[] by {
      if cs.known == known {
        assert Extends(between, known) && Extends(known, between);
      }
    }
    feasible := true;
  }

  lemma KeysGrow(K: Partial, M: Partial, n: nat)
    requires Extends(M, K) && M.Keys <= Cells(n)
    ensures |K| <= |M| <= n
    ensures |M| == |K| ==> M == K
  {
    CellsSize(n);
    SubsetSize(K.Keys, M.Keys);
    SubsetSize(M.Keys, Cells(n));
    assert |K.Keys| == |K| && |M.Keys| == |M|;
  }

  lemma EndOfRun(L: LineSystem, G0: seq<Vec>, b0: Vec, G: seq<Vec>, b: Vec, known: Partial)
    requires L.Wf() && InStep(L, G0, b0, G, b, known) && known.Keys <= Cells(L.n)
    requires Closed(L, known) && Exhausted(G, b, L.n, known)
    ensures !Hopeless(L, G0, b0) ==> JointLeast(L, Solutions(G0, b0, L.n), known)
  {
    var S := Solutions(G0, b0, L.n);
    if !Hopeless(L, G0, b0) {
      if M: Partial :| JointStable(L, S, M) {
        EndIsLeast(L, G0, b0, G, b, known, M);
      } else {
        var x: Vec :| JointSolution(L, G0, b0, x);
        SolutionIsJointStable(L, S, x);
        assert false;
      }
    }
  }

  lemma AllFixed(L: LineSystem, known: Partial, G: seq<Vec>, b: Vec)
    requires Shape(G, b, L.n) && known.Keys <= Cells(L.n) && |known| == L.n
    ensures Exhausted(G, b, L.n, known)
  {
    CellsSize(L.n);
    assert |known.Keys| == |known|;
    SubsetSize(known.Keys, Cells(L.n));
  }

  /** Where a run can be after some iterations, none of which was the last: each has fixed a cell and left one free,
      the lines are closed since the first, and with a joint solution each was one step of the relation. */
  ghost function Midway(step: (Partial, Partial) -> bool, L: LineSystem, solvable: bool): iset<(Partial, nat)>
    requires |L.members| == |L.targets|
  {
    iset t: (Partial, nat) |
      && t.1 <= |t.0|
      && (0 < t.1 ==> |t.0| < L.n && Closed(L, t.0))
      && (solvable ==> Steps(step, map[], t.0, t.1))
  }

  lemma StartOfRun(step: (Partial, Partial) -> bool, L: LineSystem, solvable: bool)
    requires |L.members| == |L.targets|
    ensures (map[], 0) in Midway(step, L, solvable)
  {
    NoStep<Partial>(step, map[]);
  }

  lemma OneMore(step: (Partial, Partial) -> bool, L: LineSystem, solvable: bool, K: Partial, M: Partial, rounds: nat)
    requires |L.members| == |L.targets| && (K, rounds) in Midway(step, L, solvable)
    requires Closed(L, M) && (solvable ==> step(K, M))
    ensures solvable ==> Steps(step, map[], M, rounds + 1)
    ensures |K| < |M| < L.n ==> (M, rounds + 1) in Midway(step, L, solvable)
  {
    if solvable {
      NextStep(step, map[], K, M, rounds);
    }
  }

  /** What is known when the limit ends a run. */
  lemma AtTheLimit(step: (Partial, Partial) -> bool, L: LineSystem, solvable: bool, known: Partial, rounds: nat)
    requires |L.members| == |L.targets| && (known, rounds) in Midway(step, L, solvable)
    ensures rounds <= |known| && (0 < rounds ==> rounds < L.n && Closed(L, known))
    ensures solvable ==> Steps(step, map[], known, rounds)
  {
  }

  /** One iteration, and whether it is the last: it gained nothing or fixed every cell. */
  method IterateAndCount(cs: ConstraintSystem, G: array<Vec>, b: array<bool>, ghost G0: seq<Vec>, ghost b0: Vec,
                         ghost rounds: nat)
      returns (feasible: bool, stop: bool)
    requires cs.Valid() && InStep(cs.L, G0, b0, G[..], b[..], cs.known)
    requires (cs.known, rounds) in
      Midway(JointRounds(cs.L, Solutions(G0, b0, cs.L.n)), cs.L, HasJointSolution(cs.L, G0, b0))
    modifies cs, G, b
    ensures cs.Valid() && Shape(G[..], b[..], cs.L.n) && JointEntails(cs.L, G0, b0, cs.known)
    ensures !feasible ==> Hopeless(cs.L, G0, b0) && !HasJointSolution(cs.L, G0, b0)
    ensures feasible ==> InStep(cs.L, G0, b0, G[..], b[..], cs.known) && Closed(cs.L, cs.known)
    ensures feasible && stop ==> Exhausted(G[..], b[..], cs.L.n, cs.known)
    ensures feasible && !stop ==>
      (cs.known, rounds + 1) in
        Midway(JointRounds(cs.L, Solutions(G0, b0, cs.L.n)), cs.L, HasJointSolution(cs.L, G0, b0))
    ensures HasJointSolution(cs.L, G0, b0) ==>
      Steps(JointRounds(cs.L, Solutions(G0, b0, cs.L.n)), map[], cs.known, rounds + 1)
  {
    var previous := |cs.known|;
    feasible := Iterate(cs, G, b, G0, b0);
    KeysGrow(old(cs.known), cs.known, cs.L.n);
    stop := |cs.known| == previous || |cs.known| == cs.L.n;
    if feasible {
      OneMore(JointRounds(cs.L, Solutions(G0, b0, cs.L.n)), cs.L, HasJointSolution(cs.L, G0, b0),
              old(cs.known), cs.known, rounds);
      if |cs.known| == cs.L.n {
        AllFixed(cs.L, cs.known, G[..], b[..]);
      }
    }
  }

  /** Runs the combinators until an iteration gains nothing, all cells are fixed or the limit is met.
      `converged` says that one of the first two ended the run; with at least one iteration a cell they always do.
      Then the run ends in the least state that both halves leave alone, or there is no such state. Where a joint
      solution exists, the state is the one to which exactly `rounds` rounds lead, and these are as many as the limit
      says unless the run has converged. */
  method Run(cs: ConstraintSystem, G: array<Vec>, b: array<bool>, maxIterations: nat)
      returns (feasible: bool, ghost converged: bool, ghost rounds: nat)
    requires cs.Valid() && cs.known == map[] && Shape(G[..], b[..], cs.L.n)
    modifies cs, G, b
    ensures cs.Valid() && Shape(G[..], b[..], cs.L.n)
    ensures JointEntails(cs.L, old(G[..]), old(b[..]), cs.known)
    ensures !feasible ==> Hopeless(cs.L, old(G[..]), old(b[..]))
    ensures feasible ==> InStep(cs.L, old(G[..]), old(b[..]), G[..], b[..], cs.known)
    ensures feasible && 0 < maxIterations && cs.L.n <= maxIterations ==> converged
    ensures feasible && converged ==> Closed(cs.L, cs.known) && Exhausted(G[..], b[..], cs.L.n, cs.known)
    ensures feasible && converged && !Hopeless(cs.L, old(G[..]), old(b[..])) ==>
              JointLeast(cs.L, Solutions(old(G[..]), old(b[..]), cs.L.n), cs.known)
    ensures feasible && 0 < maxIterations ==> Closed(cs.L, cs.known)
    ensures feasible && !converged ==> maxIterations <= |cs.known|
    ensures rounds <= maxIterations && (0 < maxIterations ==> 0 < rounds)
    ensures feasible && !converged ==> rounds == maxIterations
    ensures HasJointSolution(cs.L, old(G[..]), old(b[..])) ==>
      feasible && Steps(JointRounds(cs.L, Solutions(old(G[..]), old(b[..]), cs.L.n)), map[], cs.known, rounds)
  {
    ghost var G0, b0 := G[..], b[..];
    feasible, converged, rounds := true, false, 0;
    ghost var solvable, step := HasJointSolution(cs.L, G0, b0), JointRounds(cs.L, Solutions(G0, b0, cs.L.n));
    StartOfRun(step, cs.L, solvable);
    for iteration := 0 to maxIterations
      invariant cs.Valid() && InStep(cs.L, G0, b0, G[..], b[..], cs.known) && feasible && !converged
      invariant rounds == iteration && (cs.known, rounds) in Midway(step, cs.L, solvable)
    {
      var stop;
      feasible, stop := IterateAndCount(cs, G, b, G0, b0, rounds);
      rounds := rounds + 1;
      if !feasible {
        return;
      }
      if stop {
        EndOfRun(cs.L, G0, b0, G[..], b[..], cs.known);
        converged := true;
        return;
      }
    }
    AtTheLimit(step, cs.L, solvable, cs.known, rounds);
  }
}
