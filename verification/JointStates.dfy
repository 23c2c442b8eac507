/** States that neither the lines nor the linear equations can extend, and the least of them. */
module JointStates {
  import opened Gf2
  import opened Lines

  /** The solutions of a linear system. */
  ghost function Solutions(G: seq<Vec>, b: Vec, n: nat): iset<Vec>
    requires Shape(G, b, n)
  {
    iset x: Vec | |x| == n && Sat(G, b, x)
  }

  /** Vectors of `S` with the fixed values, in which cell `j` is zero and one. */
  ghost predicate LeavesOpen(S: iset<Vec>, known: Partial, j: nat) {
    exists x: Vec, y: Vec ::
      x in S && y in S && Agrees(x, known) && Agrees(y, known) && j < |x| && j < |y| && x[j] != y[j]
  }

  /** The lines are settled, some vector of `S` has the fixed values, and `S` decides no free cell. */
  ghost predicate JointStable(L: LineSystem, S: iset<Vec>, K: Partial)
    requires |L.members| == |L.targets|
  {
    && Stable(L, map[], K)
    && (exists x: Vec :: x in S && Agrees(x, K))
    && forall j: nat :: j < L.n && j !in K ==> LeavesOpen(S, K, j)
  }

  ghost predicate JointBelow(L: LineSystem, S: iset<Vec>, K: Partial)
    requires |L.members| == |L.targets|
  {
    forall M: Partial :: JointStable(L, S, M) ==> Extends(M, K)
  }

  /** The least state that both halves leave alone. */
  ghost predicate JointLeast(L: LineSystem, S: iset<Vec>, K: Partial)
    requires |L.members| == |L.targets|
  {
    JointStable(L, S, K) && JointBelow(L, S, K)
  }

  /** Whatever order the two halves run in, they can only end in one state. */
  lemma JointLeastUnique(L: LineSystem, S: iset<Vec>, K: Partial, M: Partial)
    requires |L.members| == |L.targets| && JointLeast(L, S, K) && JointLeast(L, S, M)
    ensures K == M
  {
    assert Extends(M, K) && Extends(K, M);
  }

  /** A joint solution is itself such a state. */
  lemma SolutionIsJointStable(L: LineSystem, S: iset<Vec>, x: Vec)
    requires L.Wf() && Solution(L, x) && x in S
    ensures JointStable(L, S, Total(x))
  {
    SolutionIsStable(L, x, map[]);
  }

  /** What the lines force from a state below, lies below. */
  lemma LinesStayBelow(L: LineSystem, S: iset<Vec>, known: Partial, after: Partial)
    requires |L.members| == |L.targets| && JointBelow(L, S, known) && Below(L, known, after)
    ensures JointBelow(L, S, after)
  {
    forall M: Partial | JointStable(L, S, M) ensures Extends(M, after) {
      assert Stable(L, known, M);
    }
  }

  /** What the equations decide from a state below, lies below. */
  lemma EquationsStayBelow(L: LineSystem, S: iset<Vec>, known: Partial, newly: Partial)
    requires |L.members| == |L.targets| && JointBelow(L, S, known) && newly.Keys <= Cells(L.n)
    requires forall x: Vec :: x in S && Agrees(x, known) ==> Agrees(x, newly)
    ensures JointBelow(L, S, known + newly)
  {
    forall M: Partial | JointStable(L, S, M) ensures Extends(M, known + newly) {
      assert Extends(M, known);
      StableHasDecided(L, S, M, newly);
    }
  }

  lemma OpenIsNotForced(S: iset<Vec>, known: Partial, newly: Partial, j: nat)
    requires LeavesOpen(S, known, j) && forall y: Vec :: y in S && Agrees(y, known) ==> Agrees(y, newly)
    ensures j !in newly
  {
  }

  /** A state that the equations leave alone has all that they decide. */
  lemma StableHasDecided(L: LineSystem, S: iset<Vec>, M: Partial, newly: Partial)
    requires |L.members| == |L.targets| && JointStable(L, S, M) && newly.Keys <= Cells(L.n)
    requires forall y: Vec :: y in S && Agrees(y, M) ==> Agrees(y, newly)
    ensures Extends(M, newly)
  {
    var x: Vec :| x in S && Agrees(x, M);
    forall j: nat | j in newly ensures j in M && M[j] == newly[j] {
      if j !in M {
        OpenIsNotForced(S, M, newly, j);
      }
    }
  }

  /** A settled state below all the others is the least of them as soon as there is one. */
  lemma SettledIsLeast(L: LineSystem, S: iset<Vec>, known: Partial, M: Partial)
    requires L.Wf() && known.Keys <= Cells(L.n) && Closed(L, known)
    requires forall j: nat :: j < L.n && j !in known ==> LeavesOpen(S, known, j)
    requires JointBelow(L, S, known) && JointStable(L, S, M)
    ensures JointLeast(L, S, known)
  {
    assert Stable(L, known, M);
    ClosedIsLeast(L, known, known, M);
    var x: Vec :| x in S && Agrees(x, M);
    assert Agrees(x, known);
  }

  // ---- rounds ----

  /** `P` is `K` with exactly the values on which all vectors of `S` that have the values of `K` agree. */
  ghost predicate Decided(S: iset<Vec>, n: nat, K: Partial, P: Partial) {
    && Extends(P, K)
    && (forall j: nat :: j in P <==> j in K || (j < n && !LeavesOpen(S, K, j)))
    && forall x: Vec :: x in S && Agrees(x, K) ==> Agrees(x, P)
  }

  /** One round: all that the equations decide, then the least stable extension of that. */
  ghost predicate JointRound(L: LineSystem, S: iset<Vec>, K: Partial, M: Partial)
    requires |L.members| == |L.targets|
  {
    exists P: Partial :: Decided(S, L.n, K, P) && LeastStable(L, P, M)
  }

  ghost function JointRounds(L: LineSystem, S: iset<Vec>): (Partial, Partial) -> bool
    requires |L.members| == |L.targets|
  {
    (K: Partial, M: Partial) => JointRound(L, S, K, M)
  }

  /** While some vector has the fixed values, a round has one outcome only. */
  lemma JointRoundUnique(L: LineSystem, S: iset<Vec>, K: Partial, M: Partial, N: Partial, x: Vec)
    requires L.Wf() && JointRound(L, S, K, M) && JointRound(L, S, K, N)
    requires x in S && Agrees(x, K)
    ensures M == N
  {
    var P: Partial :| Decided(S, L.n, K, P) && LeastStable(L, P, M);
    var Q: Partial :| Decided(S, L.n, K, Q) && LeastStable(L, Q, N);
    DecidedUnique(S, L.n, K, P, Q, x);
    LeastStableUnique(L, P, M, N);
  }

  lemma DecidedUnique(S: iset<Vec>, n: nat, K: Partial, P: Partial, Q: Partial, x: Vec)
    requires Decided(S, n, K, P) && Decided(S, n, K, Q) && x in S && Agrees(x, K)
    ensures P == Q
  {
    forall j: nat ensures j in P <==> j in Q {
    }
    assert Agrees(x, P) && Agrees(x, Q);
  }

  // ---- the original equations seen through the substituted ones ----

  /** `x` with the fixed cells overwritten. */
  ghost function Overwrite(x: Vec, known: Partial): (y: Vec)
    requires known.Keys <= Cells(|x|)
    ensures |y| == |x| && Agrees(y, known)
    ensures forall j: nat :: j < |x| && j !in known ==> y[j] == x[j]
  {
    seq(|x|, j requires 0 <= j < |x| => if j in known then known[j] else x[j])
  }

  lemma OverwriteKeeps(G: seq<Vec>, b: Vec, known: Partial, x: Vec)
    requires Shape(G, b, |x|) && known.Keys <= Cells(|x|) && Sat(G, b, x)
    requires forall i, j :: 0 <= i < |G| && j in known && j < |G[i]| ==> !G[i][j]
    ensures Sat(G, b, Overwrite(x, known))
  {
    forall i | 0 <= i < |G| ensures Dot(G[i], Overwrite(x, known)) == b[i] {
      DotAgreeTo(G[i], Overwrite(x, known), G[i], x, |x|);
    }
  }
}
