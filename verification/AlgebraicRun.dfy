/** The algebraic solver: the combinator fixpoint with a phase that resolves single rows by their check values. The
    extra phase changes the way, not the end: where elimination is exhausted on a solvable system it finds nothing, and
    the run ends in the same least state. */
module AlgebraicRun {
  import opened Arithmetic
  import opened Gf2
  import opened Crc32
  import opened Lines
  import opened JointStates
  import opened Paths
  import opened Propagation
  import opened Deduction
  import opened Fixpoint
  import opened Completion
  import opened RowResolve
  import Blocks

  /** The equations include those of every row: their solutions have the stored check values. */
  ghost predicate KnowsRows(crc: Vec -> Vec, L: LineSystem, block: Block, s: nat, G0: seq<Vec>, b0: Vec)
    requires L.Wf() && s <= |block.hashes| <= |L.members| && Shape(G0, b0, L.n)
  {
    forall x: Vec :: x in Solutions(G0, b0, L.n) ==> RowsRight(crc, L, block, s, x)
  }

  /** What the rows decide holds in every joint solution and in every state that both halves leave alone. */
  lemma RowsEntail(crc: Vec -> Vec, L: LineSystem, block: Block, s: nat, G0: seq<Vec>, b0: Vec, known: Partial,
                   newly: Partial)
    requires L.Wf() && s <= |block.hashes| <= |L.members| && Shape(G0, b0, L.n)
    requires KnowsRows(crc, L, block, s, G0, b0) && newly.Keys <= Cells(L.n)
    requires JointEntails(L, G0, b0, known) && JointBelow(L, Solutions(G0, b0, L.n), known)
    requires forall x: Vec :: RowsRight(crc, L, block, s, x) && Agrees(x, known) ==> Agrees(x, newly)
    ensures JointEntails(L, G0, b0, known + newly) && JointBelow(L, Solutions(G0, b0, L.n), known + newly)
  {
    EquationsStayBelow(L, Solutions(G0, b0, L.n), known, newly);
    forall x: Vec | JointSolution(L, G0, b0, x) ensures Agrees(x, known + newly) {
      assert x in Solutions(G0, b0, L.n) && Agrees(x, known);
    }
  }

  /** A row that cannot be filled leaves no state that both halves leave alone. */
  lemma StuckRowIsFinal(crc: Vec -> Vec, L: LineSystem, block: Block, s: nat, G0: seq<Vec>, b0: Vec, known: Partial)
    requires L.Wf() && s <= |block.hashes| <= |L.members| && Shape(G0, b0, L.n)
    requires KnowsRows(crc, L, block, s, G0, b0)
    requires JointEntails(L, G0, b0, known) && JointBelow(L, Solutions(G0, b0, L.n), known)
    requires forall x: Vec :: RowsRight(crc, L, block, s, x) ==> !Agrees(x, known)
    ensures Hopeless(L, G0, b0)
  {
    var S := Solutions(G0, b0, L.n);
    forall M: Partial ensures !JointStable(L, S, M) {
      if JointStable(L, S, M) {
        var x: Vec :| x in S && Agrees(x, M);
        assert Agrees(x, known);
      }
    }
    forall x: Vec ensures !JointSolution(L, G0, b0, x) {
      assert x in S ==> RowsRight(crc, L, block, s, x);
    }
  }

  /** A row that cannot be filled leaves the substituted equations without a solution. */
  lemma StuckRowIsSeen(crc: Vec -> Vec, L: LineSystem, block: Block, s: nat, G0: seq<Vec>, b0: Vec, G: seq<Vec>, b: Vec,
                       known: Partial, x: Vec)
    requires L.Wf() && s <= |block.hashes| <= |L.members|
    requires InStep(L, G0, b0, G, b, known) && KnowsRows(crc, L, block, s, G0, b0) && known.Keys <= Cells(L.n)
    requires forall y: Vec :: RowsRight(crc, L, block, s, y) ==> !Agrees(y, known)
    requires |x| == L.n
    ensures !Sat(G, b, x)
  {
    if Sat(G, b, x) {
      SolutionFillsRows(crc, L, block, s, G0, b0, G, b, known, x);
    }
  }

  /** A solution of the substituted equations with the fixed cells written in has the right check values. */
  lemma SolutionFillsRows(crc: Vec -> Vec, L: LineSystem, block: Block, s: nat, G0: seq<Vec>, b0: Vec, G: seq<Vec>,
                          b: Vec, known: Partial, x: Vec)
    requires L.Wf() && s <= |block.hashes| <= |L.members|
    requires InStep(L, G0, b0, G, b, known) && KnowsRows(crc, L, block, s, G0, b0) && known.Keys <= Cells(L.n)
    requires |x| == L.n && Sat(G, b, x)
    ensures RowsRight(crc, L, block, s, Overwrite(x, known)) && Agrees(Overwrite(x, known), known)
  {
    OverwriteKeeps(G, b, known, x);
    assert Overwrite(x, known) in Solutions(G0, b0, L.n);
  }

  /** Where elimination is exhausted, the rows decide nothing: their equations are among those eliminated. */
  lemma NothingLeftForRows(crc: Vec -> Vec, L: LineSystem, block: Block, s: nat, G0: seq<Vec>, b0: Vec, G: seq<Vec>,
                           b: Vec, known: Partial, newly: Partial, x: Vec)
    requires L.Wf() && s <= |block.hashes| <= |L.members|
    requires InStep(L, G0, b0, G, b, known) && KnowsRows(crc, L, block, s, G0, b0)
    requires Exhausted(G, b, L.n, known) && known.Keys <= Cells(L.n) && |x| == L.n && Sat(G, b, x)
    requires newly.Keys <= Cells(L.n) && newly.Keys !! known.Keys
    requires forall y: Vec :: RowsRight(crc, L, block, s, y) && Agrees(y, known) ==> Agrees(y, newly)
    ensures newly == map[]
  {
    forall j: nat | j < L.n && j !in known ensures j !in newly {
      OpenCell(L, G0, b0, G, b, known, x, j);
      OpenIsNotForced(Solutions(G0, b0, L.n), known, newly, j);
    }
    assert newly.Keys == {};
  }

  // ---- rounds with rows ----

  /** `M` is `K` with exactly the cells that their rows decide. */
  ghost predicate RowsAdd(crc: Vec -> Vec, L: LineSystem, block: Block, s: nat, K: Partial, M: Partial)
    requires s <= |block.hashes| <= |L.members|
  {
    && Extends(M, K) && (forall r :: 0 <= r < s ==> RowExact(crc, L, block, K, Gain(K, M), r))
    && forall j :: j in Gain(K, M) ==> FreeInRow(L, K, s, j)
  }

  /** What the rows decide, then the least stable extension of that. */
  ghost predicate RowsThenLines(crc: Vec -> Vec, L: LineSystem, block: Block, s: nat, K: Partial, M: Partial)
    requires |L.members| == |L.targets| && s <= |block.hashes| <= |L.members|
  {
    exists R: Partial :: RowsAdd(crc, L, block, s, K, R) && LeastStable(L, R, M)
  }

  /** One round: what the equations decide, lines, what the rows decide, and lines again. */
  ghost predicate RowRound(crc: Vec -> Vec, L: LineSystem, block: Block, s: nat, S: iset<Vec>, K: Partial, M: Partial)
    requires |L.members| == |L.targets| && s <= |block.hashes| <= |L.members|
  {
    exists Q: Partial :: JointRound(L, S, K, Q) && RowsThenLines(crc, L, block, s, Q, M)
  }

  ghost function RowRounds(crc: Vec -> Vec, L: LineSystem, block: Block, s: nat, S: iset<Vec>):
      (Partial, Partial) -> bool
    requires |L.members| == |L.targets| && s <= |block.hashes| <= |L.members|
  {
    (K: Partial, M: Partial) => RowRound(crc, L, block, s, S, K, M)
  }

  /** Rows that decide nothing leave a closed state as it is. */
  lemma RowsIdle(crc: Vec -> Vec, L: LineSystem, block: Block, s: nat, K: Partial, x: Vec)
    requires L.Wf() && s <= |block.hashes| <= |L.members|
    requires RowsAdd(crc, L, block, s, K, K) && Closed(L, K) && K.Keys <= Cells(L.n)
    requires Solution(L, x) && Agrees(x, K)
    ensures RowsThenLines(crc, L, block, s, K, K)
  {
    SolutionIsStable(L, x, K);
    ClosedIsLeast(L, K, K, Total(x));
  }

  /** Fixes cells that hold in every joint solution and every state that both halves leave alone. */
  method FixCells(cs: ConstraintSystem, newly: Partial, G: array<Vec>, b: array<bool>, ghost G0: seq<Vec>,
                  ghost b0: Vec)
    requires cs.Valid() && InStep(cs.L, G0, b0, G[..], b[..], cs.known)
    requires newly.Keys <= Cells(cs.L.n) && newly.Keys !! cs.known.Keys
    requires JointEntails(cs.L, G0, b0, cs.known + newly)
    requires JointBelow(cs.L, Solutions(G0, b0, cs.L.n), cs.known + newly)
    modifies cs, G, b
    ensures cs.Valid() && InStep(cs.L, G0, b0, G[..], b[..], cs.known) && cs.known == old(cs.known) + newly
    ensures newly == Gain(old(cs.known), cs.known)
  {
    ghost var known, H, c := cs.known, G[..], b[..];
    assert newly == Gain(known, known + newly);
    DetermineAll(cs, newly);
    PropagateGf2(G, b, cs.L.n, newly);
    SubstitutionInStep(cs.L, G0, b0, H, c, G[..], b[..], known, newly, cs.known);
  }

  /** The phase that resolves rows. */
  method RowPhase(ghost crc: Vec -> Vec, cs: ConstraintSystem, block: Block, s: nat, G: array<Vec>, b: array<bool>,
                  ghost G0: seq<Vec>, ghost b0: Vec)
      returns (newly: Partial, conflict: bool)
    requires cs.Valid() && InStep(cs.L, G0, b0, G[..], b[..], cs.known)
    requires IsBlock(crc, cs.L, block) && s <= |block.hashes| && RowsDisjoint(cs.L, s)
    requires KnowsRows(crc, cs.L, block, s, G0, b0)
    modifies cs, G, b
    ensures cs.Valid() && InStep(cs.L, G0, b0, G[..], b[..], cs.known)
    ensures Extends(cs.known, old(cs.known))
    ensures conflict ==> Hopeless(cs.L, G0, b0)
    ensures !conflict ==> newly == Gain(old(cs.known), cs.known)
    ensures !conflict ==> RowsAdd(crc, cs.L, block, s, old(cs.known), cs.known)
    ensures newly == map[] ==> cs.known == old(cs.known) && G[..] == old(G[..]) && b[..] == old(b[..])
    ensures forall x: Vec :: |x| == cs.L.n && Sat(old(G[..]), old(b[..]), x) ==> !conflict
    ensures Exhausted(old(G[..]), old(b[..]), cs.L.n, old(cs.known)) ==>
      forall x: Vec :: |x| == cs.L.n && Sat(old(G[..]), old(b[..]), x) ==> newly == map[]
  {
    var L, known := cs.L, cs.known;
    newly, conflict := Crc32RowResolve(crc, L, block, known, s);
    if conflict {
      StuckRowIsFinal(crc, L, block, s, G0, b0, known);
      forall x: Vec | |x| == L.n ensures !Sat(G[..], b[..], x) {
        StuckRowIsSeen(crc, L, block, s, G0, b0, G[..], b[..], known, x);
      }
      return;
    }
    forall x: Vec | |x| == L.n && Sat(G[..], b[..], x) && Exhausted(G[..], b[..], L.n, known) ensures newly == map[] {
      NothingLeftForRows(crc, L, block, s, G0, b0, G[..], b[..], known, newly, x);
    }
    if newly != map[] {
      RowsEntail(crc, L, block, s, G0, b0, known, newly);
      FixCells(cs, newly, G, b, G0, b0);
    } else {
      assert Gain(known, known) == map[];
    }
  }

  /** One iteration. When the rows decide something, the lines are propagated again; after that cross deduction can
      neither deduce nor object. */
  method Iterate(ghost crc: Vec -> Vec, cs: ConstraintSystem, block: Block, s: nat, G: array<Vec>, b: array<bool>,
                 ghost G0: seq<Vec>, ghost b0: Vec)
      returns (feasible: bool)
    requires cs.Valid() && InStep(cs.L, G0, b0, G[..], b[..], cs.known)
    requires IsBlock(crc, cs.L, block) && s <= |block.hashes| && RowsDisjoint(cs.L, s)
    requires KnowsRows(crc, cs.L, block, s, G0, b0)
    modifies cs, G, b
    ensures cs.Valid() && Shape(G[..], b[..], cs.L.n) && JointEntails(cs.L, G0, b0, cs.known)
    ensures Extends(cs.known, old(cs.known))
    ensures !feasible ==> Hopeless(cs.L, G0, b0)
    ensures feasible ==> InStep(cs.L, G0, b0, G[..], b[..], cs.known) && Closed(cs.L, cs.known)
    ensures feasible && cs.known == old(cs.known) ==> Exhausted(G[..], b[..], cs.L.n, cs.known)
    ensures feasible || !HasJointSolution(cs.L, G0, b0)
    ensures HasJointSolution(cs.L, G0, b0) ==>
      RowRound(crc, cs.L, block, s, Solutions(G0, b0, cs.L.n), old(cs.known), cs.known)
  {
    ghost var known := cs.known;
    var detGf2 := LinearPhase(cs, G, b, G0, b0);
    ghost var linear := cs.known;
    var detInt, conflict := LinePhase(cs, G, b, G0, b0);
    forall x: Vec | JointSolution(cs.L, G0, b0, x)
      ensures !conflict && JointRound(cs.L, Solutions(G0, b0, cs.L.n), known, cs.known)
    {
      SolutionIsStable(cs.L, x, linear);
      assert x in Solutions(G0, b0, cs.L.n) && Agrees(x, known);
    }
    if conflict {
      return false;
    }
    ghost var lines := cs.known;
    var failed := ResolveAndSettle(crc, cs, block, s, G, b, G0, b0);
    if failed {
      return false;
    }
    ghost var settled := cs.known;
    var detCross, crossConflict := CrossDeduce(cs);
    assert !crossConflict && detCross == map[] && cs.known == settled;
    if cs.known == known {
      NothingBetween(known, linear, settled);
      NothingBetween(known, lines, settled);
    }
    feasible := true;
  }

  lemma NothingBetween(K: Partial, M: Partial, N: Partial)
    requires Extends(M, K) && Extends(N, M) && N == K
    ensures M == K
  {
  }

  /** Resolves the rows and, if they decide something, propagates the lines again. */
  method ResolveAndSettle(ghost crc: Vec -> Vec, cs: ConstraintSystem, block: Block, s: nat, G: array<Vec>,
                          b: array<bool>, ghost G0: seq<Vec>, ghost b0: Vec)
      returns (failed: bool)
    requires cs.Valid() && InStep(cs.L, G0, b0, G[..], b[..], cs.known) && Closed(cs.L, cs.known)
    requires IsBlock(crc, cs.L, block) && s <= |block.hashes| && RowsDisjoint(cs.L, s)
    requires KnowsRows(crc, cs.L, block, s, G0, b0)
    modifies cs, G, b
    ensures cs.Valid() && Shape(G[..], b[..], cs.L.n) && JointEntails(cs.L, G0, b0, cs.known)
    ensures Extends(cs.known, old(cs.known))
    ensures failed ==> Hopeless(cs.L, G0, b0)
    ensures !failed ==> InStep(cs.L, G0, b0, G[..], b[..], cs.known) && Closed(cs.L, cs.known)
    ensures !failed && cs.known == old(cs.known) ==> G[..] == old(G[..]) && b[..] == old(b[..])
    ensures forall x: Vec :: JointSolution(cs.L, G0, b0, x) ==>
      !failed && RowsThenLines(crc, cs.L, block, s, old(cs.known), cs.known)
  {
    ghost var known := cs.known;
    var detCrc;
    detCrc, failed := RowPhase(crc, cs, block, s, G, b, G0, b0);
    if failed || detCrc == map[] {
      forall x: Vec | JointSolution(cs.L, G0, b0, x)
        ensures !failed && RowsThenLines(crc, cs.L, block, s, known, cs.known)
      {
        if !failed {
          RowsIdle(crc, cs.L, block, s, known, x);
        }
      }
      return;
    }
    ghost var resolved := cs.known;
    var detInt, conflict := LinePhase(cs, G, b, G0, b0);
    failed := conflict;
    forall x: Vec | JointSolution(cs.L, G0, b0, x)
      ensures !failed && RowsThenLines(crc, cs.L, block, s, known, cs.known)
    {
      SolutionIsStable(cs.L, x, resolved);
    }
    GainStays(known, resolved, cs.known);
  }

  lemma GainStays(K: Partial, M: Partial, N: Partial)
    requires Extends(N, M) && Gain(K, M) != map[]
    ensures N != K
  {
    var j :| j in Gain(K, M).Keys;
    assert j in N && j !in K;
  }

  /** One iteration, and whether it is the last: it gained nothing or fixed every cell. */
  method IterateAndCount(ghost crc: Vec -> Vec, cs: ConstraintSystem, block: Block, s: nat, G: array<Vec>,
                         b: array<bool>, ghost G0: seq<Vec>, ghost b0: Vec, ghost rounds: nat)
      returns (feasible: bool, stop: bool)
    requires cs.Valid() && InStep(cs.L, G0, b0, G[..], b[..], cs.known)
    requires IsBlock(crc, cs.L, block) && s <= |block.hashes| && RowsDisjoint(cs.L, s)
    requires KnowsRows(crc, cs.L, block, s, G0, b0)
    requires (cs.known, rounds) in
      Midway(RowRounds(crc, cs.L, block, s, Solutions(G0, b0, cs.L.n)), cs.L, HasJointSolution(cs.L, G0, b0))
    modifies cs, G, b
    ensures cs.Valid() && Shape(G[..], b[..], cs.L.n) && JointEntails(cs.L, G0, b0, cs.known)
    ensures !feasible ==> Hopeless(cs.L, G0, b0) && !HasJointSolution(cs.L, G0, b0)
    ensures feasible ==> InStep(cs.L, G0, b0, G[..], b[..], cs.known) && Closed(cs.L, cs.known)
    ensures feasible && stop ==> Exhausted(G[..], b[..], cs.L.n, cs.known)
    ensures feasible && !stop ==>
      (cs.known, rounds + 1) in
        Midway(RowRounds(crc, cs.L, block, s, Solutions(G0, b0, cs.L.n)), cs.L, HasJointSolution(cs.L, G0, b0))
    ensures HasJointSolution(cs.L, G0, b0) ==>
      Steps(RowRounds(crc, cs.L, block, s, Solutions(G0, b0, cs.L.n)), map[], cs.known, rounds + 1)
  {
    var previous := |cs.known|;
    feasible := Iterate(crc, cs, block, s, G, b, G0, b0);
    KeysGrow(old(cs.known), cs.known, cs.L.n);
    stop := |cs.known| == previous || |cs.known| == cs.L.n;
    if feasible {
      OneMore(RowRounds(crc, cs.L, block, s, Solutions(G0, b0, cs.L.n)), cs.L, HasJointSolution(cs.L, G0, b0),
              old(cs.known), cs.known, rounds);
      if |cs.known| == cs.L.n {
        AllFixed(cs.L, cs.known, G[..], b[..]);
      }
    }
  }

  /** Runs the phases until an iteration gains nothing, all cells are fixed or the limit is met. `converged` says that
      one of the first two ended the run; with at least one iteration a cell they always do. Then the run ends in the
      least state that both halves leave alone, or there is no such state. Where a joint solution exists, the state is
      the one to which exactly `rounds` rounds lead, as many as the limit says unless the run has converged. */
  method Run(ghost crc: Vec -> Vec, cs: ConstraintSystem, block: Block, s: nat, G: array<Vec>, b: array<bool>,
             maxIterations: nat)
      returns (feasible: bool, ghost converged: bool, ghost rounds: nat)
    requires cs.Valid() && cs.known == map[] && Shape(G[..], b[..], cs.L.n)
    requires IsBlock(crc, cs.L, block) && s <= |block.hashes| && RowsDisjoint(cs.L, s)
    requires KnowsRows(crc, cs.L, block, s, G[..], b[..])
    modifies cs, G, b
    ensures cs.Valid() && Shape(G[..], b[..], cs.L.n)
    ensures JointEntails(cs.L, old(G[..]), old(b[..]), cs.known)
    ensures !feasible ==> Hopeless(cs.L, old(G[..]), old(b[..]))
    ensures feasible && 0 < maxIterations && cs.L.n <= maxIterations ==> converged
    ensures feasible && converged && !Hopeless(cs.L, old(G[..]), old(b[..])) ==>
              JointLeast(cs.L, Solutions(old(G[..]), old(b[..]), cs.L.n), cs.known)
    ensures feasible && 0 < maxIterations ==> Closed(cs.L, cs.known)
    ensures feasible && !converged ==> maxIterations <= |cs.known|
    ensures rounds <= maxIterations && (0 < maxIterations ==> 0 < rounds)
    ensures feasible && !converged ==> rounds == maxIterations
    ensures HasJointSolution(cs.L, old(G[..]), old(b[..])) ==>
      feasible &&
      Steps(RowRounds(crc, cs.L, block, s, Solutions(old(G[..]), old(b[..]), cs.L.n)), map[], cs.known, rounds)
  {
    ghost var G0, b0 := G[..], b[..];
    feasible, converged, rounds := true, false, 0;
    ghost var solvable := HasJointSolution(cs.L, G0, b0);
    ghost var step := RowRounds(crc, cs.L, block, s, Solutions(G0, b0, cs.L.n));
    StartOfRun(step, cs.L, solvable);
    for iteration := 0 to maxIterations
      invariant cs.Valid() && InStep(cs.L, G0, b0, G[..], b[..], cs.known) && feasible && !converged
      invariant rounds == iteration && (cs.known, rounds) in Midway(step, cs.L, solvable)
    {
      var stop;
      feasible, stop := IterateAndCount(crc, cs, block, s, G, b, G0, b0, rounds);
      rounds := rounds + 1;
      if !feasible {
        return;
      }
      if stop {
        EndOfRun(cs.L, G0, b0, G[..], b[..], cs.known);
        converged := true;
        return;
      }
    }
    AtTheLimit(step, cs.L, solvable, cs.known, rounds);
  }

  // ---- from a matrix ----

  /** The first `s` lines are the rows of an `s` by `s` matrix stored row by row. */
  ghost predicate RowMajor(members: seq<seq<nat>>, s: nat) {
    s <= |members| && forall r :: 0 <= r < s ==> IsRow(members[r], s, r)
  }

  ghost predicate IsRow(ms: seq<nat>, s: nat, r: nat) {
    |ms| == s && forall c :: 0 <= c < s ==> ms[c] == r * s + c
  }

  lemma RowMajorIsDisjoint(L: LineSystem, s: nat)
    requires RowMajor(L.members, s)
    ensures RowsDisjoint(L, s)
  {
    forall q, r, j | 0 <= q < r < s && j in L.members[q] ensures j !in L.members[r] {
      if j in L.members[r] {
        assert IsRow(L.members[q], s, q) && IsRow(L.members[r], s, r);
        var c :| 0 <= c < s && L.members[q][c] == j;
        var d :| 0 <= d < s && L.members[r][d] == j;
        SlotDivides(s, q, c);
        SlotDivides(s, r, d);
      }
    }
  }

  lemma RowBits(members: seq<nat>, s: nat, r: nat, x: Vec)
    requires |x| == s * s && r < s && IsRow(members, s, r) && forall p :: 0 <= p < |members| ==> members[p] < |x|
    ensures LineBits(x, members) == Blocks.Row(x, s, r)
  {
    LineBelow(s, r);
    var base := r * s;
    assert Blocks.Row(x, s, r) == x[base..base + s];
    forall c | 0 <= c < s ensures LineBits(x, members)[c] == x[base..base + s][c] {
      assert members[c] == base + c;
    }
  }

  /** The check values of a matrix as a block for its rows. */
  method RowBlock(L: LineSystem, s: nat, x: Vec) returns (block: Block)
    requires L.Wf() && L.n == s * s == |x| && RowMajor(L.members, s)
    ensures IsBlock(RowCrc, L, block) && |block.hashes| == s
    ensures forall r :: 0 <= r < s ==> block.hashes[r] == RowCrc(Blocks.Row(x, s, r))
  {
    RowCrcIsAffine(s);
    var gen, c0 := BuildGenerator(RowCrc, s);
    block := Block(gen, c0, seq(s, r requires 0 <= r < s => RowCrc(Blocks.Row(x, s, r))));
    forall i | 0 <= i < s ensures |L.members[i]| == s {
      assert IsRow(L.members[i], s, i);
    }
  }

  lemma MatesKnowRows(L: LineSystem, s: nat, x: Vec, block: Block, rows: seq<Vec>, rhs: Vec)
    requires L.Wf() && L.n == s * s == |x| && RowMajor(L.members, s) && Shape(rows, rhs, L.n) && |block.hashes| == s
    requires forall r :: 0 <= r < s ==> block.hashes[r] == RowCrc(Blocks.Row(x, s, r))
    requires Solutions(rows, rhs, L.n) == Blocks.ParityMates(L.members, s, x)
    ensures KnowsRows(RowCrc, L, block, s, rows, rhs)
  {
    forall y: Vec | y in Solutions(rows, rhs, L.n) ensures RowsRight(RowCrc, L, block, s, y) {
      assert y in Blocks.ParityMates(L.members, s, x);
      forall r | 0 <= r < s ensures RowCrc(LineBits(y, L.members[r])) == block.hashes[r] {
        assert IsRow(L.members[r], s, r);
        RowBits(L.members[r], s, r, y);
      }
    }
  }

  /** Projects a matrix and runs the algebraic solver on the projections alone. It ends where the plain fixpoint ends:
      both in the least state that neither the line sums nor the equations extend, of which there is only one. Short of
      that it ends in the state to which as many rounds lead as the limit says. */
  method Reconstruct(members: seq<seq<nat>>, s: nat, x: Vec, maxIterations: nat)
      returns (cs: ConstraintSystem, feasible: bool, ghost block: Block, ghost rounds: nat)
    requires |x| == s * s && LineSystem(|x|, members, seq(|members|, _ => 0)).Wf() && RowMajor(members, s)
    ensures fresh(cs) && cs.Valid() && feasible
    ensures cs.L.n == |x| && cs.L.members == members && Solution(cs.L, x) && Agrees(x, cs.known)
    ensures 0 < maxIterations && |x| <= maxIterations ==>
      JointLeast(cs.L, Blocks.ParityMates(members, s, x), cs.known)
    ensures rounds <= maxIterations && (0 < maxIterations ==> 0 < rounds && Closed(cs.L, cs.known))
    ensures rounds < maxIterations || |cs.known| < maxIterations ==>
      JointLeast(cs.L, Blocks.ParityMates(members, s, x), cs.known)
    ensures IsBlock(RowCrc, cs.L, block) && |block.hashes| == s
    ensures forall r :: 0 <= r < s ==> block.hashes[r] == RowCrc(Blocks.Row(x, s, r))
    ensures Steps(RowRounds(RowCrc, cs.L, block, s, Blocks.ParityMates(members, s, x)), map[], cs.known, rounds)
  {
    assert forall i :: 0 <= i < |members| ==>
        Distinct(members[i]) && forall k :: 0 <= k < |members[i]| ==> members[i][k] < |x| by {
      assert LineSystem(|x|, members, seq(|members|, _ => 0)).Wf();
    }
    var targets := Blocks.ProjectLines(members, x);
    var L := LineSystem(|x|, members, targets);
    var rows, rhs := Blocks.ProjectSystem(L, s, x);
    var stored := RowBlock(L, s, x);
    block := stored;
    var G, b := Blocks.ToArrays(rows, rhs);
    RowMajorIsDisjoint(L, s);
    MatesKnowRows(L, s, x, block, rows, rhs);
    assert x in Blocks.ParityMates(members, s, x);
    assert JointSolution(L, rows, rhs, x);
    cs := new ConstraintSystem(L);
    ghost var converged;
    feasible, converged, rounds := Run(RowCrc, cs, stored, s, G, b, maxIterations);
  }
}
