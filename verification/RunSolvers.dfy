/** Whole runs of the two row solvers on the projections of a matrix. */
module RunSolvers {
  import opened Gf2
  import opened Crc32
  import opened Lines
  import opened Propagation
  import opened Completion
  import opened Enumeration
  import opened Clocks
  import Blocks
  import Search
  import Sequential

  /** The line sums of a matrix. */
  method LineTargets(n: nat, members: seq<seq<nat>>, x: Vec) returns (L: LineSystem)
    requires |x| == n && LineSystem(n, members, seq(|members|, _ => 0)).Wf()
    ensures L.n == n && L.members == members && L.Wf() && Solution(L, x)
  {
    var targets := Blocks.ProjectLines(members, x);
    L := LineSystem(n, members, targets);
    assert L.Wf() by {
      assert LineSystem(n, members, seq(|members|, _ => 0)).Wf();
    }
  }

  /** The check values of the first `count` lines of a matrix. */
  method LineHashes(L: LineSystem, x: Vec, s: nat, count: nat) returns (block: Block)
    requires L.Wf() && |x| == L.n && count <= |L.members| && forall i :: 0 <= i < count ==> |L.members[i]| == s
    ensures IsBlock(RowCrc, L, block) && |block.hashes| == count
    ensures Solution(L, x) ==> FullSolution(RowCrc, L, block, x)
  {
    RowCrcIsAffine(s);
    var gen, c0 := BuildGenerator(RowCrc, s);
    var hashes := seq(count, i requires 0 <= i < count => RowCrc(LineBits(x, L.members[i])));
    block := Block(gen, c0, hashes);
  }

  lemma LegalWithSolution(L: LineSystem, x: Vec, known: Partial)
    requires L.Wf() && Solution(L, x) && Agrees(x, known) && known.Keys <= Cells(L.n)
    ensures Legal(L, known)
  {
    SolutionIsStable(L, x, known);
    forall i | 0 <= i < |L.members| ensures 0 <= Rho(L, known, i) <= U(L, known, i) {
      ResidualsFall(L, known, Total(x), i);
    }
  }

  lemma PropagatedFromNothing(L: LineSystem, x: Vec, known: Partial)
    requires L.Wf() && Solution(L, x) && Below(L, map[], known) && known.Keys <= Cells(L.n)
    ensures Agrees(x, known) && Legal(L, known)
  {
    BelowAgrees(L, map[], known, x);
    LegalWithSolution(L, x, known);
  }

  lemma NothingFree(n: nat, known: Partial)
    requires known.Keys <= Cells(n) && Cells(n) - known.Keys == {}
    ensures known.Keys == Cells(n)
  {
    forall j | j in Cells(n) ensures j in known {
      assert j !in Cells(n) - known.Keys;
    }
  }

  /** A run of the sequential solver on the sums and row check values of `x`. Success yields a matrix with the same
      line sums. Failure keeps the least stable part of `x`, from which solving rows leads to a state whose open rows
      are all too wide to list; where a row is never longer than the limit, the run succeeds. */
  method RunSequential(members: seq<seq<nat>>, s: nat, x: Vec, maxFree: nat)
      returns (cs: ConstraintSystem, block: Block, solved: bool, ghost verdict: Search.Verdict)
    requires LineSystem(|x|, members, seq(|members|, _ => 0)).Wf()
    requires Search.RowsCover(LineSystem(|x|, members, seq(|members|, _ => 0)), s)
    requires forall i :: 0 <= i < s ==> |members[i]| == s
    ensures fresh(cs) && cs.Valid() && cs.L.n == |x| && cs.L.members == members && Solution(cs.L, x)
    ensures solved ==> cs.known.Keys == Cells(|x|) && Solution(cs.L, Search.AsVec(cs.known, |x|))
    ensures IsBlock(RowCrc, cs.L, block) && |block.hashes| == s && FullSolution(RowCrc, cs.L, block, x)
    ensures !solved ==> Agrees(x, cs.known) && verdict.Stalled? && LeastStable(cs.L, map[], cs.known)
    ensures !solved ==> Sequential.Accounts(verdict, RowCrc, cs.L, block, s, maxFree, cs.known)
    ensures s <= maxFree ==> solved
  {
    var L := LineTargets(|x|, members, x);
    SameCover(L, LineSystem(|x|, members, seq(|members|, _ => 0)), s);
    block := LineHashes(L, x, s, s);
    cs := new ConstraintSystem(L);
    SolutionIsStable(L, x, map[]);
    var _, _ := cs.IntBound(false);
    PropagatedFromNothing(L, x, cs.known);
    solved, verdict := Sequential.SolveSequential(RowCrc, cs, block, s, maxFree);
    if solved {
      NothingFree(|x|, cs.known);
      Search.LegalAndFullIsSolution(L, cs.known);
    } else if s <= maxFree {
      Sequential.ShortRowsAreListed(RowCrc, L, block, verdict.known, s, maxFree);
    }
  }

  lemma SameCover(L: LineSystem, M: LineSystem, s: nat)
    requires Search.RowsCover(M, s) && L.members == M.members && L.n == M.n
    ensures Search.RowsCover(L, s)
  {
    forall j: nat | j < L.n ensures Search.OnRow(L, s, j) {
      assert Search.OnRow(M, s, j);
    }
  }

  /** Rows of at most this many cells are always listed in full. */
  const SHORT_ROW: nat := 12

  lemma ShortRow(s: nat)
    requires s <= SHORT_ROW
    ensures s <= MAX_FREE && Pow2(s) <= Search.TOO_MANY
  {
    Candidates.Pow2Grows(s, 12);
    assert Pow2(12) == 4096;
  }

  /** Completing rows and then columns leads from the least stable state to `known`. */
  ghost predicate PropagatedAndCompleted(L: LineSystem, block: Block, s: nat, known: Partial)
    requires |L.members| == |L.targets| && IsBlock(RowCrc, L, block) && s <= |block.hashes|
  {
    exists P: Partial :: LeastStable(L, map[], P) && Search.CompletedBoth(RowCrc, L, block, s, P, known)
  }

  /** Propagation, then the completion of rows and of columns. */
  method PropagateAndComplete(cs: ConstraintSystem, block: Block, s: nat, ghost x: Vec)
    requires cs.Valid() && cs.known == map[] && IsBlock(RowCrc, cs.L, block) && |block.hashes| == 2 * s
    requires FullSolution(RowCrc, cs.L, block, x) && Solution(cs.L, x)
    modifies cs
    ensures cs.Valid() && Agrees(x, cs.known) && Legal(cs.L, cs.known)
    ensures PropagatedAndCompleted(cs.L, block, s, cs.known)
  {
    SolutionIsStable(cs.L, x, map[]);
    var _, conflict := cs.IntBound(true);
    PropagatedFromNothing(cs.L, x, cs.known);
    ghost var P := cs.known;
    var rows, _, badRow := TryComplete(RowCrc, cs, block, 0, s, Search.THRESHOLD);
    ghost var R := cs.known;
    assert !badRow && Agrees(x, R);
    Search.AllCompleted(RowCrc, cs.L, block, 0, s, P, R, rows);
    var columns, _, badColumn := TryComplete(RowCrc, cs, block, s, s, Search.THRESHOLD);
    assert !badColumn && Agrees(x, cs.known);
    Search.AllCompleted(RowCrc, cs.L, block, s, 2 * s, R, cs.known, columns);
    assert Search.CompletedBoth(RowCrc, cs.L, block, s, P, cs.known);
    LegalWithSolution(cs.L, x, cs.known);
  }

  /** A run of the search with row and column check values on the projections of `x`. Failure keeps the part of `x`
      that propagation and the completion of rows and then columns give; either one of the clock's readings was past the
      limit, or branching leads from that part to a state whose open rows are all too hard to branch on. Where rows are
      short and no reading is past the limit, the run succeeds. */
  method RunSearch(members: seq<seq<nat>>, s: nat, x: Vec, clock: Clock)
      returns (cs: ConstraintSystem, block: Block, solved: bool, readings: nat, ghost verdict: Search.Verdict)
    requires LineSystem(|x|, members, seq(|members|, _ => 0)).Wf()
    requires Search.RowsCover(LineSystem(|x|, members, seq(|members|, _ => 0)), s)
    requires 2 * s <= |members| && forall i :: 0 <= i < 2 * s ==> |members[i]| == s
    ensures fresh(cs) && cs.Valid() && cs.L.n == |x| && cs.L.members == members && Solution(cs.L, x)
    ensures solved ==> cs.known.Keys == Cells(|x|) && Solution(cs.L, Search.AsVec(cs.known, |x|))
    ensures IsBlock(RowCrc, cs.L, block) && |block.hashes| == 2 * s && FullSolution(RowCrc, cs.L, block, x)
    ensures !solved ==> Agrees(x, cs.known) && !verdict.Exhausted?
    ensures !solved ==> PropagatedAndCompleted(cs.L, block, s, cs.known)
    ensures !solved ==> Search.Explains(verdict, RowCrc, cs.L, block, s, clock, 0, readings, cs.known)
    ensures s <= SHORT_ROW && InTime(clock, 0, readings) ==> solved
  {
    var L := LineTargets(|x|, members, x);
    SameCover(L, LineSystem(|x|, members, seq(|members|, _ => 0)), s);
    block := LineHashes(L, x, s, 2 * s);
    cs := new ConstraintSystem(L);
    PropagateAndComplete(cs, block, s, x);
    solved, readings, verdict := Search.SearchRecursive(RowCrc, cs, block, s, clock, 0);
    if solved {
      NothingFree(|x|, cs.known);
      Search.LegalAndFullIsSolution(L, cs.known);
    } else if verdict.Stalled? && s <= SHORT_ROW {
      ShortRow(s);
      Search.ShortRowsAreTractable(RowCrc, L, block, verdict.known, s);
    }
  }
}
