/** Algebraic completion of rows and columns: a line whose candidates have shrunk to one is filled in,
    a line without candidates shows that the state cannot be completed. */
module Completion {
  import opened Gf2
  import opened Lines
  import opened Paths
  import opened Propagation
  import opened Candidates

  /** The first `|hashes|` lines carry a check value each; all of them share one generator. */
  datatype Block = Block(gen: seq<Vec>, c0: Vec, hashes: seq<Vec>)

  ghost predicate IsBlock(crc: Vec -> Vec, L: LineSystem, block: Block) {
    && |block.hashes| <= |L.members|
    && forall i :: 0 <= i < |block.hashes| ==> IsCode(crc, Code(block.gen, block.c0, block.hashes[i]), |L.members[i]|)
  }

  function LineBits(x: Vec, pos: seq<nat>): (y: Vec)
    requires forall p :: 0 <= p < |pos| ==> pos[p] < |x|
    ensures |y| == |pos|
  {
    seq(|pos|, p requires 0 <= p < |pos| => x[pos[p]])
  }

  /** Meets every line target and every stored check value. */
  ghost predicate FullSolution(crc: Vec -> Vec, L: LineSystem, block: Block, x: Vec)
    requires L.Wf() && |block.hashes| <= |L.members|
  {
    Solution(L, x) && forall i :: 0 <= i < |block.hashes| ==> crc(LineBits(x, L.members[i])) == block.hashes[i]
  }

  ghost predicate FullEntails(crc: Vec -> Vec, L: LineSystem, block: Block, known: Partial, K: Partial)
    requires L.Wf() && |block.hashes| <= |L.members|
  {
    forall x: Vec :: FullSolution(crc, L, block, x) && Agrees(x, known) ==> Agrees(x, K)
  }

  /** No full solution has the fixed values. */
  ghost predicate DeadEnd(crc: Vec -> Vec, L: LineSystem, block: Block, known: Partial)
    requires L.Wf() && |block.hashes| <= |L.members|
  {
    forall x: Vec :: FullSolution(crc, L, block, x) ==> !Agrees(x, known)
  }

  // ---- a solution restricted to a line is one of its candidates ----

  function FreeValues(x: Vec, pos: seq<nat>, known: Partial): (v: Vec)
    requires forall p :: 0 <= p < |pos| ==> pos[p] < |x|
    ensures |v| == |FreePositions(pos, known, |pos|)|
  {
    FreePositionsSpec(pos, known, |pos|);
    var free := FreePositions(pos, known, |pos|);
    seq(|free|, t requires 0 <= t < |free| => assert free[t] in free; x[pos[free[t]]])
  }

  lemma {:induction false} FreeWeightTo(x: Vec, pos: seq<nat>, known: Partial, k: nat)
    requires forall p :: 0 <= p < |pos| ==> pos[p] < |x|
    requires k <= |pos| && |FreePositions(pos, known, k)| <= |FreePositions(pos, known, |pos|)|
    ensures WeightTo(FreeValues(x, pos, known), |FreePositions(pos, known, k)|) ==
      Count(pos[..k], Support(x) - known.Keys)
  {
    if k > 0 {
      FreePositionsGrow(pos, known, k - 1, |pos|);
      FreeWeightTo(x, pos, known, k - 1);
      assert pos[..k][..k - 1] == pos[..k - 1];
      if pos[k - 1] !in known {
        var t := FreeRank(pos, known, k - 1);
        assert FreeValues(x, pos, known)[t] == x[pos[k - 1]];
      }
    }
  }

  lemma FilledIsLine(x: Vec, pos: seq<nat>, known: Partial)
    requires Agrees(x, known) && forall p :: 0 <= p < |pos| ==> pos[p] < |x|
    ensures Filled(pos, known, FreeValues(x, pos, known)) == LineBits(x, pos)
  {
    forall p | 0 <= p < |pos|
      ensures Filled(pos, known, FreeValues(x, pos, known))[p] == x[pos[p]]
    {
      if pos[p] !in known {
        var t := FreeRank(pos, known, p);
      }
    }
  }

  lemma SolutionMayBe(L: LineSystem, known: Partial, x: Vec, j: nat)
    requires L.Wf() && Solution(L, x) && Agrees(x, known) && j < L.n && j !in known
    ensures MayBe(L, known, j, x[j])
  {
    SolutionIsStable(L, x, known);
    forall i | 0 <= i < |L.members| && j in L.members[i]
      ensures Rho(L, known, i) - BitToInt(x[j]) <= U(L, known, i) - 1 && (x[j] ==> Rho(L, known, i) >= 1)
    {
      AssignRhoU(L, known, j, x[j], i);
      ResidualsFall(L, known[j := x[j]], Total(x), i);
    }
  }

  lemma SolutionIsCandidate(crc: Vec -> Vec, L: LineSystem, block: Block, known: Partial, i: nat, x: Vec)
    requires L.Wf() && i < |block.hashes| <= |L.members|
    requires FullSolution(crc, L, block, x) && Agrees(x, known)
    ensures IsCompletion(crc, block.hashes[i], L, known, i, FreeValues(x, L.members[i], known))
  {
    var pos := L.members[i];
    var free, v := FreePositions(pos, known, |pos|), FreeValues(x, pos, known);
    FilledIsLine(x, pos, known);
    ResidualIsFreeOnes(L, known, x, i);
    FreeWeightTo(x, pos, known, |pos|);
    assert pos[..|pos|] == pos;
    FreePositionsSpec(pos, known, |pos|);
    forall t | 0 <= t < |free| && free[t] < |pos| ensures MayBe(L, known, pos[free[t]], v[t]) {
      assert free[t] in free;
      SolutionMayBe(L, known, x, pos[free[t]]);
    }
  }

  // ---- filling a line ----

  /** `K` is `known` with the free cells of the line set to `v`. */
  ghost predicate IsFilledState(K: Partial, known: Partial, pos: seq<nat>, v: Vec)
    requires |v| == |FreePositions(pos, known, |pos|)|
  {
    var free := FreePositions(pos, known, |pos|);
    && Extends(K, known)
    && (forall j :: j in K ==> j in known || j in pos)
    && (forall t :: 0 <= t < |free| && free[t] < |pos| ==> pos[free[t]] in K && K[pos[free[t]]] == v[t])
  }

  /** The first `t` free cells are set. */
  ghost predicate PartFilled(K: Partial, known: Partial, pos: seq<nat>, free: seq<nat>, v: Vec, t: nat)
    requires t <= |free| == |v| && forall s :: 0 <= s < |free| ==> free[s] < |pos|
  {
    && Extends(K, known)
    && (forall j :: j in K ==> j in known || j in pos)
    && (forall s :: 0 <= s < t ==> pos[free[s]] in K && K[pos[free[s]]] == v[s])
    && (forall s :: t <= s < |free| ==> pos[free[s]] !in K)
  }

  lemma PartFilledNext(K: Partial, known: Partial, pos: seq<nat>, free: seq<nat>, v: Vec, t: nat)
    requires t < |free| == |v| && forall s :: 0 <= s < |free| ==> free[s] < |pos|
    requires Distinct(pos) && forall s, m :: 0 <= s < m < |free| ==> free[s] < free[m]
    requires PartFilled(K, known, pos, free, v, t)
    ensures PartFilled(K[pos[free[t]] := v[t]], known, pos, free, v, t + 1)
  {
    assert pos[free[t]] in pos;
  }

  lemma StrictlyFewer(a: set<nat>, b: set<nat>, k: nat)
    requires a <= b && |a| + k == |b|
    ensures k > 0 ==> a < b
  {
    assert b <= a ==> a == b;
  }

  /** Where the next free cell of the line is. */
  lemma NextFreeCell(cs: ConstraintSystem, known: Partial, pos: seq<nat>, free: seq<nat>, v: Vec, t: nat, i: nat)
    requires cs.Valid() && i < |cs.L.members| && pos == cs.L.members[i] && free == FreePositions(pos, known, |pos|)
    requires t < |free| == |v| && forall s :: 0 <= s < |free| ==> free[s] < |pos|
    requires PartFilled(cs.known, known, pos, free, v, t)
    ensures pos[free[t]] in cs.free
    ensures PartFilled(cs.known[pos[free[t]] := v[t]], known, pos, free, v, t + 1)
  {
    FreePositionsSpec(pos, known, |pos|);
    PartFilledNext(cs.known, known, pos, free, v, t);
  }

  /** The first `t` free cells of the line are filled in. */
  ghost predicate FilledTo(L: LineSystem, K: Partial, known: Partial, i: nat, v: Vec, t: nat)
    requires i < |L.members| && t <= |v| == |FreePositions(L.members[i], known, |L.members[i]|)|
  {
    var free := FreePositions(L.members[i], known, |L.members[i]|);
    (forall s :: 0 <= s < |free| ==> free[s] < |L.members[i]|) && PartFilled(K, known, L.members[i], free, v, t)
  }

  method FillCell(cs: ConstraintSystem, i: nat, v: Vec, free: seq<nat>, t: nat, ghost known: Partial)
    requires cs.Valid() && i < |cs.L.members| && free == FreePositions(cs.L.members[i], known, |cs.L.members[i]|)
    requires t < |v| == |free| && FilledTo(cs.L, cs.known, known, i, v, t)
    modifies cs
    ensures cs.Valid() && FilledTo(cs.L, cs.known, known, i, v, t + 1)
    ensures cs.free <= old(cs.free) && |cs.free| + 1 == |old(cs.free)|
  {
    var pos := cs.L.members[i];
    NextFreeCell(cs, known, pos, free, v, t, i);
    cs.Determine(pos[free[t]], v[t]);
  }

  lemma NothingFilled(L: LineSystem, known: Partial, i: nat, v: Vec)
    requires i < |L.members| && |v| == |FreePositions(L.members[i], known, |L.members[i]|)|
    ensures FilledTo(L, known, known, i, v, 0)
  {
    var pos := L.members[i];
    var free := FreePositions(pos, known, |pos|);
    FreePositionsSpec(pos, known, |pos|);
    assert forall s :: 0 <= s < |free| ==> free[s] in free;
  }

  lemma AllFilled(L: LineSystem, K: Partial, known: Partial, i: nat, v: Vec)
    requires i < |L.members| && |v| == |FreePositions(L.members[i], known, |L.members[i]|)|
    requires FilledTo(L, K, known, i, v, |v|)
    ensures IsFilledState(K, known, L.members[i], v)
  {
  }

  /** Sets the free cells of a line. */
  method FillLine(cs: ConstraintSystem, i: nat, v: Vec)
    requires cs.Valid() && i < |cs.L.members|
    requires |v| == |FreePositions(cs.L.members[i], cs.known, |cs.L.members[i]|)|
    modifies cs
    ensures cs.Valid() && IsFilledState(cs.known, old(cs.known), cs.L.members[i], v)
    ensures cs.free <= old(cs.free) && (|v| > 0 ==> cs.free < old(cs.free))
    ensures |cs.free| + |v| == |old(cs.free)|
  {
    var free := FreePositions(cs.L.members[i], cs.known, |cs.L.members[i]|);
    ghost var L, known := cs.L, cs.known;
    NothingFilled(L, known, i, v);
    for t := 0 to |free|
      invariant cs.Valid() && FilledTo(L, cs.known, known, i, v, t)
      invariant cs.free <= old(cs.free) && |cs.free| + t == |old(cs.free)|
    {
      FillCell(cs, i, v, free, t, known);
    }
    AllFilled(L, cs.known, known, i, v);
    StrictlyFewer(cs.free, old(cs.free), |v|);
  }

  /** With a single candidate, every full solution has it. */
  lemma UniqueCandidate(crc: Vec -> Vec, L: LineSystem, block: Block, known: Partial, i: nat, v: Vec, K: Partial)
    requires L.Wf() && i < |block.hashes| <= |L.members|
    requires |v| == |FreePositions(L.members[i], known, |L.members[i]|)|
    requires forall w: Vec :: IsCompletion(crc, block.hashes[i], L, known, i, w) ==> w == v
    requires IsFilledState(K, known, L.members[i], v)
    ensures FullEntails(crc, L, block, known, K)
  {
    forall x: Vec | FullSolution(crc, L, block, x) && Agrees(x, known) ensures Agrees(x, K) {
      FilledAgrees(crc, L, block, known, i, v, K, x);
    }
  }

  /** A full solution whose values on the line are `v` agrees with the filled state. */
  lemma FilledAgrees(crc: Vec -> Vec, L: LineSystem, block: Block, known: Partial, i: nat, v: Vec, K: Partial, x: Vec)
    requires L.Wf() && i < |block.hashes| <= |L.members|
    requires |v| == |FreePositions(L.members[i], known, |L.members[i]|)|
    requires FullSolution(crc, L, block, x) && Agrees(x, known) && IsFilledState(K, known, L.members[i], v)
    ensures IsCompletion(crc, block.hashes[i], L, known, i, FreeValues(x, L.members[i], known))
    ensures FreeValues(x, L.members[i], known) == v ==> Agrees(x, K)
  {
    var pos := L.members[i];
    SolutionIsCandidate(crc, L, block, known, i, x);
    if FreeValues(x, pos, known) == v {
      forall j | j in K ensures j < |x| && x[j] == K[j] {
        if j !in known {
          var p :| 0 <= p < |pos| && pos[p] == j;
          var t := FreeRank(pos, known, p);
          assert K[pos[FreePositions(pos, known, |pos|)[t]]] == v[t];
        }
      }
    }
  }

  // ---- the completion loop ----

  const MAX_FREE: nat := 22
  const MAX_CANDIDATES: nat := 50000

  /** The line is full, has too many free cells, is intractable, or has two completions. */
  ghost predicate Undecided(crc: Vec -> Vec, L: LineSystem, block: Block, known: Partial, i: nat, threshold: nat)
    requires |L.members| == |L.targets| && IsBlock(crc, L, block) && i < |block.hashes|
  {
    var u := |FreePositions(L.members[i], known, |L.members[i]|)|;
    || u == 0 || u > threshold
    || Beyond(crc, L, known, i, Code(block.gen, block.c0, block.hashes[i]), MAX_FREE, MAX_CANDIDATES)
    || Crowded(crc, block.hashes[i], L, known, i, 1)
  }

  ghost predicate LineFull(L: LineSystem, known: Partial, i: nat)
    requires i < |L.members|
  {
    forall j :: j in L.members[i] ==> j in known
  }

  lemma FilledIsFull(L: LineSystem, known: Partial, i: nat, v: Vec, K: Partial)
    requires i < |L.members| && |v| == |FreePositions(L.members[i], known, |L.members[i]|)|
    requires IsFilledState(K, known, L.members[i], v)
    ensures LineFull(L, K, i) && (|v| > 0 ==> !LineFull(L, known, i))
  {
    var pos := L.members[i];
    var free := FreePositions(pos, known, |pos|);
    FreePositionsSpec(pos, known, |pos|);
    forall j | j in pos ensures j in K {
      var p :| 0 <= p < |pos| && pos[p] == j;
      if j !in known {
        assert p in free;
        var t :| 0 <= t < |free| && free[t] == p;
      }
    }
    if |v| > 0 {
      assert free[0] in free;
      assert pos[free[0]] in pos;
    }
  }

  /** The cells gained are those no longer free. */
  lemma GainCounts(n: nat, K: Partial, M: Partial)
    requires Extends(M, K) && M.Keys <= Cells(n)
    ensures |Cells(n) - M.Keys| + |Gain(K, M)| == |Cells(n) - K.Keys|
  {
    var free, left, gained := Cells(n) - K.Keys, Cells(n) - M.Keys, Gain(K, M);
    assert free == left + gained.Keys && left !! gained.Keys;
    assert |gained.Keys| == |gained|;
  }

  // ---- chains of completed lines ----

  /** `M` is `K` with line `i` filled in by its only completion. */
  ghost predicate OnlyFilling(crc: Vec -> Vec, L: LineSystem, block: Block, K: Partial, M: Partial, i: nat, v: Vec)
    requires |L.members| == |L.targets| && i < |block.hashes| <= |L.members|
  {
    && |v| == |FreePositions(L.members[i], K, |L.members[i]|)| > 0
    && IsCompletion(crc, block.hashes[i], L, K, i, v)
    && (forall w: Vec :: IsCompletion(crc, block.hashes[i], L, K, i, w) ==> w == v)
    && IsFilledState(M, K, L.members[i], v)
  }

  /** Line `i` is filled in by its only completion, and lines are forced from there until all are quiet or one is out
      of range. */
  ghost predicate CompletesLine(crc: Vec -> Vec, L: LineSystem, block: Block, i: nat, K: Partial, M: Partial)
    requires |L.members| == |L.targets| && i < |block.hashes| <= |L.members|
  {
    exists v: Vec, F: Partial :: OnlyFilling(crc, L, block, K, F, i, v) && Derives(L, F, M) && AtRest(L, M)
  }

  /** One line of the range is completed. */
  ghost predicate CompletionStep(crc: Vec -> Vec, L: LineSystem, block: Block, first: nat, last: nat, K: Partial,
                                 M: Partial)
    requires |L.members| == |L.targets| && last <= |block.hashes| <= |L.members|
  {
    exists i: nat :: first <= i < last && CompletesLine(crc, L, block, i, K, M)
  }

  ghost function Completes(crc: Vec -> Vec, L: LineSystem, block: Block, first: nat, last: nat):
      (Partial, Partial) -> bool
    requires |L.members| == |L.targets| && last <= |block.hashes| <= |L.members|
  {
    (K: Partial, M: Partial) => CompletionStep(crc, L, block, first, last, K, M)
  }

  /** `n` completed lines of the range, and what they force, lead from `K` to `M`. */
  ghost predicate CompletedIn(crc: Vec -> Vec, L: LineSystem, block: Block, first: nat, last: nat, K: Partial,
                              M: Partial, n: nat)
    requires |L.members| == |L.targets| && last <= |block.hashes| <= |L.members|
  {
    Steps(Completes(crc, L, block, first, last), K, M, n)
  }

  lemma LineCompleted(crc: Vec -> Vec, L: LineSystem, block: Block, first: nat, last: nat, i: nat, K: Partial,
                      F: Partial, M: Partial, v: Vec)
    requires |L.members| == |L.targets| && first <= i < last <= |block.hashes| <= |L.members|
    requires OnlyFilling(crc, L, block, K, F, i, v) && Derives(L, F, M) && AtRest(L, M)
    ensures CompletedIn(crc, L, block, first, last, K, M, 1)
  {
    assert CompletesLine(crc, L, block, i, K, M);
    NoStep(Completes(crc, L, block, first, last), K);
    NextStep(Completes(crc, L, block, first, last), K, K, M, 0);
  }

  /** Integer propagation that counts the cells it fixes; a propagation that fails counts none. */
  method PropagateAndCount(cs: ConstraintSystem) returns (forced: nat, conflict: bool)
    requires cs.Valid()
    modifies cs
    ensures cs.Valid() && Extends(cs.known, old(cs.known)) && cs.free <= old(cs.free)
    ensures Below(cs.L, old(cs.known), cs.known) && Derives(cs.L, old(cs.known), cs.known) && AtRest(cs.L, cs.known)
    ensures |cs.free| + forced <= |old(cs.free)| && (!conflict ==> |cs.free| + forced == |old(cs.free)|)
    ensures conflict ==> forced == 0 && forall M: Partial :: !Stable(cs.L, old(cs.known), M)
  {
    var newly;
    newly, conflict := cs.IntBound(true);
    assert cs.free == Cells(cs.L.n) - cs.known.Keys && old(cs.free) == Cells(cs.L.n) - old(cs.known).Keys;
    GainCounts(cs.L.n, old(cs.known), cs.known);
    forced := |newly|;
  }

  /** Fills a line in with its only candidate. */
  method FillOnly(ghost crc: Vec -> Vec, cs: ConstraintSystem, block: Block, i: nat, v: Vec)
    requires cs.Valid() && IsBlock(crc, cs.L, block) && i < |block.hashes|
    requires |v| == |FreePositions(cs.L.members[i], cs.known, |cs.L.members[i]|)| > 0
    requires IsCompletion(crc, block.hashes[i], cs.L, cs.known, i, v)
    requires forall w: Vec :: IsCompletion(crc, block.hashes[i], cs.L, cs.known, i, w) ==> w == v
    modifies cs
    ensures cs.Valid() && Extends(cs.known, old(cs.known)) && cs.free <= old(cs.free)
    ensures OnlyFilling(crc, cs.L, block, old(cs.known), cs.known, i, v)
    ensures |cs.free| + |v| == |old(cs.free)|
    ensures !LineFull(cs.L, old(cs.known), i) && LineFull(cs.L, cs.known, i)
    ensures FullEntails(crc, cs.L, block, old(cs.known), cs.known)
  {
    ghost var L, known := cs.L, cs.known;
    FillLine(cs, i, v);
    UniqueCandidate(crc, L, block, known, i, v, cs.known);
    FilledIsFull(L, known, i, v, cs.known);
  }

  /** Fills a line in with its only candidate and propagates. `forced` counts the cells set, those of a failed
      propagation left aside. */
  method FillAndPropagate(ghost crc: Vec -> Vec, cs: ConstraintSystem, block: Block, i: nat, v: Vec)
      returns (forced: nat, conflict: bool)
    requires cs.Valid() && IsBlock(crc, cs.L, block) && i < |block.hashes|
    requires |v| == |FreePositions(cs.L.members[i], cs.known, |cs.L.members[i]|)| > 0
    requires IsCompletion(crc, block.hashes[i], cs.L, cs.known, i, v)
    requires forall w: Vec :: IsCompletion(crc, block.hashes[i], cs.L, cs.known, i, w) ==> w == v
    modifies cs
    ensures cs.Valid() && Extends(cs.known, old(cs.known)) && cs.free <= old(cs.free) && forced > 0
    ensures CompletedIn(crc, cs.L, block, i, i + 1, old(cs.known), cs.known, 1)
    ensures |cs.free| + forced <= |old(cs.free)| && (!conflict ==> |cs.free| + forced == |old(cs.free)|)
    ensures !LineFull(cs.L, old(cs.known), i) && LineFull(cs.L, cs.known, i)
    ensures FullEntails(crc, cs.L, block, old(cs.known), cs.known)
    ensures conflict ==> DeadEnd(crc, cs.L, block, old(cs.known))
  {
    ghost var L, known := cs.L, cs.known;
    FillOnly(crc, cs, block, i, v);
    ghost var filled := cs.known;
    forced, conflict := PropagateAndCount(cs);
    forced := |v| + forced;
    FilledAndForced(crc, L, block, i, known, filled, cs.known, v);
    if conflict {
      ConflictIsDeadEnd(crc, L, block, known, filled);
    }
  }

  lemma FilledAndForced(crc: Vec -> Vec, L: LineSystem, block: Block, i: nat, known: Partial, K: Partial, M: Partial,
                        v: Vec)
    requires L.Wf() && i < |block.hashes| <= |L.members|
    requires OnlyFilling(crc, L, block, known, K, i, v) && LineFull(L, K, i) && Extends(M, K)
    requires FullEntails(crc, L, block, known, K) && Below(L, K, M) && Derives(L, K, M) && AtRest(L, M)
    ensures CompletedIn(crc, L, block, i, i + 1, known, M, 1) && LineFull(L, M, i)
    ensures FullEntails(crc, L, block, known, M)
  {
    LineCompleted(crc, L, block, i, i + 1, i, known, K, M, v);
    FullStays(L, K, M, i);
    PropagationEntails(crc, L, block, known, K, M);
  }

  lemma FullStays(L: LineSystem, K: Partial, M: Partial, i: nat)
    requires i < |L.members| && LineFull(L, K, i) && Extends(M, K)
    ensures LineFull(L, M, i)
  {
  }

  lemma NothingFits(crc: Vec -> Vec, L: LineSystem, block: Block, known: Partial, i: nat)
    requires L.Wf() && i < |block.hashes| <= |L.members|
    requires forall v: Vec :: !IsCompletion(crc, block.hashes[i], L, known, i, v)
    ensures DeadEnd(crc, L, block, known)
  {
    forall x: Vec | FullSolution(crc, L, block, x) ensures !Agrees(x, known) {
      if Agrees(x, known) {
        SolutionIsCandidate(crc, L, block, known, i, x);
      }
    }
  }

  /** Looks at one line; fills it in and propagates when it has a single candidate. */
  method TryCompleteLine(ghost crc: Vec -> Vec, cs: ConstraintSystem, block: Block, i: nat, threshold: nat)
      returns (changed: bool, forced: nat, inconsistent: bool)
    requires cs.Valid() && IsBlock(crc, cs.L, block) && i < |block.hashes|
    modifies cs
    ensures cs.Valid() && Extends(cs.known, old(cs.known)) && cs.free <= old(cs.free)
    ensures |cs.free| + forced <= |old(cs.free)| && (!inconsistent ==> |cs.free| + forced == |old(cs.free)|)
    ensures changed ==> !LineFull(cs.L, old(cs.known), i) && LineFull(cs.L, cs.known, i)
    ensures changed ==> CompletedIn(crc, cs.L, block, i, i + 1, old(cs.known), cs.known, 1)
    ensures FullEntails(crc, cs.L, block, old(cs.known), cs.known)
    ensures inconsistent ==> DeadEnd(crc, cs.L, block, old(cs.known))
    ensures changed <==> forced > 0
    ensures !changed ==> cs.known == old(cs.known) && cs.free == old(cs.free)
    ensures !changed && !inconsistent ==> Undecided(crc, cs.L, block, cs.known, i, threshold)
  {
    changed, forced, inconsistent := false, 0, false;
    var pos := cs.L.members[i];
    var u := |FreePositions(pos, cs.known, |pos|)|;
    if u == 0 || u > threshold {
      return;
    }
    var r := GenerateCandidates(crc, cs, i, Code(block.gen, block.c0, block.hashes[i]), MAX_FREE, MAX_CANDIDATES);
    if r.Intractable? {
      return;
    }
    if |r.values| == 0 {
      NothingFits(crc, cs.L, block, cs.known, i);
      return false, 0, true;
    }
    if |r.values| == 1 {
      assert r.values[0] in r.values;
      forced, inconsistent := FillAndPropagate(crc, cs, block, i, r.values[0]);
      return true, forced, inconsistent;
    }
    assert |r.values| > 1 && AllDistinct(r.values);
  }

  lemma PropagationEntails(crc: Vec -> Vec, L: LineSystem, block: Block, known: Partial, K: Partial, M: Partial)
    requires L.Wf() && |block.hashes| <= |L.members|
    requires FullEntails(crc, L, block, known, K) && Below(L, K, M)
    ensures FullEntails(crc, L, block, known, M)
  {
    forall x: Vec | FullSolution(crc, L, block, x) && Agrees(x, known) ensures Agrees(x, M) {
      BelowAgrees(L, K, M, x);
    }
  }

  lemma ConflictIsDeadEnd(crc: Vec -> Vec, L: LineSystem, block: Block, known: Partial, K: Partial)
    requires L.Wf() && |block.hashes| <= |L.members|
    requires FullEntails(crc, L, block, known, K) && forall M: Partial :: !Stable(L, K, M)
    ensures DeadEnd(crc, L, block, known)
  {
    forall x: Vec | FullSolution(crc, L, block, x) ensures !Agrees(x, known) {
      if Agrees(x, known) {
        SolutionIsStable(L, x, K);
      }
    }
  }

  lemma EntailsChain(crc: Vec -> Vec, L: LineSystem, block: Block, known: Partial, K: Partial, M: Partial)
    requires L.Wf() && |block.hashes| <= |L.members|
    requires FullEntails(crc, L, block, known, K)
    ensures FullEntails(crc, L, block, K, M) ==> FullEntails(crc, L, block, known, M)
    ensures DeadEnd(crc, L, block, K) ==> DeadEnd(crc, L, block, known)
  {
  }

  /** Every line from `first` to before `last` is undecided. */
  ghost predicate AllUndecided(crc: Vec -> Vec, L: LineSystem, block: Block, known: Partial, first: nat, last: nat,
                               threshold: nat)
    requires |L.members| == |L.targets| && IsBlock(crc, L, block) && last <= |block.hashes|
  {
    forall i :: first <= i < last ==> Undecided(crc, L, block, known, i, threshold)
  }

  lemma UndecidedNext(crc: Vec -> Vec, L: LineSystem, block: Block, known: Partial, first: nat, i: nat, threshold: nat)
    requires |L.members| == |L.targets| && IsBlock(crc, L, block) && i < |block.hashes|
    requires AllUndecided(crc, L, block, known, first, i, threshold)
    requires Undecided(crc, L, block, known, i, threshold)
    ensures AllUndecided(crc, L, block, known, first, i + 1, threshold)
  {
  }

  /** One more completed line, and a wider range. */
  lemma CompletedNext(crc: Vec -> Vec, L: LineSystem, block: Block, first: nat, last: nat, K: Partial, M: Partial,
                      N: Partial, i: nat, n: nat)
    requires |L.members| == |L.targets| && first <= i < last <= |block.hashes| <= |L.members|
    requires n > 0 && CompletedIn(crc, L, block, first, last, K, M, n - 1)
    requires CompletedIn(crc, L, block, i, i + 1, M, N, 1)
    ensures CompletedIn(crc, L, block, first, last, K, N, n)
  {
    RangeWidens(crc, L, block, first, last, i);
    WiderSteps(Completes(crc, L, block, i, i + 1), Completes(crc, L, block, first, last), M, N, 1);
    JoinSteps(Completes(crc, L, block, first, last), K, M, N, n - 1, 1);
  }

  lemma CompletedJoin(crc: Vec -> Vec, L: LineSystem, block: Block, first: nat, last: nat, K: Partial, M: Partial,
                      N: Partial, n: nat, m: nat, total: nat)
    requires |L.members| == |L.targets| && last <= |block.hashes| <= |L.members| && total == n + m
    requires CompletedIn(crc, L, block, first, last, K, M, n) && CompletedIn(crc, L, block, first, last, M, N, m)
    ensures CompletedIn(crc, L, block, first, last, K, N, total)
  {
    JoinSteps(Completes(crc, L, block, first, last), K, M, N, n, m);
  }

  lemma RangeWidens(crc: Vec -> Vec, L: LineSystem, block: Block, first: nat, last: nat, i: nat)
    requires |L.members| == |L.targets| && first <= i < last <= |block.hashes| <= |L.members|
    ensures forall K: Partial, M: Partial ::
      Completes(crc, L, block, i, i + 1)(K, M) ==> Completes(crc, L, block, first, last)(K, M)
  {
    forall K: Partial, M: Partial | CompletionStep(crc, L, block, i, i + 1, K, M)
      ensures CompletionStep(crc, L, block, first, last, K, M)
    {
      StepWidens(crc, L, block, first, last, i, K, M);
    }
  }

  lemma StepWidens(crc: Vec -> Vec, L: LineSystem, block: Block, first: nat, last: nat, i: nat, K: Partial, M: Partial)
    requires |L.members| == |L.targets| && first <= i < last <= |block.hashes| <= |L.members|
    requires CompletionStep(crc, L, block, i, i + 1, K, M)
    ensures CompletionStep(crc, L, block, first, last, K, M)
  {
    assert CompletesLine(crc, L, block, i, K, M);
  }

  /** One sweep over the lines `first` to `first + count - 1`. */
  method CompleteSweep(ghost crc: Vec -> Vec, cs: ConstraintSystem, block: Block, first: nat, count: nat,
                       threshold: nat)
      returns (completed: nat, forced: nat, inconsistent: bool)
    requires cs.Valid() && IsBlock(crc, cs.L, block) && first + count <= |block.hashes|
    modifies cs
    ensures cs.Valid() && Extends(cs.known, old(cs.known)) && cs.free <= old(cs.free)
    ensures FullEntails(crc, cs.L, block, old(cs.known), cs.known)
    ensures inconsistent ==> DeadEnd(crc, cs.L, block, old(cs.known))
    ensures |cs.free| + forced <= |old(cs.free)| && (!inconsistent ==> |cs.free| + forced == |old(cs.free)|)
    ensures completed <= forced && (forced > 0 ==> completed > 0)
    ensures CompletedIn(crc, cs.L, block, first, first + count, old(cs.known), cs.known, completed)
    ensures !inconsistent && completed == 0 ==>
      AllUndecided(crc, cs.L, block, cs.known, first, first + count, threshold)
  {
    completed, forced, inconsistent := 0, 0, false;
    ghost var L, start := cs.L, cs.known;
    NoStep(Completes(crc, L, block, first, first + count), start);
    for i := first to first + count
      invariant cs.Valid() && Extends(cs.known, start) && cs.free <= old(cs.free)
      invariant FullEntails(crc, L, block, start, cs.known)
      invariant |cs.free| + forced == |old(cs.free)|
      invariant completed <= forced && (forced > 0 ==> completed > 0)
      invariant CompletedIn(crc, L, block, first, first + count, start, cs.known, completed)
      invariant completed == 0 ==> AllUndecided(crc, L, block, cs.known, first, i, threshold)
    {
      ghost var before := cs.known;
      var filled, cells;
      filled, cells, inconsistent := TryCompleteLine(crc, cs, block, i, threshold);
      EntailsChain(crc, L, block, start, before, cs.known);
      if filled {
        completed := completed + 1;
        CompletedNext(crc, L, block, first, first + count, start, before, cs.known, i, completed);
        forced := forced + cells;
      }
      if inconsistent {
        return;
      }
      if completed == 0 {
        UndecidedNext(crc, L, block, before, first, i, threshold);
      }
    }
  }

  /** One more sweep after those that have led from `start` here. */
  method NextSweep(ghost crc: Vec -> Vec, cs: ConstraintSystem, block: Block, first: nat, count: nat, threshold: nat,
                   completed0: nat, ghost start: Partial)
      returns (completed: nat, forced: nat, inconsistent: bool)
    requires cs.Valid() && IsBlock(crc, cs.L, block) && first + count <= |block.hashes| && Extends(cs.known, start)
    requires FullEntails(crc, cs.L, block, start, cs.known)
    requires CompletedIn(crc, cs.L, block, first, first + count, start, cs.known, completed0)
    modifies cs
    ensures cs.Valid() && Extends(cs.known, start) && cs.free <= old(cs.free)
    ensures FullEntails(crc, cs.L, block, start, cs.known)
    ensures inconsistent ==> DeadEnd(crc, cs.L, block, start)
    ensures |cs.free| + forced <= |old(cs.free)| && (!inconsistent ==> |cs.free| + forced == |old(cs.free)|)
    ensures completed0 <= completed <= completed0 + forced && (forced > 0 ==> completed > completed0)
    ensures CompletedIn(crc, cs.L, block, first, first + count, start, cs.known, completed)
    ensures !inconsistent && forced == 0 ==> AllUndecided(crc, cs.L, block, cs.known, first, first + count, threshold)
  {
    ghost var L, before := cs.L, cs.known;
    var lines;
    lines, forced, inconsistent := CompleteSweep(crc, cs, block, first, count, threshold);
    EntailsChain(crc, L, block, start, before, cs.known);
    completed := completed0 + lines;
    CompletedJoin(crc, L, block, first, first + count, start, before, cs.known, completed0, lines, completed);
  }

  /** Sweeps until a sweep completes nothing. `completed` lines, each filled in by its only completion, and the lines
      forced in between lead to the final state; at a consistent end no line in the range is decided by its
      candidates. `forced` counts the cells fixed, except those fixed by a propagation that failed. */
  method TryComplete(ghost crc: Vec -> Vec, cs: ConstraintSystem, block: Block, first: nat, count: nat, threshold: nat)
      returns (completed: nat, forced: nat, inconsistent: bool)
    requires cs.Valid() && IsBlock(crc, cs.L, block) && first + count <= |block.hashes|
    modifies cs
    ensures cs.Valid() && Extends(cs.known, old(cs.known)) && cs.free <= old(cs.free)
    ensures FullEntails(crc, cs.L, block, old(cs.known), cs.known)
    ensures inconsistent ==> DeadEnd(crc, cs.L, block, old(cs.known))
    ensures |cs.free| + forced <= |old(cs.free)| && (!inconsistent ==> |cs.free| + forced == |old(cs.free)|)
    ensures completed <= forced && (forced > 0 ==> completed > 0)
    ensures CompletedIn(crc, cs.L, block, first, first + count, old(cs.known), cs.known, completed)
    ensures !inconsistent ==> AllUndecided(crc, cs.L, block, cs.known, first, first + count, threshold)
  {
    completed, forced, inconsistent := 0, 0, false;
    ghost var L, start := cs.L, cs.known;
    NoStep(Completes(crc, L, block, first, first + count), start);
    var changed := true;
    while changed
      invariant cs.Valid() && Extends(cs.known, start) && cs.free <= old(cs.free)
      invariant FullEntails(crc, L, block, start, cs.known)
      invariant |cs.free| + forced == |old(cs.free)|
      invariant completed <= forced && (forced > 0 ==> completed > 0)
      invariant CompletedIn(crc, L, block, first, first + count, start, cs.known, completed)
      invariant !changed ==> AllUndecided(crc, L, block, cs.known, first, first + count, threshold)
      decreases |cs.free|, changed
    {
      var cells;
      completed, cells, inconsistent := NextSweep(crc, cs, block, first, count, threshold, completed, start);
      forced := forced + cells;
      if inconsistent {
        return;
      }
      changed := cells > 0;
    }
  }
}
