/** The sequential row solver: candidates of the easiest rows are generated without the zero-row check,
    tried in turn, propagated by the worklist that passes over conflicts, and rolled back on failure. */
module Sequential {
  import opened Gf2
  import opened Lines
  import opened Paths
  import opened Propagation
  import opened Candidates
  import opened UncheckedRows
  import opened Completion
  import opened Search

  const ROWS_CHECKED: nat := 5
  const FEW_ENOUGH: nat := 10
  const EQUATIONS: nat := 33

  // ---- the choice of a row ----

  function Estimate(unknowns: nat): nat {
    if unknowns > EQUATIONS then unknowns - EQUATIONS else 0
  }

  /** Rank of a row in the order of trial; zero leaves the row out. */
  function TrialKey(unknowns: nat, maxFree: nat): nat {
    if unknowns == 0 || Estimate(unknowns) > maxFree then 0 else Estimate(unknowns) + 1
  }

  ghost function TrialKeys(L: LineSystem, known: Partial, s: nat, maxFree: nat): (keys: seq<nat>)
    requires s <= |L.members|
    ensures |keys| == s && forall r :: 0 <= r < s ==> keys[r] == TrialKey(Unknowns(L, known, r), maxFree)
  {
    seq(s, r requires 0 <= r < s => TrialKey(Unknowns(L, known, r), maxFree))
  }

  /** The rows that may be tried, in the order of trial. */
  ghost predicate TrialRows(L: LineSystem, known: Partial, s: nat, maxFree: nat, rows: seq<nat>)
    requires s <= |L.members|
  {
    && InOrder(TrialKeys(L, known, s, maxFree), rows)
    && forall r: nat :: r in rows <==> r < s && TrialKey(Unknowns(L, known, r), maxFree) > 0
  }

  /** How many of `rows` are checked at most. */
  function Checked(rows: seq<nat>): (k: nat)
    ensures k <= |rows|
  {
    if |rows| < ROWS_CHECKED then |rows| else ROWS_CHECKED
  }

  function CodeOf(block: Block, r: nat): Code
    requires r < |block.hashes|
  {
    Code(block.gen, block.c0, block.hashes[r])
  }

  /** More than `max` vectors are listed for the row. */
  ghost predicate LongList(L: LineSystem, known: Partial, r: nat, code: Code, max: nat)
    requires |L.members| == |L.targets| && r < |L.members| && |code.gen| == |code.h| == |code.c0| == 32
  {
    exists list: seq<Vec> :: IsRowList(list, L, known, r, code) && |list| > max
  }

  /** The row is intractable, lists nothing, or lists at least `count` vectors. */
  ghost predicate NoEasier(crc: Vec -> Vec, L: LineSystem, block: Block, known: Partial, r: nat, maxFree: nat,
                           count: nat)
    requires |L.members| == |L.targets| && IsBlock(crc, L, block) && r < |block.hashes|
  {
    || WideLine(L, known, r, CodeOf(block, r), maxFree, false)
    || (forall v: Vec :: !Listed(L, known, r, CodeOf(block, r), v))
    || (count > 0 && LongList(L, known, r, CodeOf(block, r), count - 1))
  }

  ghost predicate NoneEasierYet(crc: Vec -> Vec, L: LineSystem, block: Block, known: Partial, rows: seq<nat>, k: nat,
                                maxFree: nat, count: nat)
    requires |L.members| == |L.targets| && IsBlock(crc, L, block) && k <= |rows|
  {
    forall m :: 0 <= m < k ==> rows[m] < |block.hashes| && NoEasier(crc, L, block, known, rows[m], maxFree, count)
  }

  /** The row's list, `count` long, is the shortest nonempty one among the rows checked, which are all rows to be
      checked unless it is short enough. */
  ghost predicate Shortest(crc: Vec -> Vec, L: LineSystem, block: Block, known: Partial, s: nat, maxFree: nat,
                           r: nat, count: nat)
    requires |L.members| == |L.targets| && IsBlock(crc, L, block) && s <= |block.hashes|
  {
    exists rows: seq<nat>, k: nat ::
      && TrialRows(L, known, s, maxFree, rows) && k <= Checked(rows) && r in rows[..k]
      && NoneEasierYet(crc, L, block, known, rows, k, maxFree, count) && (k == Checked(rows) || count <= FEW_ENOUGH)
  }

  /** Some row has unknowns, and the rows to be checked have too many free columns each; there may be none to check,
      when every open row has too many unknowns. */
  ghost predicate AllTooWide(crc: Vec -> Vec, L: LineSystem, block: Block, known: Partial, s: nat, maxFree: nat)
    requires |L.members| == |L.targets| && IsBlock(crc, L, block) && s <= |block.hashes|
  {
    && SomeRowOpen(L, known, s)
    && exists rows: seq<nat> ::
         && TrialRows(L, known, s, maxFree, rows)
         && forall m :: 0 <= m < Checked(rows) ==>
              rows[m] < |block.hashes| && WideLine(L, known, rows[m], CodeOf(block, rows[m]), maxFree, false)
  }

  /** Rows no longer than the limit are never too wide. */
  lemma ShortRowsAreListed(crc: Vec -> Vec, L: LineSystem, block: Block, known: Partial, s: nat, maxFree: nat)
    requires |L.members| == |L.targets| && IsBlock(crc, L, block) && s <= |block.hashes|
    requires forall r :: 0 <= r < s ==> |L.members[r]| <= maxFree
    ensures !AllTooWide(crc, L, block, known, s, maxFree)
  {
    if AllTooWide(crc, L, block, known, s, maxFree) {
      var rows: seq<nat> :| TrialRows(L, known, s, maxFree, rows) && forall m :: 0 <= m < Checked(rows) ==>
        rows[m] < |block.hashes| && WideLine(L, known, rows[m], CodeOf(block, rows[m]), maxFree, false);
      var q: nat :| q < s && Unknowns(L, known, q) > 0;
      FreePositionsFew(L.members[q], known, |L.members[q]|);
      assert q in rows;
      assert rows[0] in rows;
      ShortIsNotWide(L, known, rows[0], CodeOf(block, rows[0]), maxFree, false);
    }
  }

  /** `values` is a nonempty list of the open row `r`. */
  ghost predicate ListsRow(crc: Vec -> Vec, L: LineSystem, block: Block, known: Partial, r: nat, values: seq<Vec>)
    requires |L.members| == |L.targets| && IsBlock(crc, L, block) && r < |block.hashes|
  {
    && Unknowns(L, known, r) > 0 && |values| > 0
    && IsRowList(values, L, known, r, CodeOf(block, r))
  }

  /** `choice` is the best of the first `k` rows. */
  ghost predicate BestYet(crc: Vec -> Vec, L: LineSystem, block: Block, known: Partial, s: nat, maxFree: nat,
                          rows: seq<nat>, k: nat, choice: Choice)
    requires |L.members| == |L.targets| && IsBlock(crc, L, block) && s <= |block.hashes| && k <= |rows|
  {
    match choice
    case DeadRow => false
    case NoRow => NoneEasierYet(crc, L, block, known, rows, k, maxFree, 0)
    case Branch(r, values) =>
      && r < s && r in rows[..k] && ListsRow(crc, L, block, known, r, values)
      && NoneEasierYet(crc, L, block, known, rows, k, maxFree, |values|)
  }

  lemma BestYetNext(crc: Vec -> Vec, L: LineSystem, block: Block, known: Partial, s: nat, maxFree: nat, rows: seq<nat>,
                    k: nat, choice: Choice, list: CandidateList)
    requires L.Wf() && IsBlock(crc, L, block) && s <= |block.hashes| && k < |rows| && rows[k] < s
    requires BestYet(crc, L, block, known, s, maxFree, rows, k, choice) && Unknowns(L, known, rows[k]) > 0
    requires list.Intractable? ==> WideLine(L, known, rows[k], CodeOf(block, rows[k]), maxFree, false)
    requires list.Candidates? ==> IsRowList(list.values, L, known, rows[k], CodeOf(block, rows[k]))
    ensures BestYet(crc, L, block, known, s, maxFree, rows, k + 1, Better(choice, rows[k], list))
  {
    var r := rows[k];
    var next := Better(choice, r, list);
    assert rows[..k + 1] == rows[..k] + [r];
    var count := if next.Branch? then |next.values| else 0;
    assert NoEasier(crc, L, block, known, r, maxFree, count) by {
      if list.Candidates? && |list.values| > 0 {
        assert LongList(L, known, r, CodeOf(block, r), count - 1);
      } else if list.Candidates? {
        forall v: Vec ensures !Listed(L, known, r, CodeOf(block, r), v) {
          assert v !in list.values;
        }
      }
    }
    forall m | 0 <= m < k ensures NoEasier(crc, L, block, known, rows[m], maxFree, count) {
      assert NoEasier(crc, L, block, known, rows[m], maxFree, if choice.Branch? then |choice.values| else 0);
    }
  }

  /** A shorter nonempty list replaces the choice. */
  function Better(choice: Choice, r: nat, list: CandidateList): Choice {
    if list.Candidates? && 0 < |list.values| && (!choice.Branch? || |list.values| < |choice.values|)
    then Branch(r, list.values) else choice
  }

  /** Among the first rows in the order of trial, the one with the shortest list; a row without any is passed over. */
  method EasiestRow(ghost crc: Vec -> Vec, cs: ConstraintSystem, block: Block, s: nat, maxFree: nat)
      returns (choice: Choice)
    requires cs.Valid() && IsBlock(crc, cs.L, block) && s <= |block.hashes| && SomeRowOpen(cs.L, cs.known, s)
    ensures !choice.DeadRow?
    ensures choice.Branch? ==> choice.row < s && ListsRow(crc, cs.L, block, cs.known, choice.row, choice.values)
    ensures choice.Branch? ==> Shortest(crc, cs.L, block, cs.known, s, maxFree, choice.row, |choice.values|)
    ensures choice.NoRow? ==>
      DeadEnd(crc, cs.L, block, cs.known) || AllTooWide(crc, cs.L, block, cs.known, s, maxFree)
  {
    var known := cs.known;
    var rows := SortRows(seq(s, r requires 0 <= r < s => TrialKey(Unknowns(cs.L, known, r), maxFree)));
    assert TrialKeys(cs.L, known, s, maxFree) ==
      seq(s, r requires 0 <= r < s => TrialKey(Unknowns(cs.L, known, r), maxFree));
    choice := NoRow;
    for k := 0 to Checked(rows)
      invariant BestYet(crc, cs.L, block, known, s, maxFree, rows, k, choice)
    {
      var r := rows[k];
      assert r in rows;
      var list := RowCandidates(crc, cs, r, Code(block.gen, block.c0, block.hashes[r]), maxFree);
      BestYetNext(crc, cs.L, block, known, s, maxFree, rows, k, choice, list);
      choice := Better(choice, r, list);
      if choice.Branch? && |choice.values| <= FEW_ENOUGH {
        return;
      }
    }
    if choice.NoRow? {
      NothingToBranchOn(crc, cs.L, block, known, s, maxFree, rows);
    }
  }

  /** A row that lists nothing has no completion. */
  lemma EmptyListIsDeadEnd(crc: Vec -> Vec, L: LineSystem, block: Block, known: Partial, r: nat)
    requires L.Wf() && IsBlock(crc, L, block) && r < |block.hashes|
    requires forall v: Vec :: !Listed(L, known, r, CodeOf(block, r), v)
    ensures DeadEnd(crc, L, block, known)
  {
    forall x: Vec | FullSolution(crc, L, block, x) ensures !Agrees(x, known) {
      if Agrees(x, known) {
        SolutionIsCandidate(crc, L, block, known, r, x);
        ListedIffCompletion(crc, L, known, r, CodeOf(block, r), FreeValues(x, L.members[r], known));
      }
    }
  }

  lemma NothingToBranchOn(crc: Vec -> Vec, L: LineSystem, block: Block, known: Partial, s: nat, maxFree: nat,
                          rows: seq<nat>)
    requires L.Wf() && IsBlock(crc, L, block) && s <= |block.hashes| && SomeRowOpen(L, known, s)
    requires TrialRows(L, known, s, maxFree, rows)
    requires NoneEasierYet(crc, L, block, known, rows, Checked(rows), maxFree, 0)
    ensures DeadEnd(crc, L, block, known) || AllTooWide(crc, L, block, known, s, maxFree)
  {
    if m: nat :| m < Checked(rows) && !WideLine(L, known, rows[m], CodeOf(block, rows[m]), maxFree, false) {
      assert NoEasier(crc, L, block, known, rows[m], maxFree, 0);
      EmptyListIsDeadEnd(crc, L, block, known, rows[m]);
    }
  }

  // ---- the search ----

  /** `v` is listed for row `r`, which the solver picks at `known`. */
  ghost predicate Picked(crc: Vec -> Vec, L: LineSystem, block: Block, s: nat, maxFree: nat, r: nat, v: Vec,
                         known: Partial)
    requires |L.members| == |L.targets| && IsBlock(crc, L, block) && s <= |block.hashes|
  {
    exists values: seq<Vec> ::
      && r < s && ListsRow(crc, L, block, known, r, values) && v in values
      && Shortest(crc, L, block, known, s, maxFree, r, |values|)
  }

  /** `K` is the least stable extension of `known` with row `r` filled with `v`. */
  ghost predicate Solves(L: LineSystem, r: nat, v: Vec, known: Partial, K: Partial)
    requires |L.members| == |L.targets| && r < |L.members|
  {
    && |v| == Unknowns(L, known, r)
    && exists filled: Partial :: IsFilledState(filled, known, L.members[r], v) && LeastStable(L, filled, K)
  }

  /** The solver goes on from `known` to `K`: it picks a row and solves it. */
  ghost predicate RowStep(crc: Vec -> Vec, L: LineSystem, block: Block, s: nat, maxFree: nat, known: Partial,
                          K: Partial)
    requires |L.members| == |L.targets| && IsBlock(crc, L, block) && s <= |block.hashes|
  {
    exists r: nat, v: Vec :: r < s && Picked(crc, L, block, s, maxFree, r, v, known) && Solves(L, r, v, known, K)
  }

  ghost function RowSteps(crc: Vec -> Vec, L: LineSystem, block: Block, s: nat, maxFree: nat):
      (Partial, Partial) -> bool
    requires |L.members| == |L.targets| && IsBlock(crc, L, block) && s <= |block.hashes|
  {
    (known: Partial, K: Partial) => RowStep(crc, L, block, s, maxFree, known, K)
  }

  /** What a failed search reports: every matrix is ruled out, or some state to which solving rows leads from `start`
      has open rows that are all too wide to be listed. */
  ghost predicate Accounts(verdict: Verdict, crc: Vec -> Vec, L: LineSystem, block: Block, s: nat, maxFree: nat,
                           start: Partial)
    requires |L.members| == |L.targets| && IsBlock(crc, L, block) && s <= |block.hashes|
  {
    match verdict
    case Exhausted => true
    case OutOfTime(_) => false
    case Stalled(K) => Leads(RowSteps(crc, L, block, s, maxFree), start, K) && AllTooWide(crc, L, block, K, s, maxFree)
  }

  lemma ListedIsPicked(crc: Vec -> Vec, L: LineSystem, block: Block, s: nat, maxFree: nat, r: nat, values: seq<Vec>,
                       k: nat, known: Partial)
    requires |L.members| == |L.targets| && IsBlock(crc, L, block) && r < s <= |block.hashes| && k < |values|
    requires ListsRow(crc, L, block, known, r, values) && Shortest(crc, L, block, known, s, maxFree, r, |values|)
    ensures |values[k]| == Unknowns(L, known, r) && Picked(crc, L, block, s, maxFree, r, values[k], known)
  {
    assert values[k] in values;
  }

  /** What accounts for a failure after a row is solved accounts for it before. */
  lemma AccountsBefore(verdict: Verdict, crc: Vec -> Vec, L: LineSystem, block: Block, s: nat, maxFree: nat,
                       r: nat, v: Vec, known: Partial, K: Partial)
    requires |L.members| == |L.targets| && IsBlock(crc, L, block) && r < s <= |block.hashes|
    requires Picked(crc, L, block, s, maxFree, r, v, known) && Solves(L, r, v, known, K)
    requires Accounts(verdict, crc, L, block, s, maxFree, K)
    ensures Accounts(verdict, crc, L, block, s, maxFree, known)
  {
    if verdict.Stalled? {
      assert RowStep(crc, L, block, s, maxFree, known, K);
      StepThenLeads(RowSteps(crc, L, block, s, maxFree), known, K, verdict.known);
    }
  }

  /** Fills in the row and propagates, passing over lines whose residual is out of range. */
  method SolveRow(ghost crc: Vec -> Vec, cs: ConstraintSystem, ghost block: Block, r: nat, v: Vec)
      returns (ghost filled: Partial)
    requires cs.Valid() && IsBlock(crc, cs.L, block) && r < |block.hashes|
    requires |v| == Unknowns(cs.L, cs.known, r) > 0
    modifies cs
    ensures cs.Valid() && Extends(cs.known, old(cs.known)) && cs.free < old(cs.free)
    ensures IsFilledState(filled, old(cs.known), cs.L.members[r], v)
    ensures FullEntails(crc, cs.L, block, filled, cs.known)
    ensures Legal(cs.L, cs.known) ==> Solves(cs.L, r, v, old(cs.known), cs.known)
  {
    FillLine(cs, r, v);
    filled := cs.known;
    var _, _ := cs.IntBound(false);
    PropagationEntails(crc, cs.L, block, filled, filled, cs.known);
    if Legal(cs.L, cs.known) {
      assert LeastStable(cs.L, filled, cs.known);
    }
  }

  /** Tries one candidate; a failure restores the state. */
  method TryRow(ghost crc: Vec -> Vec, cs: ConstraintSystem, block: Block, s: nat, maxFree: nat, r: nat, v: Vec)
      returns (solved: bool, ghost verdict: Verdict)
    requires cs.Valid() && IsBlock(crc, cs.L, block) && |block.hashes| == s && RowsCover(cs.L, s) && r < s
    requires |v| == Unknowns(cs.L, cs.known, r) > 0 && Picked(crc, cs.L, block, s, maxFree, r, v, cs.known)
    modifies cs
    ensures cs.Valid()
    ensures solved ==> Extends(cs.known, old(cs.known)) && cs.free == {} && Legal(cs.L, cs.known)
    ensures !solved ==> cs.Snapshot() == old(cs.Snapshot())
    ensures !solved && verdict.Exhausted? ==> RuledOut(crc, cs.L, block, old(cs.known), r, v)
    ensures !solved ==> Accounts(verdict, crc, cs.L, block, s, maxFree, old(cs.known))
    decreases cs.free, 0
  {
    ghost var known := cs.known;
    var snap := cs.Snapshot();
    ghost var filled := SolveRow(crc, cs, block, r, v);
    ghost var K := cs.known;
    var feasible := AllLinesFeasible(cs);
    if feasible && cs.free == {} {
      return true, Exhausted;
    }
    if feasible {
      feasible := AllLinesFeasible(cs);
    }
    solved, verdict := false, Exhausted;
    if feasible {
      solved, verdict := SolveSequential(crc, cs, block, s, maxFree);
      if !solved {
        AccountsBefore(verdict, crc, cs.L, block, s, maxFree, r, v, known, K);
      }
    } else {
      IllegalIsDeadEnd(crc, cs.L, block, K);
    }
    if !solved {
      if verdict.Exhausted? {
        DeadAfterFilling(crc, cs.L, block, known, r, v, filled, K);
      }
      cs.Restore(snap);
    }
  }

  /** Tries the list of a row, one vector after the other. */
  method TryRows(ghost crc: Vec -> Vec, cs: ConstraintSystem, block: Block, s: nat, maxFree: nat, r: nat,
                 values: seq<Vec>)
      returns (solved: bool, ghost verdict: Verdict)
    requires cs.Valid() && IsBlock(crc, cs.L, block) && |block.hashes| == s && RowsCover(cs.L, s) && r < s
    requires ListsRow(crc, cs.L, block, cs.known, r, values)
    requires Shortest(crc, cs.L, block, cs.known, s, maxFree, r, |values|)
    modifies cs
    ensures cs.Valid()
    ensures solved ==> Extends(cs.known, old(cs.known)) && cs.free == {} && Legal(cs.L, cs.known)
    ensures !solved ==> cs.Snapshot() == old(cs.Snapshot())
    ensures !solved && verdict.Exhausted? ==> DeadEnd(crc, cs.L, block, old(cs.known))
    ensures !solved ==> Accounts(verdict, crc, cs.L, block, s, maxFree, old(cs.known))
    decreases cs.free, 1
  {
    ghost var known := cs.known;
    verdict := Exhausted;
    for k := 0 to |values|
      invariant cs.Valid() && cs.Snapshot() == old(cs.Snapshot())
      invariant verdict.Exhausted? ==> RuledOutTo(crc, cs.L, block, known, r, values, k)
      invariant Accounts(verdict, crc, cs.L, block, s, maxFree, known)
    {
      ListedIsPicked(crc, cs.L, block, s, maxFree, r, values, k, known);
      ghost var sub;
      solved, sub := TryRow(crc, cs, block, s, maxFree, r, values[k]);
      if solved {
        return true, Exhausted;
      }
      if sub.Exhausted? && verdict.Exhausted? {
        RuledOutNext(crc, cs.L, block, known, r, values, k);
      }
      verdict := if sub.Exhausted? then verdict else sub;
    }
    if verdict.Exhausted? {
      ListCovers(crc, cs.L, block, known, r, values);
      AllRuledOut(crc, cs.L, block, known, r, values);
    }
    return false, verdict;
  }

  lemma ListCovers(crc: Vec -> Vec, L: LineSystem, block: Block, known: Partial, r: nat, values: seq<Vec>)
    requires L.Wf() && IsBlock(crc, L, block) && r < |block.hashes| && ListsRow(crc, L, block, known, r, values)
    ensures forall v: Vec :: IsCompletion(crc, block.hashes[r], L, known, r, v) ==> v in values
  {
    forall v: Vec | IsCompletion(crc, block.hashes[r], L, known, r, v) ensures v in values {
      ListedIffCompletion(crc, L, known, r, CodeOf(block, r), v);
    }
  }

  /** Success fixes every cell, and from a state that breaks no line it meets every target. Failure leaves the
      state as it was; an exhaustive failure means that no matrix with these sums and check values has the
      starting values, any other that solving rows leads to a state whose open rows are all too wide to list. */
  method SolveSequential(ghost crc: Vec -> Vec, cs: ConstraintSystem, block: Block, s: nat, maxFree: nat)
      returns (solved: bool, ghost verdict: Verdict)
    requires cs.Valid() && IsBlock(crc, cs.L, block) && |block.hashes| == s && RowsCover(cs.L, s)
    modifies cs
    ensures cs.Valid()
    ensures solved ==> Extends(cs.known, old(cs.known)) && cs.free == {}
    ensures old(cs.free) == {} ==> solved
    ensures solved && Legal(cs.L, old(cs.known)) ==> Legal(cs.L, cs.known)
    ensures !solved ==> cs.Snapshot() == old(cs.Snapshot())
    ensures !solved && verdict.Exhausted? ==> DeadEnd(crc, cs.L, block, old(cs.known))
    ensures !solved ==> Accounts(verdict, crc, cs.L, block, s, maxFree, old(cs.known))
    decreases cs.free, 2
  {
    if cs.free == {} {
      return true, Exhausted;
    }
    ghost var j :| j in cs.free;
    FreeCellOpensRow(cs.L, cs.known, s, j);
    var choice := EasiestRow(crc, cs, block, s, maxFree);
    if choice.NoRow? {
      LeadsNowhere(RowSteps(crc, cs.L, block, s, maxFree), cs.known);
      return false, if DeadEnd(crc, cs.L, block, cs.known) then Exhausted else Stalled(cs.known);
    }
    solved, verdict := TryRows(crc, cs, block, s, maxFree, choice.row, choice.values);
  }
}
