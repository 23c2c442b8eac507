/** Depth-first search over the candidates of one row at a time, with propagation and completion after
    every choice and rollback after every failure. */
module Search {
  import opened Gf2
  import opened Enumeration
  import opened Lines
  import opened Paths
  import opened Propagation
  import opened Candidates
  import opened Clocks
  import opened Completion

  const ROWS_TRIED: nat := 8
  const ROW_CANDIDATES: nat := 20000
  const TOO_MANY: nat := 8000
  const GOOD_ENOUGH: nat := 5
  const THRESHOLD: nat := 40

  /** A state with every cell fixed, as a vector. */
  function AsVec(known: Partial, n: nat): (x: Vec)
    requires forall j: nat :: j < n ==> j in known
    ensures |x| == n && forall j :: 0 <= j < n ==> x[j] == known[j]
  {
    seq(n, j requires 0 <= j < n => known[j])
  }

  lemma LegalAndFullIsSolution(L: LineSystem, known: Partial)
    requires L.Wf() && known.Keys == Cells(L.n) && Legal(L, known)
    ensures forall j: nat :: j < L.n ==> j in known
    ensures Solution(L, AsVec(known, L.n))
  {
    var x := AsVec(known, L.n);
    assert Support(x) == Ones(known);
    forall i | 0 <= i < |L.members| ensures Count(L.members[i], Support(x)) == L.targets[i] {
      assert Rho(L, known, i) >= 0;
      CountNone(L.members[i], Cells(L.n) - known.Keys);
    }
  }

  function Unknowns(L: LineSystem, known: Partial, r: nat): nat
    requires r < |L.members|
  {
    |FreePositions(L.members[r], known, |L.members[r]|)|
  }

  /** Order by key, then by row. */
  predicate Before(keys: seq<nat>, q: nat, r: nat)
    requires q < |keys| && r < |keys|
  {
    keys[q] < keys[r] || (keys[q] == keys[r] && q < r)
  }

  ghost predicate InOrder(keys: seq<nat>, rows: seq<nat>) {
    && (forall k :: 0 <= k < |rows| ==> rows[k] < |keys|)
    && forall k, m :: 0 <= k < m < |rows| ==> Before(keys, rows[k], rows[m])
  }

  lemma InsertInOrder(keys: seq<nat>, rows: seq<nat>, r: nat, at: nat)
    requires InOrder(keys, rows) && r < |keys| && at <= |rows|
    requires forall k :: 0 <= k < at ==> Before(keys, rows[k], r)
    requires forall k :: at <= k < |rows| ==> Before(keys, r, rows[k])
    ensures InOrder(keys, Inserted(rows, r, at))
    ensures forall q: nat :: q in Inserted(rows, r, at) <==> q in rows || q == r
  {
    var t := Inserted(rows, r, at);
    forall k, m | 0 <= k < m < |t| ensures Before(keys, t[k], t[m]) {
      InsertedPair(keys, rows, r, at, k, m);
    }
    forall q: nat ensures q in t <==> q in rows || q == r {
      InsertedMember(rows, r, at, q);
    }
  }

  function Inserted(rows: seq<nat>, r: nat, at: nat): (t: seq<nat>)
    requires at <= |rows|
    ensures |t| == |rows| + 1
    ensures forall k :: 0 <= k < |t| ==> t[k] == if k < at then rows[k] else if k == at then r else rows[k - 1]
  {
    rows[..at] + [r] + rows[at..]
  }

  lemma InsertedPair(keys: seq<nat>, rows: seq<nat>, r: nat, at: nat, k: nat, m: nat)
    requires InOrder(keys, rows) && r < |keys| && at <= |rows| && k < m <= |rows|
    requires forall l :: 0 <= l < at ==> Before(keys, rows[l], r)
    requires forall l :: at <= l < |rows| ==> Before(keys, r, rows[l])
    ensures Before(keys, Inserted(rows, r, at)[k], Inserted(rows, r, at)[m])
  {
  }

  lemma InsertedMember(rows: seq<nat>, r: nat, at: nat, q: nat)
    requires at <= |rows|
    ensures q in Inserted(rows, r, at) <==> q in rows || q == r
  {
    assert rows == rows[..at] + rows[at..];
  }

  /** The rows with a positive key, smallest first. */
  method SortRows(keys: seq<nat>) returns (rows: seq<nat>)
    ensures InOrder(keys, rows)
    ensures forall r: nat :: r in rows <==> r < |keys| && keys[r] > 0
  {
    rows := [];
    for r := 0 to |keys|
      invariant InOrder(keys, rows)
      invariant forall q: nat :: q in rows <==> q < r && keys[q] > 0
    {
      if keys[r] > 0 {
        var at := |rows|;
        while at > 0 && Before(keys, r, rows[at - 1])
          invariant 0 <= at <= |rows|
          invariant forall k :: at <= k < |rows| ==> Before(keys, r, rows[k])
        {
          at := at - 1;
        }
        assert forall k :: 0 <= k < at ==> rows[k] in rows && Before(keys, rows[k], r);
        InsertInOrder(keys, rows, r, at);
        rows := Inserted(rows, r, at);
      }
    }
  }

  /** Why a search came back without a solution. */
  datatype Verdict = Exhausted | OutOfTime(at: nat) | Stalled(known: Partial)

  datatype Choice = NoRow | DeadRow | Branch(row: nat, values: seq<Vec>)

  /** `values` are exactly the candidates of row `r`, which has free cells. */
  ghost predicate CandidatesOf(crc: Vec -> Vec, L: LineSystem, block: Block, known: Partial, r: nat, values: seq<Vec>)
    requires |L.members| == |L.targets| && r < |block.hashes| <= |L.members|
  {
    && Unknowns(L, known, r) > 0
    && (forall k :: 0 <= k < |values| ==> |values[k]| == Unknowns(L, known, r))
    && forall v: Vec :: v in values <==> IsCompletion(crc, block.hashes[r], L, known, r, v)
  }

  ghost function RowKeys(L: LineSystem, known: Partial, s: nat): (keys: seq<nat>)
    requires s <= |L.members|
    ensures |keys| == s && forall r :: 0 <= r < s ==> keys[r] == Unknowns(L, known, r)
  {
    seq(s, r requires 0 <= r < s => Unknowns(L, known, r))
  }

  /** The rows with unknowns, fewest first. */
  ghost predicate TrialOrder(L: LineSystem, known: Partial, s: nat, rows: seq<nat>)
    requires s <= |L.members|
  {
    InOrder(RowKeys(L, known, s), rows) && forall r: nat :: r in rows <==> r < s && Unknowns(L, known, r) > 0
  }

  ghost predicate OnRow(L: LineSystem, s: nat, j: nat)
    requires s <= |L.members|
  {
    exists r :: 0 <= r < s && j in L.members[r]
  }

  /** Every cell is on one of the first `s` lines. */
  ghost predicate RowsCover(L: LineSystem, s: nat) {
    s <= |L.members| && forall j: nat :: j < L.n ==> OnRow(L, s, j)
  }

  ghost predicate SomeRowOpen(L: LineSystem, known: Partial, s: nat)
    requires s <= |L.members|
  {
    exists r :: 0 <= r < s && Unknowns(L, known, r) > 0
  }

  lemma FreeCellOpensRow(L: LineSystem, known: Partial, s: nat, j: nat)
    requires RowsCover(L, s) && j < L.n && j !in known
    ensures SomeRowOpen(L, known, s)
  {
    assert OnRow(L, s, j);
    var r: nat :| r < s && j in L.members[r];
    var pos := L.members[r];
    var p: nat :| p < |pos| && pos[p] == j;
    FreePositionsSpec(pos, known, |pos|);
    assert p in FreePositions(pos, known, |pos|);
    assert Unknowns(L, known, r) > 0;
  }

  /** The row is intractable or has too many candidates to branch on. */
  ghost predicate TooHard(crc: Vec -> Vec, L: LineSystem, block: Block, known: Partial, r: nat)
    requires |L.members| == |L.targets| && IsBlock(crc, L, block) && r < |block.hashes|
  {
    || Beyond(crc, L, known, r, Code(block.gen, block.c0, block.hashes[r]), MAX_FREE, ROW_CANDIDATES)
    || Crowded(crc, block.hashes[r], L, known, r, TOO_MANY)
  }

  /** The row is too hard or has at least `count` candidates. */
  ghost predicate Harder(crc: Vec -> Vec, L: LineSystem, block: Block, known: Partial, r: nat, count: nat)
    requires |L.members| == |L.targets| && IsBlock(crc, L, block) && r < |block.hashes|
  {
    || TooHard(crc, L, block, known, r)
    || (count > 0 && Crowded(crc, block.hashes[r], L, known, r, count - 1))
  }

  /** Each of the first `k` listed rows is too hard or has at least `count` candidates. */
  ghost predicate NoneEasier(crc: Vec -> Vec, L: LineSystem, block: Block, known: Partial, rows: seq<nat>, k: nat,
                             count: nat)
    requires |L.members| == |L.targets| && IsBlock(crc, L, block) && k <= |rows|
  {
    forall m :: 0 <= m < k ==> rows[m] < |block.hashes| && Harder(crc, L, block, known, rows[m], count)
  }

  lemma FewerIsEasier(crc: Vec -> Vec, L: LineSystem, block: Block, known: Partial, rows: seq<nat>, k: nat,
                      count: nat, fewer: nat)
    requires |L.members| == |L.targets| && IsBlock(crc, L, block) && k <= |rows| && 0 < fewer <= count
    requires NoneEasier(crc, L, block, known, rows, k, count)
    ensures NoneEasier(crc, L, block, known, rows, k, fewer)
  {
    forall m | 0 <= m < k ensures Harder(crc, L, block, known, rows[m], fewer) {
      assert Harder(crc, L, block, known, rows[m], count);
    }
  }

  lemma NoneEasierNext(crc: Vec -> Vec, L: LineSystem, block: Block, known: Partial, rows: seq<nat>, k: nat,
                       count: nat)
    requires |L.members| == |L.targets| && IsBlock(crc, L, block) && k < |rows| && rows[k] < |block.hashes|
    requires NoneEasier(crc, L, block, known, rows, k, count) && Harder(crc, L, block, known, rows[k], count)
    ensures NoneEasier(crc, L, block, known, rows, k + 1, count)
  {
  }

  /** How many of `rows` are tried at most. */
  function Tried(rows: seq<nat>): (k: nat)
    ensures k <= |rows|
  {
    if |rows| < ROWS_TRIED then |rows| else ROWS_TRIED
  }

  /** Some row has unknowns, and the rows to be tried, fewest unknowns first, are all too hard. */
  ghost predicate NoTractableRow(crc: Vec -> Vec, L: LineSystem, block: Block, known: Partial, s: nat)
    requires |L.members| == |L.targets| && IsBlock(crc, L, block) && s <= |block.hashes|
  {
    && SomeRowOpen(L, known, s)
    && exists rows: seq<nat> ::
         TrialOrder(L, known, s, rows) && NoneEasier(crc, L, block, known, rows, Tried(rows), 0)
  }

  /** Row `r` with `count` candidates has fewest among the rows tried, which are all rows to be tried unless the
      row is good enough. */
  ghost predicate Fewest(crc: Vec -> Vec, L: LineSystem, block: Block, known: Partial, s: nat, r: nat, count: nat)
    requires |L.members| == |L.targets| && IsBlock(crc, L, block) && s <= |block.hashes|
  {
    exists rows: seq<nat>, k: nat ::
      && TrialOrder(L, known, s, rows) && k <= Tried(rows) && r in rows[..k]
      && NoneEasier(crc, L, block, known, rows, k, count) && (k == Tried(rows) || count <= GOOD_ENOUGH)
  }

  /** Where rows are short enough to be listed, some row can always be branched on. */
  lemma ShortRowsAreTractable(crc: Vec -> Vec, L: LineSystem, block: Block, known: Partial, s: nat)
    requires |L.members| == |L.targets| && IsBlock(crc, L, block) && s <= |block.hashes|
    requires forall r :: 0 <= r < s ==> |L.members[r]| <= MAX_FREE && Pow2(|L.members[r]|) <= TOO_MANY
    ensures !NoTractableRow(crc, L, block, known, s)
  {
    if NoTractableRow(crc, L, block, known, s) {
      var rows: seq<nat> :|
        TrialOrder(L, known, s, rows) && NoneEasier(crc, L, block, known, rows, Tried(rows), 0);
      var q :| 0 <= q < s && Unknowns(L, known, q) > 0;
      assert q in rows;
      var r := rows[0];
      assert r in rows;
      assert Harder(crc, L, block, known, r, 0);
      ShortIsNotWide(L, known, r, Code(block.gen, block.c0, block.hashes[r]), MAX_FREE, true);
      ShortIsNotCrowded(crc, block.hashes[r], L, known, r, ROW_CANDIDATES);
      ShortIsNotCrowded(crc, block.hashes[r], L, known, r, TOO_MANY);
    }
  }

  lemma NoCandidate(crc: Vec -> Vec, L: LineSystem, block: Block, known: Partial, r: nat)
    requires L.Wf() && r < |block.hashes| <= |L.members| && CandidatesOf(crc, L, block, known, r, [])
    ensures DeadEnd(crc, L, block, known)
  {
    forall x: Vec | FullSolution(crc, L, block, x) ensures !Agrees(x, known) {
      if Agrees(x, known) {
        SolutionIsCandidate(crc, L, block, known, r, x);
      }
    }
  }

  /** The candidates of one row: none at all, too many, or a list to branch on. */
  method VisitRow(ghost crc: Vec -> Vec, cs: ConstraintSystem, block: Block, r: nat) returns (choice: Choice)
    requires cs.Valid() && IsBlock(crc, cs.L, block) && r < |block.hashes| && Unknowns(cs.L, cs.known, r) > 0
    ensures choice.DeadRow? ==> DeadEnd(crc, cs.L, block, cs.known)
    ensures choice.Branch? ==> choice.row == r && |choice.values| > 0 && AllDistinct(choice.values)
    ensures choice.Branch? ==> CandidatesOf(crc, cs.L, block, cs.known, r, choice.values)
    ensures choice.NoRow? ==> TooHard(crc, cs.L, block, cs.known, r)
  {
    var list := GenerateCandidates(crc, cs, r, Code(block.gen, block.c0, block.hashes[r]), MAX_FREE, ROW_CANDIDATES);
    if list.Intractable? {
      return NoRow;
    }
    assert CandidatesOf(crc, cs.L, block, cs.known, r, list.values) by {
      forall m | 0 <= m < |list.values| ensures |list.values[m]| == Unknowns(cs.L, cs.known, r) {
        assert list.values[m] in list.values;
      }
    }
    if |list.values| == 0 {
      NoCandidate(crc, cs.L, block, cs.known, r);
      return DeadRow;
    }
    if |list.values| > TOO_MANY {
      assert Crowded(crc, block.hashes[r], cs.L, cs.known, r, TOO_MANY);
      return NoRow;
    }
    choice := Branch(r, list.values);
  }

  /** Picks, among the rows with fewest unknowns, the tractable one with fewest candidates. */
  method ChooseRow(ghost crc: Vec -> Vec, cs: ConstraintSystem, block: Block, s: nat) returns (choice: Choice)
    requires cs.Valid() && IsBlock(crc, cs.L, block) && s <= |block.hashes| && SomeRowOpen(cs.L, cs.known, s)
    ensures choice.DeadRow? ==> DeadEnd(crc, cs.L, block, cs.known)
    ensures choice.Branch? ==> choice.row < s && CandidatesOf(crc, cs.L, block, cs.known, choice.row, choice.values)
    ensures choice.Branch? ==> Fewest(crc, cs.L, block, cs.known, s, choice.row, |choice.values|)
    ensures choice.NoRow? ==> NoTractableRow(crc, cs.L, block, cs.known, s)
  {
    var known := cs.known;
    var rows := SortRows(seq(s, r requires 0 <= r < s => Unknowns(cs.L, known, r)));
    assert RowKeys(cs.L, known, s) == seq(s, r requires 0 <= r < s => Unknowns(cs.L, known, r));
    choice := NoRow;
    for k := 0 to Tried(rows)
      invariant Best(crc, cs.L, block, known, s, rows, k, choice)
    {
      assert rows[k] in rows;
      var next := VisitRow(crc, cs, block, rows[k]);
      if next.DeadRow? {
        return DeadRow;
      }
      BestNext(crc, cs.L, block, known, s, rows, k, choice, next);
      if next.Branch? && (choice.NoRow? || |next.values| < |choice.values|) {
        choice := next;
        if |choice.values| <= GOOD_ENOUGH {
          return;
        }
      }
    }
  }

  /** `choice` is the best of the first `k` rows. */
  ghost predicate Best(crc: Vec -> Vec, L: LineSystem, block: Block, known: Partial, s: nat, rows: seq<nat>, k: nat,
                       choice: Choice)
    requires |L.members| == |L.targets| && IsBlock(crc, L, block) && s <= |block.hashes| && k <= |rows|
  {
    match choice
    case DeadRow => false
    case NoRow => NoneEasier(crc, L, block, known, rows, k, 0)
    case Branch(r, values) =>
      && r < s && r in rows[..k] && |values| > 0 && CandidatesOf(crc, L, block, known, r, values)
      && NoneEasier(crc, L, block, known, rows, k, |values|)
  }

  lemma BestNext(crc: Vec -> Vec, L: LineSystem, block: Block, known: Partial, s: nat, rows: seq<nat>, k: nat,
                 choice: Choice, next: Choice)
    requires L.Wf() && IsBlock(crc, L, block) && s <= |block.hashes| && k < |rows| && rows[k] < s
    requires Best(crc, L, block, known, s, rows, k, choice) && !next.DeadRow?
    requires next.Branch? ==> next.row == rows[k] && |next.values| > 0 && AllDistinct(next.values)
    requires next.Branch? ==> CandidatesOf(crc, L, block, known, next.row, next.values)
    requires next.NoRow? ==> TooHard(crc, L, block, known, rows[k])
    ensures Best(crc, L, block, known, s, rows, k + 1,
                 if next.Branch? && (choice.NoRow? || |next.values| < |choice.values|) then next else choice)
  {
    assert rows[..k + 1] == rows[..k] + [rows[k]];
    var count := if choice.Branch? then |choice.values| else 0;
    if !next.Branch? {
      NoneEasierNext(crc, L, block, known, rows, k, count);
    } else if choice.Branch? && count <= |next.values| {
      assert Crowded(crc, block.hashes[rows[k]], L, known, rows[k], count - 1);
      NoneEasierNext(crc, L, block, known, rows, k, count);
    } else {
      assert Crowded(crc, block.hashes[rows[k]], L, known, rows[k], |next.values| - 1);
      if choice.Branch? {
        FewerIsEasier(crc, L, block, known, rows, k, count, |next.values|);
      }
      NoneEasierNext(crc, L, block, known, rows, k, |next.values|);
    }
  }

  /** No full solution with the fixed values reads `v` on the free cells of row `r`. */
  ghost predicate RuledOut(crc: Vec -> Vec, L: LineSystem, block: Block, known: Partial, r: nat, v: Vec)
    requires L.Wf() && r < |L.members| && |block.hashes| <= |L.members|
  {
    forall x: Vec :: FullSolution(crc, L, block, x) && Agrees(x, known) ==> FreeValues(x, L.members[r], known) != v
  }

  /** The first `k` values are ruled out. */
  ghost predicate RuledOutTo(crc: Vec -> Vec, L: LineSystem, block: Block, known: Partial, r: nat, values: seq<Vec>,
                             k: nat)
    requires L.Wf() && r < |L.members| && |block.hashes| <= |L.members| && k <= |values|
  {
    forall m :: 0 <= m < k ==> RuledOut(crc, L, block, known, r, values[m])
  }

  lemma RuledOutNext(crc: Vec -> Vec, L: LineSystem, block: Block, known: Partial, r: nat, values: seq<Vec>, k: nat)
    requires L.Wf() && r < |L.members| && |block.hashes| <= |L.members| && k < |values|
    requires RuledOutTo(crc, L, block, known, r, values, k) && RuledOut(crc, L, block, known, r, values[k])
    ensures RuledOutTo(crc, L, block, known, r, values, k + 1)
  {
  }

  /** When all completions of a row are ruled out, the state is a dead end. */
  lemma AllRuledOut(crc: Vec -> Vec, L: LineSystem, block: Block, known: Partial, r: nat, values: seq<Vec>)
    requires L.Wf() && r < |block.hashes| <= |L.members|
    requires forall v: Vec :: IsCompletion(crc, block.hashes[r], L, known, r, v) ==> v in values
    requires RuledOutTo(crc, L, block, known, r, values, |values|)
    ensures DeadEnd(crc, L, block, known)
  {
    forall x: Vec | FullSolution(crc, L, block, x) ensures !Agrees(x, known) {
      if Agrees(x, known) {
        SolutionIsCandidate(crc, L, block, known, r, x);
      }
    }
  }

  /** A dead end after filling the row and sound deductions rules the candidate out. */
  lemma DeadAfterFilling(crc: Vec -> Vec, L: LineSystem, block: Block, known: Partial, r: nat, v: Vec,
                         filled: Partial, K: Partial)
    requires L.Wf() && r < |block.hashes| <= |L.members|
    requires |v| == |FreePositions(L.members[r], known, |L.members[r]|)|
    requires IsFilledState(filled, known, L.members[r], v)
    requires FullEntails(crc, L, block, filled, K) && DeadEnd(crc, L, block, K)
    ensures RuledOut(crc, L, block, known, r, v)
  {
    forall x: Vec | FullSolution(crc, L, block, x) && Agrees(x, known)
      ensures FreeValues(x, L.members[r], known) != v
    {
      FilledAgrees(crc, L, block, known, r, v, filled, x);
    }
  }

  lemma IllegalIsDeadEnd(crc: Vec -> Vec, L: LineSystem, block: Block, known: Partial)
    requires L.Wf() && |block.hashes| <= |L.members| && !Legal(L, known)
    ensures DeadEnd(crc, L, block, known)
  {
    forall x: Vec | FullSolution(crc, L, block, x) ensures !Agrees(x, known) {
      if Agrees(x, known) {
        SolutionIsStable(L, x, known);
        forall i | 0 <= i < |L.members| ensures 0 <= Rho(L, known, i) <= U(L, known, i) {
          ResidualsFall(L, known, Total(x), i);
        }
      }
    }
  }

  method AllLinesFeasible(cs: ConstraintSystem) returns (feasible: bool)
    requires cs.Valid()
    ensures feasible == Legal(cs.L, cs.known)
  {
    for i := 0 to |cs.L.members|
      invariant forall l :: 0 <= l < i ==> 0 <= Rho(cs.L, cs.known, l) <= U(cs.L, cs.known, l)
    {
      if cs.rho[i] < 0 || cs.rho[i] > cs.u[i] {
        return false;
      }
    }
    return true;
  }

  /** Filling row `r` with `v` and forcing lines until none can be forced leads from `known` to `forced`. */
  ghost predicate FilledThenForced(L: LineSystem, known: Partial, r: nat, v: Vec, forced: Partial)
    requires |L.members| == |L.targets| && r < |L.members|
  {
    && |v| == Unknowns(L, known, r) && Closed(L, forced)
    && exists filled: Partial :: IsFilledState(filled, known, L.members[r], v) && Derives(L, filled, forced)
  }

  /** Completing lines of the range leads from `K` to `M`, where all of them are undecided. */
  ghost predicate CompletedAll(crc: Vec -> Vec, L: LineSystem, block: Block, first: nat, last: nat, K: Partial,
                               M: Partial)
    requires |L.members| == |L.targets| && IsBlock(crc, L, block) && last <= |block.hashes|
  {
    Leads(Completes(crc, L, block, first, last), K, M) && AllUndecided(crc, L, block, M, first, last, THRESHOLD)
  }

  /** Completing rows as long as any can be, and then columns, leads from `forced` to `K`. */
  ghost predicate CompletedBoth(crc: Vec -> Vec, L: LineSystem, block: Block, s: nat, forced: Partial, K: Partial)
    requires |L.members| == |L.targets| && IsBlock(crc, L, block) && s <= |block.hashes|
  {
    exists rowsDone: Partial ::
      CompletedAll(crc, L, block, 0, s, forced, rowsDone) && CompletedAll(crc, L, block, s, |block.hashes|, rowsDone, K)
  }

  /** Filling row `r`, forcing lines and completing rows and columns leads from `known` to `K`, where no line is out
      of range. */
  ghost predicate Descends(crc: Vec -> Vec, L: LineSystem, block: Block, s: nat, r: nat, v: Vec, known: Partial,
                           K: Partial)
    requires |L.members| == |L.targets| && IsBlock(crc, L, block) && r < s <= |block.hashes|
  {
    Legal(L, K) && exists forced: Partial ::
      FilledThenForced(L, known, r, v, forced) && CompletedBoth(crc, L, block, s, forced, K)
  }

  lemma AllCompleted(crc: Vec -> Vec, L: LineSystem, block: Block, first: nat, last: nat, K: Partial, M: Partial,
                     n: nat)
    requires |L.members| == |L.targets| && IsBlock(crc, L, block) && last <= |block.hashes|
    requires CompletedIn(crc, L, block, first, last, K, M, n)
    requires AllUndecided(crc, L, block, M, first, last, THRESHOLD)
    ensures CompletedAll(crc, L, block, first, last, K, M)
  {
    assert Steps(Completes(crc, L, block, first, last), K, M, n);
  }

  /** Completes rows, then columns. */
  method CompleteBoth(ghost crc: Vec -> Vec, cs: ConstraintSystem, block: Block, s: nat) returns (inconsistent: bool)
    requires cs.Valid() && IsBlock(crc, cs.L, block) && |block.hashes| == 2 * s
    modifies cs
    ensures cs.Valid() && Extends(cs.known, old(cs.known)) && cs.free <= old(cs.free)
    ensures FullEntails(crc, cs.L, block, old(cs.known), cs.known)
    ensures inconsistent ==> DeadEnd(crc, cs.L, block, old(cs.known))
    ensures !inconsistent ==> CompletedBoth(crc, cs.L, block, s, old(cs.known), cs.known)
  {
    ghost var L, start := cs.L, cs.known;
    var rows, _, badRow := TryComplete(crc, cs, block, 0, s, THRESHOLD);
    if badRow {
      return true;
    }
    ghost var rowsDone := cs.known;
    var columns, _, badColumn := TryComplete(crc, cs, block, s, s, THRESHOLD);
    inconsistent := badColumn;
    EntailsChain(crc, L, block, start, rowsDone, cs.known);
    AllCompleted(crc, L, block, 0, s, start, rowsDone, rows);
    if !inconsistent {
      AllCompleted(crc, L, block, s, 2 * s, rowsDone, cs.known, columns);
      assert CompletedAll(crc, L, block, s, |block.hashes|, rowsDone, cs.known);
    }
  }

  /** Fills in a candidate and propagates. */
  method FillRow(ghost crc: Vec -> Vec, cs: ConstraintSystem, block: Block, r: nat, v: Vec)
      returns (conflict: bool, ghost filled: Partial)
    requires cs.Valid() && IsBlock(crc, cs.L, block) && r < |block.hashes|
    requires |v| == Unknowns(cs.L, cs.known, r) > 0
    modifies cs
    ensures cs.Valid() && Extends(cs.known, old(cs.known)) && cs.free < old(cs.free)
    ensures IsFilledState(filled, old(cs.known), cs.L.members[r], v)
    ensures Extends(cs.known, filled) && FullEntails(crc, cs.L, block, filled, cs.known)
    ensures conflict ==> DeadEnd(crc, cs.L, block, filled)
    ensures !conflict ==> FilledThenForced(cs.L, old(cs.known), r, v, cs.known)
  {
    FillLine(cs, r, v);
    filled := cs.known;
    var _, failed := cs.IntBound(true);
    conflict := failed;
    PropagationEntails(crc, cs.L, block, filled, filled, cs.known);
    if conflict {
      ConflictIsDeadEnd(crc, cs.L, block, filled, filled);
    }
  }

  /** Fills in a candidate, propagates, completes rows and columns and checks every line. */
  method Descend(ghost crc: Vec -> Vec, cs: ConstraintSystem, block: Block, s: nat, r: nat, v: Vec)
      returns (viable: bool, ghost filled: Partial)
    requires cs.Valid() && IsBlock(crc, cs.L, block) && |block.hashes| == 2 * s && r < s
    requires |v| == Unknowns(cs.L, cs.known, r) > 0
    modifies cs
    ensures cs.Valid() && Extends(cs.known, old(cs.known)) && cs.free < old(cs.free)
    ensures IsFilledState(filled, old(cs.known), cs.L.members[r], v)
    ensures Extends(cs.known, filled) && FullEntails(crc, cs.L, block, filled, cs.known)
    ensures viable ==> Legal(cs.L, cs.known) && Descends(crc, cs.L, block, s, r, v, old(cs.known), cs.known)
    ensures !viable ==> DeadEnd(crc, cs.L, block, filled)
  {
    var failed;
    failed, filled := FillRow(crc, cs, block, r, v);
    if failed {
      return false, filled;
    }
    ghost var forced := cs.known;
    failed := CompleteBoth(crc, cs, block, s);
    EntailsChain(crc, cs.L, block, filled, forced, cs.known);
    if failed {
      return false, filled;
    }
    viable := AllLinesFeasible(cs);
    if !viable {
      IllegalIsDeadEnd(crc, cs.L, block, cs.known);
      EntailsChain(crc, cs.L, block, filled, cs.known, cs.known);
    }
  }

  /** The line is all fixed and its check value is right. */
  ghost predicate LineRight(crc: Vec -> Vec, h: Vec, pos: seq<nat>, K: Partial) {
    && (forall p :: 0 <= p < |pos| ==> pos[p] in K)
    && crc(seq(|pos|, p requires 0 <= p < |pos| => pos[p] in K && K[pos[p]])) == h
  }

  lemma FilledCell(known: Partial, pos: seq<nat>, v: Vec, filled: Partial, K: Partial, p: nat)
    requires |v| == |FreePositions(pos, known, |pos|)| && p < |pos|
    requires IsFilledState(filled, known, pos, v) && Extends(K, filled)
    ensures pos[p] in K && K[pos[p]] == Filled(pos, known, v)[p]
  {
    if pos[p] in known {
      assert pos[p] in filled;
    } else {
      var t := FreeRank(pos, known, p);
      assert pos[FreePositions(pos, known, |pos|)[t]] in filled;
    }
  }

  /** Filling a line with one of its completions makes its check value right, and it stays so. */
  lemma FilledIsRight(crc: Vec -> Vec, L: LineSystem, h: Vec, known: Partial, r: nat, v: Vec, filled: Partial,
                      K: Partial)
    requires L.Wf() && r < |L.members| && IsCompletion(crc, h, L, known, r, v)
    requires IsFilledState(filled, known, L.members[r], v) && Extends(K, filled)
    ensures LineRight(crc, h, L.members[r], K)
  {
    FilledBits(known, L.members[r], v, filled, K);
  }

  /** Reading a filled line gives its known cells and the candidate. */
  lemma FilledBits(known: Partial, pos: seq<nat>, v: Vec, filled: Partial, K: Partial)
    requires |v| == |FreePositions(pos, known, |pos|)|
    requires IsFilledState(filled, known, pos, v) && Extends(K, filled)
    ensures forall p :: 0 <= p < |pos| ==> pos[p] in K
    ensures seq(|pos|, p requires 0 <= p < |pos| => pos[p] in K && K[pos[p]]) == Filled(pos, known, v)
  {
    forall p: nat | p < |pos| ensures pos[p] in K && K[pos[p]] == Filled(pos, known, v)[p] {
      FilledCell(known, pos, v, filled, K, p);
    }
  }

  /** Some row that was open at `start` has its check value right in `K`. */
  ghost predicate BranchedRight(crc: Vec -> Vec, L: LineSystem, block: Block, s: nat, start: Partial, K: Partial)
    requires s <= |block.hashes| <= |L.members|
  {
    exists r :: 0 <= r < s && Unknowns(L, start, r) > 0 && LineRight(crc, block.hashes[r], L.members[r], K)
  }

  /** `v` is a candidate of row `r`, which the search chooses at `known`. */
  ghost predicate Chosen(crc: Vec -> Vec, L: LineSystem, block: Block, s: nat, r: nat, v: Vec, known: Partial)
    requires |L.members| == |L.targets| && IsBlock(crc, L, block) && s <= |block.hashes|
  {
    exists values: seq<Vec> ::
      && r < s && CandidatesOf(crc, L, block, known, r, values) && v in values
      && Fewest(crc, L, block, known, s, r, |values|)
  }

  /** The search goes on from `known` to `K`: it branches on the row it chooses and descends. */
  ghost predicate BranchStep(crc: Vec -> Vec, L: LineSystem, block: Block, s: nat, known: Partial, K: Partial)
    requires |L.members| == |L.targets| && IsBlock(crc, L, block) && s <= |block.hashes|
  {
    exists r: nat, v: Vec ::
      r < s && Chosen(crc, L, block, s, r, v, known) && Descends(crc, L, block, s, r, v, known, K)
  }

  ghost function Branches(crc: Vec -> Vec, L: LineSystem, block: Block, s: nat): (Partial, Partial) -> bool
    requires |L.members| == |L.targets| && IsBlock(crc, L, block) && s <= |block.hashes|
  {
    (known: Partial, K: Partial) => BranchStep(crc, L, block, s, known, K)
  }

  /** What a failed search that made the readings from `from` up to `to` reports: every matrix is ruled out, or one of
      these readings was past the limit, or some state to which branching leads from `start` has an open row but none
      to branch on. */
  ghost predicate Explains(verdict: Verdict, crc: Vec -> Vec, L: LineSystem, block: Block, s: nat, clock: Clock,
                           from: nat, to: nat, start: Partial)
    requires |L.members| == |L.targets| && IsBlock(crc, L, block) && s <= |block.hashes|
  {
    match verdict
    case Exhausted => true
    case OutOfTime(at) => from <= at < to && clock.Past(at)
    case Stalled(K) => Leads(Branches(crc, L, block, s), start, K) && NoTractableRow(crc, L, block, K, s)
  }

  lemma CandidateChosen(crc: Vec -> Vec, L: LineSystem, block: Block, s: nat, r: nat, values: seq<Vec>, k: nat,
                        known: Partial)
    requires |L.members| == |L.targets| && IsBlock(crc, L, block) && r < s <= |block.hashes| && k < |values|
    requires CandidatesOf(crc, L, block, known, r, values) && Fewest(crc, L, block, known, s, r, |values|)
    ensures IsCompletion(crc, block.hashes[r], L, known, r, values[k])
    ensures Chosen(crc, L, block, s, r, values[k], known)
  {
    assert values[k] in values;
  }

  /** What explains a failure after a branch explains it before. */
  lemma ExplainsBefore(verdict: Verdict, crc: Vec -> Vec, L: LineSystem, block: Block, s: nat, clock: Clock,
                       from: nat, to: nat, r: nat, v: Vec, known: Partial, K: Partial)
    requires |L.members| == |L.targets| && IsBlock(crc, L, block) && s <= |block.hashes| && r < s
    requires Chosen(crc, L, block, s, r, v, known) && Descends(crc, L, block, s, r, v, known, K)
    requires Explains(verdict, crc, L, block, s, clock, from, to, K)
    ensures Explains(verdict, crc, L, block, s, clock, from, to, known)
  {
    if verdict.Stalled? {
      assert BranchStep(crc, L, block, s, known, K);
      StepThenLeads(Branches(crc, L, block, s), known, K, verdict.known);
    }
  }

  /** A reason among some readings is one among more. */
  lemma ExplainsAmongMore(verdict: Verdict, crc: Vec -> Vec, L: LineSystem, block: Block, s: nat, clock: Clock,
                          from: nat, to: nat, first: nat, last: nat, known: Partial)
    requires |L.members| == |L.targets| && IsBlock(crc, L, block) && s <= |block.hashes|
    requires Explains(verdict, crc, L, block, s, clock, from, to, known) && first <= from && to <= last
    ensures Explains(verdict, crc, L, block, s, clock, first, last, known)
  {
  }

  /** Tries one candidate: descends and searches on; every failure restores the state. */
  method TryCandidate(ghost crc: Vec -> Vec, cs: ConstraintSystem, block: Block, s: nat, clock: Clock, tick: nat,
                      r: nat, v: Vec)
      returns (solved: bool, next: nat, ghost verdict: Verdict)
    requires cs.Valid() && IsBlock(crc, cs.L, block) && |block.hashes| == 2 * s && RowsCover(cs.L, s) && r < s
    requires Unknowns(cs.L, cs.known, r) > 0 && IsCompletion(crc, block.hashes[r], cs.L, cs.known, r, v)
    requires Chosen(crc, cs.L, block, s, r, v, cs.known)
    modifies cs
    ensures cs.Valid()
    ensures solved ==> Extends(cs.known, old(cs.known)) && cs.free == {} && Legal(cs.L, cs.known)
    ensures solved ==> LineRight(crc, block.hashes[r], cs.L.members[r], cs.known)
    ensures !solved ==> cs.Snapshot() == old(cs.Snapshot())
    ensures !solved && verdict.Exhausted? ==> RuledOut(crc, cs.L, block, old(cs.known), r, v)
    ensures tick <= next
    ensures !solved ==> Explains(verdict, crc, cs.L, block, s, clock, tick, next, old(cs.known))
    decreases cs.free, 0
  {
    ghost var known := cs.known;
    var snap := cs.Snapshot();
    ghost var filled;
    var viable;
    viable, filled := Descend(crc, cs, block, s, r, v);
    if !viable {
      DeadAfterFilling(crc, cs.L, block, known, r, v, filled, filled);
      cs.Restore(snap);
      return false, tick, Exhausted;
    }
    ghost var K := cs.known;
    solved, next, verdict := SearchRecursive(crc, cs, block, s, clock, tick);
    if solved {
      FilledIsRight(crc, cs.L, block.hashes[r], known, r, v, filled, cs.known);
    } else {
      if verdict.Exhausted? {
        DeadAfterFilling(crc, cs.L, block, known, r, v, filled, K);
      }
      ExplainsBefore(verdict, crc, cs.L, block, s, clock, tick, next, r, v, known, K);
      cs.Restore(snap);
    }
  }

  /** Tries the candidates of a row one after the other. */
  method TryAll(ghost crc: Vec -> Vec, cs: ConstraintSystem, block: Block, s: nat, clock: Clock, tick: nat, r: nat,
                values: seq<Vec>)
      returns (solved: bool, next: nat, ghost verdict: Verdict)
    requires cs.Valid() && IsBlock(crc, cs.L, block) && |block.hashes| == 2 * s && RowsCover(cs.L, s) && r < s
    requires CandidatesOf(crc, cs.L, block, cs.known, r, values)
    requires Fewest(crc, cs.L, block, cs.known, s, r, |values|)
    modifies cs
    ensures cs.Valid()
    ensures solved ==> Extends(cs.known, old(cs.known)) && cs.free == {} && Legal(cs.L, cs.known)
    ensures solved ==> LineRight(crc, block.hashes[r], cs.L.members[r], cs.known)
    ensures !solved ==> cs.Snapshot() == old(cs.Snapshot())
    ensures !solved && verdict.Exhausted? ==> DeadEnd(crc, cs.L, block, old(cs.known))
    ensures tick <= next
    ensures !solved ==> Explains(verdict, crc, cs.L, block, s, clock, tick, next, old(cs.known))
    decreases cs.free, 1
  {
    ghost var known := cs.known;
    next, verdict := tick, Exhausted;
    for k := 0 to |values|
      invariant cs.Valid() && cs.Snapshot() == old(cs.Snapshot())
      invariant verdict.Exhausted? ==> RuledOutTo(crc, cs.L, block, known, r, values, k)
      invariant tick <= next && Explains(verdict, crc, cs.L, block, s, clock, tick, next, known)
    {
      CandidateChosen(crc, cs.L, block, s, r, values, k, known);
      ghost var sub, before := Exhausted, next;
      solved, next, sub := TryCandidate(crc, cs, block, s, clock, next, r, values[k]);
      if solved {
        return true, next, Exhausted;
      }
      ExplainsAmongMore(sub, crc, cs.L, block, s, clock, before, next, tick, next, known);
      ExplainsAmongMore(verdict, crc, cs.L, block, s, clock, tick, before, tick, next, known);
      if sub.Exhausted? && verdict.Exhausted? {
        RuledOutNext(crc, cs.L, block, known, r, values, k);
      }
      verdict := if sub.Exhausted? then verdict else sub;
    }
    if verdict.Exhausted? {
      AllRuledOut(crc, cs.L, block, known, r, values);
    }
    return false, next, verdict;
  }

  /** The search; it reads the clock first, reading number `tick`, and gives up if that is past the limit. Success
      leaves every cell fixed; it meets every line target if the starting state broke no line, and the row branched on
      has its check value right. Failure leaves the starting state untouched. An exhaustive failure means that no matrix
      with these sums and check values has the starting values; any other has the stated reason. */
  method SearchRecursive(ghost crc: Vec -> Vec, cs: ConstraintSystem, block: Block, s: nat, clock: Clock, tick: nat)
      returns (solved: bool, next: nat, ghost verdict: Verdict)
    requires cs.Valid() && IsBlock(crc, cs.L, block) && |block.hashes| == 2 * s && RowsCover(cs.L, s)
    modifies cs
    ensures cs.Valid()
    ensures solved ==> Extends(cs.known, old(cs.known)) && cs.free == {}
    ensures solved && Legal(cs.L, old(cs.known)) ==> Legal(cs.L, cs.known)
    ensures solved && old(cs.free) != {} ==> BranchedRight(crc, cs.L, block, s, old(cs.known), cs.known)
    ensures !solved ==> cs.Snapshot() == old(cs.Snapshot())
    ensures !solved && verdict.Exhausted? ==> DeadEnd(crc, cs.L, block, old(cs.known))
    ensures tick < next && (clock.Past(tick) ==> !solved && verdict == OutOfTime(tick))
    ensures !solved ==> Explains(verdict, crc, cs.L, block, s, clock, tick, next, old(cs.known))
    decreases cs.free, 2
  {
    next := tick + 1;
    if clock.Past(tick) {
      return false, next, OutOfTime(tick);
    }
    if cs.free == {} {
      return true, next, Exhausted;
    }
    ghost var j :| j in cs.free;
    FreeCellOpensRow(cs.L, cs.known, s, j);
    var choice := ChooseRow(crc, cs, block, s);
    match choice
    case DeadRow => return false, next, Exhausted;
    case NoRow =>
      LeadsNowhere(Branches(crc, cs.L, block, s), cs.known);
      return false, next, Stalled(cs.known);
    case Branch(r, values) =>
      ghost var first := next;
      solved, next, verdict := TryAll(crc, cs, block, s, clock, next, r, values);
      if !solved {
        ExplainsAmongMore(verdict, crc, cs.L, block, s, clock, first, next, tick, next, cs.known);
      }
  }
}
