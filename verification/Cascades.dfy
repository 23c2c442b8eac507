/** Two further forms of the forcing cascade: repeated sweeps over all lines, and a queue of cells.
    Each ends in the least stable extension of its start, so they agree with the line worklist. */
module Cascades {
  import opened Gf2
  import opened Lines
  import opened Propagation

  /** Forces one line if it is due. */
  method SweepLine(cs: ConstraintSystem, i: nat, ghost start: Partial) returns (forced: nat)
    requires cs.Valid() && Extends(cs.known, start) && Below(cs.L, start, cs.known) && i < |cs.L.members|
    modifies cs
    ensures cs.Valid() && Extends(cs.known, start) && Below(cs.L, start, cs.known)
    ensures |cs.free| + forced == |old(cs.free)| && cs.free <= old(cs.free) && (forced > 0 ==> cs.free < old(cs.free))
    ensures forced == 0 ==> cs.known == old(cs.known) && !Forcing(cs.L, cs.known, i)
  {
    forced := 0;
    if cs.u[i] > 0 && (cs.rho[i] == 0 || cs.rho[i] == cs.u[i]) {
      ForceIsSound(cs.L, start, cs.known, i, cs.rho[i] != 0);
      ForceFixes(cs.L, cs.known, i, cs.rho[i] != 0);
      forced := cs.SetLine(i, cs.rho[i] != 0);
    }
  }

  lemma ForceFixes(L: LineSystem, known: Partial, i: nat, v: bool)
    requires L.Wf() && i < |L.members| && Forcing(L, known, i)
    ensures Force(known, L.members[i], v) != known
  {
    UPositive(L, known, i);
    var j: nat :| j in L.members[i] && j !in known;
    assert j in Force(known, L.members[i], v);
  }

  /** None of the first `k` lines forces anything. */
  ghost predicate UnforcedTo(L: LineSystem, known: Partial, k: nat)
    requires |L.members| == |L.targets| && k <= |L.members|
  {
    forall i :: 0 <= i < k ==> !Forcing(L, known, i)
  }

  lemma UnforcedNext(L: LineSystem, known: Partial, k: nat)
    requires |L.members| == |L.targets| && k < |L.members|
    ensures UnforcedTo(L, known, k) && !Forcing(L, known, k) <==> UnforcedTo(L, known, k + 1)
  {
  }

  /** One pass over all lines. */
  method SweepOnce(cs: ConstraintSystem, ghost start: Partial) returns (forced: nat)
    requires cs.Valid() && Extends(cs.known, start) && Below(cs.L, start, cs.known)
    modifies cs
    ensures cs.Valid() && Extends(cs.known, start) && Below(cs.L, start, cs.known)
    ensures |cs.free| + forced == |old(cs.free)| && cs.free <= old(cs.free) && (forced > 0 ==> cs.free < old(cs.free))
    ensures forced == 0 ==>
      cs.known == old(cs.known) && forall i :: 0 <= i < |cs.L.members| ==> !Forcing(cs.L, cs.known, i)
  {
    forced := 0;
    ghost var L, before := cs.L, cs.known;
    for i := 0 to |cs.L.members|
      invariant cs.Valid() && Extends(cs.known, start) && Below(L, start, cs.known)
      invariant |cs.free| + forced == |old(cs.free)|
      invariant cs.free <= old(cs.free) && (forced > 0 ==> cs.free < old(cs.free))
      invariant forced == 0 ==> cs.known == before && UnforcedTo(L, before, i)
    {
      var count := SweepLine(cs, i, start);
      forced := forced + count;
      UnforcedNext(L, before, i);
    }
  }

  /** Sweeps over all lines until a sweep changes nothing. */
  method PropagateSweep(cs: ConstraintSystem) returns (forced: nat)
    requires cs.Valid()
    modifies cs
    ensures cs.Valid() && Extends(cs.known, old(cs.known)) && Below(cs.L, old(cs.known), cs.known)
    ensures |cs.free| + forced == |old(cs.free)|
    ensures forall i :: 0 <= i < |cs.L.members| ==> !Forcing(cs.L, cs.known, i)
    ensures (exists M: Partial :: Stable(cs.L, old(cs.known), M)) ==> LeastStable(cs.L, old(cs.known), cs.known)
  {
    forced := 0;
    ghost var start, startFree := cs.known, cs.free;
    var changed := true;
    while changed
      invariant cs.Valid() && Extends(cs.known, start) && Below(cs.L, start, cs.known)
      invariant |cs.free| + forced == |startFree|
      invariant !changed ==> forall i :: 0 <= i < |cs.L.members| ==> !Forcing(cs.L, cs.known, i)
      decreases cs.free, changed
    {
      var count := SweepOnce(cs, start);
      forced, changed := forced + count, count > 0;
    }
    UnforcedIsLeast(cs.L, start, cs.known);
  }

  lemma UnforcedIsLeast(L: LineSystem, start: Partial, known: Partial)
    requires L.Wf() && Extends(known, start) && known.Keys <= Cells(L.n) && Below(L, start, known)
    requires forall i :: 0 <= i < |L.members| ==> !Forcing(L, known, i)
    ensures (exists M: Partial :: Stable(L, start, M)) ==> LeastStable(L, start, known)
  {
    forall M: Partial | Stable(L, start, M) ensures LeastStable(L, start, known) {
      forall i | 0 <= i < |L.members| ensures Quiet(L, known, i) {
        assert !Forcing(L, known, i);
        if OutOfRange(L, known, i) {
          OutOfRangeIsFinal(L, start, known, i, M);
        }
      }
      ClosedIsLeast(L, start, known, M);
    }
  }

  // ---- the cell queue ----

  type CellQueue = seq<(nat, bool)>

  /** Every stable extension gives cell `c` the value `v`. */
  ghost predicate Promised(L: LineSystem, start: Partial, c: nat, v: bool)
    requires |L.members| == |L.targets|
  {
    c < L.n && forall M: Partial :: Stable(L, start, M) ==> c in M && M[c] == v
  }

  ghost predicate AllPromised(L: LineSystem, start: Partial, queue: CellQueue)
    requires |L.members| == |L.targets|
  {
    forall k :: 0 <= k < |queue| ==> Promised(L, start, queue[k].0, queue[k].1)
  }

  ghost predicate Queued(queue: CellQueue, c: nat) {
    exists k :: 0 <= k < |queue| && queue[k].0 == c
  }

  /** If line `i` forces its cells, they are all waiting in the queue. */
  ghost predicate Pending(L: LineSystem, known: Partial, queue: CellQueue, i: nat)
    requires i < |L.members| && |L.members| == |L.targets|
  {
    Forcing(L, known, i) ==> forall c :: c in L.members[i] && c !in known ==> Queued(queue, c)
  }

  method TryForceLine(cs: ConstraintSystem, i: nat, queue0: CellQueue, ghost start: Partial) returns (queue: CellQueue)
    requires cs.Valid() && i < |cs.L.members| && Below(cs.L, start, cs.known)
    requires AllPromised(cs.L, start, queue0)
    ensures AllPromised(cs.L, start, queue)
    ensures |queue0| <= |queue| && queue[..|queue0|] == queue0
    ensures Pending(cs.L, cs.known, queue, i)
    ensures forall l ::
      0 <= l < |cs.L.members| && Pending(cs.L, cs.known, queue0, l) ==> Pending(cs.L, cs.known, queue, l)
  {
    queue := AppendForced(cs, i, queue0, start);
    forall l | 0 <= l < |cs.L.members| && Pending(cs.L, cs.known, queue0, l)
      ensures Pending(cs.L, cs.known, queue, l)
    {
      PendingGrows(cs.L, cs.known, queue0, queue, l);
    }
  }

  method AppendForced(cs: ConstraintSystem, i: nat, queue0: CellQueue, ghost start: Partial) returns (queue: CellQueue)
    requires cs.Valid() && i < |cs.L.members| && Below(cs.L, start, cs.known)
    requires AllPromised(cs.L, start, queue0)
    ensures AllPromised(cs.L, start, queue)
    ensures |queue0| <= |queue| && queue[..|queue0|] == queue0
    ensures Pending(cs.L, cs.known, queue, i)
  {
    queue := queue0;
    if cs.u[i] == 0 || (cs.rho[i] != 0 && cs.rho[i] != cs.u[i]) {
      return;
    }
    var v, ms := cs.rho[i] != 0, cs.L.members[i];
    ForceIsSound(cs.L, start, cs.known, i, v);
    for k := 0 to |ms|
      invariant AllPromised(cs.L, start, queue)
      invariant |queue0| <= |queue| && queue[..|queue0|] == queue0
      invariant forall m :: 0 <= m < k && ms[m] !in cs.known ==> Queued(queue, ms[m])
    {
      ghost var before := queue;
      if ms[k] in cs.free {
        assert forall M: Partial :: Stable(cs.L, start, M) ==> Extends(M, Force(cs.known, ms, v));
        assert ms[k] in ms;
        queue := queue + [(ms[k], v)];
        assert queue[|before|].0 == ms[k];
      }
      QueuedGrows(before, queue);
    }
  }

  lemma QueuedGrows(before: CellQueue, queue: CellQueue)
    requires |before| <= |queue| && queue[..|before|] == before
    ensures forall c :: Queued(before, c) ==> Queued(queue, c)
  {
    forall c | Queued(before, c) ensures Queued(queue, c) {
      var k :| 0 <= k < |before| && before[k].0 == c;
      assert queue[k] == before[k];
    }
  }

  lemma PendingGrows(L: LineSystem, known: Partial, before: CellQueue, queue: CellQueue, i: nat)
    requires i < |L.members| && |L.members| == |L.targets|
    requires Pending(L, known, before, i) && |before| <= |queue| && queue[..|before|] == before
    ensures Pending(L, known, queue, i)
  {
    QueuedGrows(before, queue);
  }

  /** Fixing a queued cell keeps the other lines pending. */
  lemma PendingKept(L: LineSystem, known: Partial, queue: CellQueue, rest: CellQueue, c: nat, v: bool, i: nat)
    requires L.Wf() && i < |L.members| && c < L.n && c !in known && c !in L.members[i]
    requires Pending(L, known, [(c, v)] + queue, i)
    requires |queue| <= |rest| && rest[..|queue|] == queue
    ensures Pending(L, known[c := v], rest, i)
  {
    UntouchedLine(L, known, known[c := v], i);
    if Forcing(L, known, i) {
      forall d | d in L.members[i] && d !in known[c := v] ensures Queued(rest, d) {
        assert Queued([(c, v)] + queue, d);
        var k :| 0 <= k < |queue| + 1 && ([(c, v)] + queue)[k].0 == d;
        assert rest[k - 1] == queue[k - 1];
      }
    }
  }

  method TryForceLines(cs: ConstraintSystem, ls: seq<nat>, queue0: CellQueue, ghost start: Partial)
      returns (queue: CellQueue)
    requires cs.Valid() && Below(cs.L, start, cs.known) && AllPromised(cs.L, start, queue0)
    requires forall k :: 0 <= k < |ls| ==> ls[k] < |cs.L.members|
    ensures AllPromised(cs.L, start, queue)
    ensures |queue0| <= |queue| && queue[..|queue0|] == queue0
    ensures forall k :: 0 <= k < |ls| ==> Pending(cs.L, cs.known, queue, ls[k])
  {
    queue := queue0;
    for k := 0 to |ls|
      invariant AllPromised(cs.L, start, queue)
      invariant |queue0| <= |queue| && queue[..|queue0|] == queue0
      invariant forall m :: 0 <= m < k ==> Pending(cs.L, cs.known, queue, ls[m])
    {
      queue := TryForceLine(cs, ls[k], queue, start);
    }
  }

  /** Sets the first queued cell and looks again at every line through it. */
  method PopCell(cs: ConstraintSystem, c: nat, v: bool, queue0: CellQueue, ghost start: Partial)
      returns (queue: CellQueue)
    requires cs.Valid() && c in cs.free
    requires Extends(cs.known, start) && Below(cs.L, start, cs.known)
    requires Promised(cs.L, start, c, v) && AllPromised(cs.L, start, queue0)
    requires forall l :: 0 <= l < |cs.L.members| ==> Pending(cs.L, cs.known, [(c, v)] + queue0, l)
    modifies cs
    ensures cs.Valid() && cs.known == old(cs.known)[c := v] && |cs.free| + 1 == |old(cs.free)|
    ensures Below(cs.L, start, cs.known) && AllPromised(cs.L, start, queue)
    ensures forall l :: 0 <= l < |cs.L.members| ==> Pending(cs.L, cs.known, queue, l)
  {
    ghost var before := cs.known;
    cs.Determine(c, v);
    assert Below(cs.L, start, cs.known) by {
      forall M: Partial | Stable(cs.L, start, M) ensures Extends(M, cs.known) {
        assert Extends(M, before);
      }
    }
    var ls := cs.cellLines[c];
    assert LinesThrough(cs.L, c, ls);
    queue := TryForceLines(cs, ls, queue0, start);
    forall l | 0 <= l < |cs.L.members| ensures Pending(cs.L, cs.known, queue, l) {
      if c !in cs.L.members[l] {
        PendingKept(cs.L, before, queue0, queue, c, v, l);
      } else {
        assert l in ls;
      }
    }
  }

  lemma DropKnown(L: LineSystem, known: Partial, queue: CellQueue, c: nat, v: bool, i: nat)
    requires i < |L.members| && |L.members| == |L.targets| && c in known
    requires Pending(L, known, [(c, v)] + queue, i)
    ensures Pending(L, known, queue, i)
  {
    if Forcing(L, known, i) {
      forall d | d in L.members[i] && d !in known ensures Queued(queue, d) {
        var k :| 0 <= k < |queue| + 1 && ([(c, v)] + queue)[k].0 == d;
        assert queue[k - 1].0 == d;
      }
    }
  }

  /** Takes the first cell off the queue and sets it, unless it is set already. */
  method StepQueue(cs: ConstraintSystem, queue0: CellQueue, ghost start: Partial) returns (queue: CellQueue, step: nat)
    requires cs.Valid() && Extends(cs.known, start) && Below(cs.L, start, cs.known)
    requires queue0 != [] && AllPromised(cs.L, start, queue0)
    requires forall l :: 0 <= l < |cs.L.members| ==> Pending(cs.L, cs.known, queue0, l)
    modifies cs
    ensures cs.Valid() && Extends(cs.known, start) && Below(cs.L, start, cs.known)
    ensures AllPromised(cs.L, start, queue)
    ensures forall l :: 0 <= l < |cs.L.members| ==> Pending(cs.L, cs.known, queue, l)
    ensures |cs.free| + step == |old(cs.free)| && (step == 0 ==> |queue| < |queue0|)
  {
    var (c, v) := queue0[0];
    assert Promised(cs.L, start, queue0[0].0, queue0[0].1);
    queue, step := queue0[1..], 0;
    assert queue0 == [(c, v)] + queue;
    if c in cs.free {
      queue := PopCell(cs, c, v, queue, start);
      step := 1;
    } else {
      forall l | 0 <= l < |cs.L.members| ensures Pending(cs.L, cs.known, queue, l) {
        DropKnown(cs.L, cs.known, queue, c, v, l);
      }
    }
  }

  /** The cascade driven by a queue of single-cell assignments; a cell already set is skipped. */
  method SimulatePropagation(cs: ConstraintSystem) returns (forced: nat)
    requires cs.Valid()
    modifies cs
    ensures cs.Valid() && Extends(cs.known, old(cs.known)) && Below(cs.L, old(cs.known), cs.known)
    ensures |cs.free| + forced == |old(cs.free)|
    ensures forall i :: 0 <= i < |cs.L.members| ==> !Forcing(cs.L, cs.known, i)
    ensures (exists M: Partial :: Stable(cs.L, old(cs.known), M)) ==> LeastStable(cs.L, old(cs.known), cs.known)
  {
    ghost var start := cs.known;
    forced := 0;
    var all: seq<nat> := seq(|cs.L.members|, i requires 0 <= i < |cs.L.members| => i);
    var queue := TryForceLines(cs, all, [], start);
    forall l | 0 <= l < |cs.L.members| ensures Pending(cs.L, cs.known, queue, l) {
      assert all[l] == l;
    }
    while queue != []
      invariant cs.Valid() && Extends(cs.known, start) && Below(cs.L, start, cs.known)
      invariant |cs.free| + forced == |old(cs.free)|
      invariant AllPromised(cs.L, start, queue)
      invariant forall l :: 0 <= l < |cs.L.members| ==> Pending(cs.L, cs.known, queue, l)
      decreases |cs.free|, |queue|
    {
      var step;
      queue, step := StepQueue(cs, queue, start);
      forced := forced + step;
    }
    forall i | 0 <= i < |cs.L.members| ensures !Forcing(cs.L, cs.known, i) {
      assert Pending(cs.L, cs.known, queue, i);
      UPositive(cs.L, cs.known, i);
    }
    UnforcedIsLeast(cs.L, start, cs.known);
  }

  /** The correct values of the first `c` cells. */
  ghost function FirstCells(x: Vec, c: nat): (known: Partial)
    requires c <= |x|
    ensures known.Keys == Cells(c) && Agrees(x, known)
  {
    map j | j in Cells(c) :: x[j]
  }

  /** One more correct value on top of the least stable extension of the ones before. */
  lemma NextCell(L: LineSystem, x: Vec, c: nat, K: Partial, M: Partial)
    requires L.Wf() && c < |x| && LeastStable(L, FirstCells(x, c), K) && Agrees(x, K)
    requires if c in K then M == K else LeastStable(L, K[c := x[c]], M)
    ensures LeastStable(L, FirstCells(x, c + 1), M)
  {
    var first := FirstCells(x, c + 1);
    assert Extends(first, FirstCells(x, c)) && first[c] == x[c];
    assert Extends(M, K) && c in M && M[c] == x[c];
    forall j | j in first ensures j in M && M[j] == first[j] {
      assert j < c ==> j in FirstCells(x, c);
    }
    forall N: Partial | Stable(L, first, N) ensures Extends(N, M) {
      assert Stable(L, FirstCells(x, c), N);
      assert c !in K ==> Stable(L, K[c := x[c]], N);
    }
  }

  /** Assigns the correct value of a free cell and propagates; a fixed cell is left alone. */
  method VisitCell(cs: ConstraintSystem, c: nat, x: Vec) returns (branched: nat, cascade: nat)
    requires cs.Valid() && Solution(cs.L, x) && Agrees(x, cs.known) && c < cs.L.n
    requires LeastStable(cs.L, FirstCells(x, c), cs.known)
    modifies cs
    ensures cs.Valid() && Agrees(x, cs.known) && LeastStable(cs.L, FirstCells(x, c + 1), cs.known)
    ensures branched == if c in old(cs.known) then 0 else 1
    ensures |cs.free| + branched + cascade == |old(cs.free)|
  {
    branched, cascade := 0, 0;
    ghost var known := cs.known;
    if c in cs.free {
      cs.Determine(c, x[c]);
      ghost var before := cs.known;
      assert c in before && Agrees(x, before);
      SolutionIsStable(cs.L, x, before);
      cascade := PropagateSweep(cs);
      BelowAgrees(cs.L, before, cs.known, x);
      branched := 1;
    }
    NextCell(cs.L, x, c, known, cs.known);
  }

  /** `states[c]` is the least stable extension of the first `c` correct values. */
  ghost predicate LeastAt(L: LineSystem, x: Vec, states: seq<Partial>, c: nat)
    requires |L.members| == |L.targets| && c < |states| && c <= |x|
  {
    LeastStable(L, FirstCells(x, c), states[c])
  }

  /** The first `n` cells that the state before them leaves free. */
  ghost function LeftFree(states: seq<Partial>, n: nat): set<nat>
    requires n <= |states|
  {
    set c: nat | c in Cells(n) && c !in states[c]
  }

  lemma LeftFreeNext(states: seq<Partial>, more: Partial, n: nat)
    requires |states| == n + 1
    ensures |LeftFree(states + [more], n + 1)| == |LeftFree(states, n)| + if n in states[n] then 0 else 1
  {
    var longer := LeftFree(states + [more], n + 1);
    if n in states[n] {
      assert longer == LeftFree(states, n);
    } else {
      assert longer == LeftFree(states, n) + {n};
    }
  }

  /** Branching on the correct value of every cell left free, with propagation in between, rebuilds the matrix:
      nothing the cascade forces is ever wrong. A cell is branched on exactly if the least stable extension of the
      correct values of all cells before it leaves it free. */
  method RunCorrectPath(cs: ConstraintSystem, x: Vec) returns (branched: nat, forced: nat, ghost states: seq<Partial>)
    requires cs.Valid() && Solution(cs.L, x) && cs.known == map[]
    modifies cs
    ensures cs.Valid() && cs.known == Total(x) && branched + forced == cs.L.n
    ensures |states| == cs.L.n + 1 && forall c :: 0 <= c <= cs.L.n ==> LeastAt(cs.L, x, states, c)
    ensures branched == |LeftFree(states, cs.L.n)|
  {
    branched := 0;
    assert FirstCells(x, 0) == map[];
    SolutionIsStable(cs.L, x, map[]);
    forced := PropagateSweep(cs);
    BelowAgrees(cs.L, map[], cs.known, x);
    states := [cs.known];
    for c := 0 to cs.L.n
      invariant cs.Valid() && Agrees(x, cs.known)
      invariant |states| == c + 1 && states[c] == cs.known
      invariant forall d :: 0 <= d <= c ==> LeastAt(cs.L, x, states, d)
      invariant branched == |LeftFree(states, c)|
      invariant |cs.free| + branched + forced == |old(cs.free)|
    {
      assert LeastAt(cs.L, x, states, c);
      var b, cascade := VisitCell(cs, c, x);
      branched, forced := branched + b, forced + cascade;
      LeftFreeNext(states, cs.known, c);
      LeastAtNext(cs.L, x, states, cs.known, c);
      states := states + [cs.known];
    }
    FullyKnown(cs, x, states);
    assert cs.free == {} && old(cs.free) == Cells(cs.L.n);
    CellsSize(cs.L.n);
  }

  lemma LeastAtNext(L: LineSystem, x: Vec, states: seq<Partial>, more: Partial, c: nat)
    requires |L.members| == |L.targets| && |states| == c + 1 <= |x|
    requires forall d :: 0 <= d <= c ==> LeastAt(L, x, states, d)
    requires LeastStable(L, FirstCells(x, c + 1), more)
    ensures forall d :: 0 <= d <= c + 1 ==> LeastAt(L, x, states + [more], d)
  {
    forall d | 0 <= d <= c + 1 ensures LeastAt(L, x, states + [more], d) {
      assert d <= c ==> LeastAt(L, x, states, d);
    }
  }

  lemma FullyKnown(cs: ConstraintSystem, x: Vec, states: seq<Partial>)
    requires cs.Valid() && |x| == cs.L.n && |states| == cs.L.n + 1 && states[cs.L.n] == cs.known
    requires LeastAt(cs.L, x, states, cs.L.n)
    ensures cs.known == Total(x) && cs.free == {}
  {
    assert Extends(cs.known, FirstCells(x, cs.L.n));
    forall j: nat | j < cs.L.n ensures j in cs.known && cs.known[j] == x[j] {
      assert j in FirstCells(x, cs.L.n);
    }
  }
}
