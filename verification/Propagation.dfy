/** The mutable constraint state and the integer propagation run on it. */
module Propagation {
  import opened Gf2
  import opened Lines

  /** `ls` lists the lines through cell `j`, each once. */
  ghost predicate LinesThrough(L: LineSystem, j: nat, ls: seq<nat>) {
    && Distinct(ls)
    && (forall k :: 0 <= k < |ls| ==> ls[k] < |L.members|)
    && (forall i: nat :: i < |L.members| ==> (i in ls <==> j in L.members[i]))
  }

  ghost predicate IsTranspose(L: LineSystem, cellLines: seq<seq<nat>>) {
    |cellLines| == L.n && forall j :: 0 <= j < L.n ==> LinesThrough(L, j, cellLines[j])
  }

  method BuildCellLines(L: LineSystem) returns (cellLines: seq<seq<nat>>)
    requires L.Wf()
    ensures IsTranspose(L, cellLines)
  {
    cellLines := seq(L.n, _ => []);
    for i := 0 to |L.members|
      invariant |cellLines| == L.n
      invariant forall j :: 0 <= j < L.n ==>
        LinesThrough(LineSystem(L.n, L.members[..i], L.targets[..i]), j, cellLines[j])
    {
      var ms := L.members[i];
      ghost var before := cellLines;
      for k := 0 to |ms|
        invariant |cellLines| == L.n
        invariant forall j :: 0 <= j < L.n ==>
          cellLines[j] == if j in ms[..k] then before[j] + [i] else before[j]
      {
        assert ms[..k + 1] == ms[..k] + [ms[k]];
        cellLines := cellLines[ms[k] := cellLines[ms[k]] + [i]];
      }
      assert ms[..|ms|] == ms;
      forall j | 0 <= j < L.n
        ensures LinesThrough(LineSystem(L.n, L.members[..i + 1], L.targets[..i + 1]), j, cellLines[j])
      {
        LinesThroughNext(L, j, i, before[j], cellLines[j]);
      }
    }
  }

  lemma LinesThroughNext(L: LineSystem, j: nat, i: nat, before: seq<nat>, after: seq<nat>)
    requires L.Wf() && i < |L.members|
    requires LinesThrough(LineSystem(L.n, L.members[..i], L.targets[..i]), j, before)
    requires after == if j in L.members[i] then before + [i] else before
    ensures LinesThrough(LineSystem(L.n, L.members[..i + 1], L.targets[..i + 1]), j, after)
  {
    forall l: nat | l < i + 1 ensures l in after <==> j in L.members[..i + 1][l] {
      if l < i {
        assert l in before <==> j in L.members[..i][l];
      } else {
        assert forall k :: 0 <= k < |before| ==> before[k] < i;
      }
    }
  }

  /** The queue holds distinct lines and `inQueue` is the set of its entries. */
  ghost predicate Mirrors(queue: seq<nat>, inQueue: set<nat>, lines: nat) {
    && Distinct(queue)
    && (forall l: nat :: l in inQueue <==> l in queue)
    && (forall l: nat :: l in queue ==> l < lines)
  }

  method Enqueue(queue0: seq<nat>, inQueue0: set<nat>, ls: seq<nat>, ghost lines: nat)
      returns (queue: seq<nat>, inQueue: set<nat>)
    requires Mirrors(queue0, inQueue0, lines) && forall l: nat :: l in ls ==> l < lines
    ensures Mirrors(queue, inQueue, lines)
    ensures inQueue == inQueue0 + (set l: nat | l in ls)
  {
    queue, inQueue := queue0, inQueue0;
    for k := 0 to |ls|
      invariant Mirrors(queue, inQueue, lines)
      invariant inQueue == inQueue0 + (set l: nat | l in ls[..k])
    {
      assert ls[..k + 1] == ls[..k] + [ls[k]];
      assert ls[k] in ls;
      if ls[k] !in inQueue {
        queue := queue + [ls[k]];
        inQueue := inQueue + {ls[k]};
      }
    }
    assert ls[..|ls|] == ls;
  }

  /** What `known` fixes beyond `start`. */
  ghost function Gain(start: Partial, known: Partial): Partial {
    map j | j in known && j !in start :: known[j]
  }

  lemma GainStep(start: Partial, known: Partial, j: nat, v: bool)
    requires Extends(known, start) && j !in known
    ensures Gain(start, known[j := v]) == Gain(start, known)[j := v]
  {
  }

  /** Every line through a cell fixed since `before` is in the queue. */
  ghost predicate LinesQueued(cellLines: seq<seq<nat>>, before: Partial, known: Partial, inQueue: set<nat>) {
    forall j: nat :: j < |cellLines| && j in known && j !in before ==> forall l :: l in cellLines[j] ==> l in inQueue
  }

  /** A line left out of the queue was not touched. */
  lemma UnqueuedLine(L: LineSystem, cellLines: seq<seq<nat>>, before: Partial, known: Partial, inQueue: set<nat>,
                     l: nat)
    requires L.Wf() && IsTranspose(L, cellLines) && Extends(known, before)
    requires LinesQueued(cellLines, before, known, inQueue) && l < |L.members| && l !in inQueue
    ensures SameLine(L, before, known, l)
  {
    forall j | j in L.members[l] ensures j in known <==> j in before {
      assert LinesThrough(L, j, cellLines[j]);
    }
    UntouchedLine(L, before, known, l);
  }

  lemma ForceStep(known: Partial, ms: seq<nat>, v: bool, k: nat)
    requires k < |ms|
    ensures Force(known, ms[..k + 1], v) ==
      if ms[k] in Force(known, ms[..k], v) then Force(known, ms[..k], v) else Force(known, ms[..k], v)[ms[k] := v]
  {
    assert ms[..k + 1] == ms[..k] + [ms[k]];
  }

  class ConstraintSystem {
    const L: LineSystem
    const cellLines: seq<seq<nat>>
    var known: Partial
    var free: set<nat>
    var rho: seq<int>
    var u: seq<int>

    /** Fixed and free cells partition the grid; residuals and counts are those of the fixed cells. */
    ghost predicate Valid()
      reads this
    {
      && L.Wf() && IsTranspose(L, cellLines)
      && known.Keys <= Cells(L.n) && (forall j: nat :: j in free <==> j < L.n && j !in known)
      && |rho| == |u| == |L.members|
      && forall i :: 0 <= i < |L.members| ==> rho[i] == Rho(L, known, i) && u[i] == U(L, known, i)
    }

    constructor (L: LineSystem)
      requires L.Wf()
      ensures Valid() && this.L == L && known == map[]
    {
      this.L := L;
      var cl := BuildCellLines(L);
      cellLines := cl;
      known := map[];
      free := Cells(L.n);
      rho := L.targets;
      u := seq(|L.members|, i requires 0 <= i < |L.members| => |L.members[i]|);
      new;
      forall i | 0 <= i < |L.members| ensures rho[i] == Rho(L, known, i) && u[i] == U(L, known, i) {
        CountNone(L.members[i], Ones(known));
        CountAll(L.members[i], Cells(L.n));
        assert Cells(L.n) - known.Keys == Cells(L.n);
      }
    }

    /** Fixes cell `j` and updates every line through it. */
    method Determine(j: nat, v: bool)
      requires Valid() && j in free
      modifies this
      ensures Valid() && known == old(known)[j := v] && |free| + 1 == |old(free)|
    {
      known := known[j := v];
      free := free - {j};
      var ls := cellLines[j];
      for k := 0 to |ls|
        invariant |rho| == |u| == |L.members|
        invariant known == old(known)[j := v] && free == old(free) - {j}
        invariant forall i :: 0 <= i < |L.members| ==>
          && rho[i] == old(rho)[i] - (if i in ls[..k] then BitToInt(v) else 0)
          && u[i] == old(u)[i] - (if i in ls[..k] then 1 else 0)
      {
        assert ls[..k + 1] == ls[..k] + [ls[k]];
        assert ls[k] in cellLines[j];
        u := u[ls[k] := u[ls[k]] - 1];
        rho := rho[ls[k] := rho[ls[k]] - BitToInt(v)];
      }
      assert ls[..|ls|] == ls;
      forall i | 0 <= i < |L.members| ensures rho[i] == Rho(L, known, i) && u[i] == U(L, known, i) {
        AssignRhoU(L, old(known), j, v, i);
      }
    }

    /** Fixes cell `j` and queues the lines through it. */
    method ForceCell(j: nat, v: bool, queue0: seq<nat>, inQueue0: set<nat>)
        returns (queue: seq<nat>, inQueue: set<nat>)
      requires Valid() && j in free && Mirrors(queue0, inQueue0, |L.members|)
      modifies this
      ensures Valid() && known == old(known)[j := v]
      ensures Mirrors(queue, inQueue, |L.members|) && j < |cellLines|
      ensures inQueue == inQueue0 + (set l: nat | l in cellLines[j])
    {
      Determine(j, v);
      assert LinesThrough(L, j, cellLines[j]);
      queue, inQueue := Enqueue(queue0, inQueue0, cellLines[j], |L.members|);
    }

    /** Sets every free cell of line `i` to `v` and queues the lines through it. */
    method ForceLine(i: nat, v: bool, newly0: Partial, queue0: seq<nat>, inQueue0: set<nat>, ghost start: Partial)
        returns (newly: Partial, queue: seq<nat>, inQueue: set<nat>)
      requires Extends(known, start) && newly0 == Gain(start, known)
      requires Valid() && i < |L.members| && Mirrors(queue0, inQueue0, |L.members|)
      modifies this
      ensures Valid() && known == Force(old(known), L.members[i], v)
      ensures newly == Gain(start, known)
      ensures Mirrors(queue, inQueue, |L.members|) && inQueue0 <= inQueue
      ensures LinesQueued(cellLines, old(known), known, inQueue)
    {
      newly, queue, inQueue := newly0, queue0, inQueue0;
      var ms := L.members[i];
      for k := 0 to |ms|
        invariant Valid() && Mirrors(queue, inQueue, |L.members|) && inQueue0 <= inQueue
        invariant known == Force(old(known), ms[..k], v)
        invariant newly == Gain(start, known)
        invariant LinesQueued(cellLines, old(known), known, inQueue)
      {
        var j := ms[k];
        ForceStep(old(known), ms, v, k);
        if j in free {
          GainStep(start, known, j, v);
          newly := newly[j := v];
          queue, inQueue := ForceCell(j, v, queue, inQueue);
        }
      }
      assert ms[..|ms|] == ms;
    }

    /** Looks at one line taken from the queue. */
    method ProcessLine(i: nat, stop: bool, newly0: Partial, queue0: seq<nat>, inQueue0: set<nat>, ghost start: Partial)
        returns (newly: Partial, queue: seq<nat>, inQueue: set<nat>, conflict: bool)
      requires Valid() && i < |L.members| && Mirrors(queue0, inQueue0, |L.members|)
      requires Extends(known, start) && newly0 == Gain(start, known)
      requires Below(L, start, known)
      modifies this
      ensures known == old(known) || ForcedStep(L, old(known), known)
      ensures Valid() && Extends(known, old(known)) && Mirrors(queue, inQueue, |L.members|)
      ensures newly == Gain(start, known)
      ensures Below(L, start, known)
      ensures conflict ==> stop && OutOfRange(L, known, i)
      ensures !conflict ==> inQueue0 <= inQueue
      ensures !conflict ==> forall l :: 0 <= l < |L.members| && l !in inQueue ==>
                if l == i then Settled(L, known, l, stop) else SameLine(L, old(known), known, l)
      ensures known == old(known) ==> queue == queue0 && free == old(free)
      ensures known != old(known) ==> free < old(free)
    {
      newly, queue, inQueue, conflict := newly0, queue0, inQueue0, false;
      if u[i] == 0 {
        return;
      }
      if rho[i] < 0 || rho[i] > u[i] {
        conflict := stop;
        return;
      }
      if rho[i] != 0 && rho[i] != u[i] {
        return;
      }
      var v := rho[i] != 0;
      ForceIsSound(L, start, known, i, v);
      UPositive(L, known, i);
      ghost var before := known;
      newly, queue, inQueue := ForceLine(i, v, newly, queue, inQueue, start);
      FreeFalls(L.n, before, known);
      forall l | 0 <= l < |L.members| && l !in inQueue ensures l != i && SameLine(L, before, known, l) {
        UnqueuedLine(L, cellLines, before, known, inQueue, l);
      }
    }

    /** The line worklist. `stop` says whether a residual out of range ends the run. */
    method Drain(first: seq<nat>, stop: bool) returns (newly: Partial, conflict: bool)
      requires Valid() && Distinct(first) && forall l: nat :: l in first ==> l < |L.members|
      modifies this
      ensures Valid() && Extends(known, old(known))
      ensures Below(L, old(known), known) && Derives(L, old(known), known)
      ensures conflict ==> stop && newly == map[] && forall M: Partial :: !Stable(L, old(known), M)
      ensures conflict ==> exists i :: 0 <= i < |L.members| && OutOfRange(L, known, i)
      ensures !conflict ==> newly == Gain(old(known), known)
      ensures !conflict ==>
        forall i :: 0 <= i < |L.members| && (i in first || Quiet(L, old(known), i)) ==> Settled(L, known, i, stop)
    {
      newly, conflict := map[], false;
      ghost var start := known;
      var queue, inQueue := first, set l: nat | l in first;
      DerivesNothing(L, start);
      while queue != []
        invariant Valid() && Extends(known, start) && Derives(L, start, known)
        invariant Mirrors(queue, inQueue, |L.members|)
        invariant Below(L, start, known)
        invariant newly == Gain(start, known)
        invariant Unsettled(L, start, known, first, inQueue, stop)
        decreases free, |queue|
      {
        var i := queue[0];
        assert i in queue && queue == [i] + queue[1..];
        ghost var before, waiting := known, inQueue;
        queue, inQueue := queue[1..], inQueue - {i};
        newly, queue, inQueue, conflict := ProcessLine(i, stop, newly, queue, inQueue, start);
        if known != before {
          DerivesStep(L, start, before, known);
        }
        if conflict {
          ConflictEnds(L, start, known, i);
          return map[], true;
        }
        UnsettledStep(L, start, before, known, first, waiting, inQueue, i, stop);
      }
    }

    /** Integer propagation from every line. */
    method IntBound(stop: bool) returns (newly: Partial, conflict: bool)
      requires Valid()
      modifies this
      ensures Valid() && Extends(known, old(known)) && Below(L, old(known), known) && Derives(L, old(known), known)
      ensures conflict ==> stop && newly == map[] && forall M: Partial :: !Stable(L, old(known), M)
      ensures !conflict ==> newly == Gain(old(known), known)
      ensures !conflict && stop ==> Closed(L, known)
      ensures if stop then AtRest(L, known) else Legal(L, known) ==> Closed(L, known)
      ensures (exists M: Partial :: Stable(L, old(known), M)) ==> !conflict && LeastStable(L, old(known), known)
    {
      ghost var start := known;
      var all: seq<nat> := seq(|L.members|, i requires 0 <= i < |L.members| => i);
      newly, conflict := Drain(all, stop);
      if !conflict {
        forall i | 0 <= i < |L.members| ensures Settled(L, known, i, stop) && (stop ==> Quiet(L, known, i)) {
          assert all[i] in all;
        }
        if !stop && Legal(L, known) {
          LegalIsQuiet(L, known);
        }
      }
      forall M: Partial | Stable(L, start, M) ensures LeastStable(L, start, known) {
        assert !conflict;
        forall i | 0 <= i < |L.members| ensures Quiet(L, known, i) {
          assert Settled(L, known, i, stop);
          if OutOfRange(L, known, i) {
            OutOfRangeIsFinal(L, start, known, i, M);
          }
        }
        ClosedIsLeast(L, start, known, M);
      }
    }

    /** Sets every free cell of line `i` to `v`; returns how many there were. */
    method SetLine(i: nat, v: bool) returns (count: nat)
      requires Valid() && i < |L.members|
      modifies this
      ensures Valid() && known == Force(old(known), L.members[i], v)
      ensures |free| + count == |old(free)| && free <= old(free)
      ensures count > 0 ==> free < old(free)
      ensures count == 0 ==> known == old(known)
    {
      count := 0;
      var ms := L.members[i];
      for k := 0 to |ms|
        invariant Valid() && known == Force(old(known), ms[..k], v)
        invariant |free| + count == |old(free)| && free <= old(free)
        invariant count == 0 ==> known == old(known)
        invariant count > 0 ==> free < old(free)
      {
        ForceStep(old(known), ms, v, k);
        if ms[k] in free {
          Determine(ms[k], v);
          count := count + 1;
        }
      }
      assert ms[..|ms|] == ms;
    }

    function Snapshot(): Snap
      reads this
    {
      Snap(known, free, rho, u)
    }

    method Restore(snap: Snap)
      modifies this
      ensures Snapshot() == snap
    {
      known, free, rho, u := snap.known, snap.free, snap.rho, snap.u;
    }
  }

  datatype Snap = Snap(known: Partial, free: set<nat>, rho: seq<int>, u: seq<int>)

  /** A line the worklist has finished with. A run that does not stop at conflicts
      also passes over lines whose residual is out of range. */
  ghost predicate Settled(L: LineSystem, known: Partial, i: nat, stop: bool)
    requires i < |L.members| && |L.members| == |L.targets|
  {
    Quiet(L, known, i) || (!stop && OutOfRange(L, known, i))
  }

  lemma LegalIsQuiet(L: LineSystem, known: Partial)
    requires |L.members| == |L.targets| && Legal(L, known)
    requires forall i :: 0 <= i < |L.members| ==> Settled(L, known, i, false)
    ensures Closed(L, known)
  {
    forall i | 0 <= i < |L.members| ensures Quiet(L, known, i) {
      assert Settled(L, known, i, false);
    }
  }

  /** Only queued lines may be unsettled, of those that were queued first or were quiet at the start. */
  ghost predicate Unsettled(L: LineSystem, start: Partial, known: Partial, first: seq<nat>, inQueue: set<nat>,
                            stop: bool)
    requires |L.members| == |L.targets|
  {
    forall i: nat ::
      i < |L.members| && i !in inQueue && (i in first || Quiet(L, start, i)) ==> Settled(L, known, i, stop)
  }

  lemma UnsettledStep(L: LineSystem, start: Partial, before: Partial, known: Partial, first: seq<nat>,
                      waiting: set<nat>, inQueue: set<nat>, i: nat, stop: bool)
    requires |L.members| == |L.targets| && i < |L.members|
    requires Unsettled(L, start, before, first, waiting, stop) && waiting - {i} <= inQueue
    requires forall l :: 0 <= l < |L.members| && l !in inQueue ==>
               if l == i then Settled(L, known, l, stop) else SameLine(L, before, known, l)
    ensures Unsettled(L, start, known, first, inQueue, stop)
  {
    forall l: nat | l < |L.members| && l !in inQueue && (l in first || Quiet(L, start, l))
      ensures Settled(L, known, l, stop)
    {
      if l != i {
        assert l !in waiting && Settled(L, before, l, stop) && SameLine(L, before, known, l);
      }
    }
  }

  /** Fixing more leaves fewer cells free. */
  lemma FreeFalls(n: nat, before: Partial, known: Partial)
    requires Extends(known, before) && known.Keys <= Cells(n)
    ensures known == before || Cells(n) - known.Keys < Cells(n) - before.Keys
  {
    if known != before {
      assert forall j :: j in before ==> j in known && known[j] == before[j];
      var j: nat :| j in known && j !in before;
      assert j in Cells(n) - before.Keys && j !in Cells(n) - known.Keys;
    }
  }

  lemma ConflictEnds(L: LineSystem, start: Partial, known: Partial, i: nat)
    requires L.Wf() && i < |L.members| && OutOfRange(L, known, i) && Below(L, start, known)
    ensures forall M: Partial :: !Stable(L, start, M)
  {
    forall M: Partial ensures !Stable(L, start, M) {
      OutOfRangeIsFinal(L, start, known, i, M);
    }
  }

  ghost predicate SameLine(L: LineSystem, before: Partial, known: Partial, l: nat)
    requires l < |L.members| && |L.members| == |L.targets|
  {
    Rho(L, known, l) == Rho(L, before, l) && U(L, known, l) == U(L, before, l)
  }
}
