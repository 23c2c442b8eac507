/** The climb over all sub-tables: rounds that give each sub-table its turn, with one running total of the scores. */
module ClimbRounds {
  import opened HillClimb
  import opened Paths

  /** The sum of the scores of the first `k` sub-tables. */
  ghost function TotalTo(o: Objective, subs: seq<Climber>, k: nat): int
    requires k <= |subs|
  {
    if k == 0 then 0 else TotalTo(o, subs, k - 1) + Score(o, subs[k - 1].coverage)
  }

  ghost function Total(o: Objective, subs: seq<Climber>): int {
    TotalTo(o, subs, |subs|)
  }

  lemma {:induction false} TotalUpdate(o: Objective, subs: seq<Climber>, i: nat, sub: Climber, k: nat)
    requires i < |subs| && k <= |subs|
    ensures TotalTo(o, subs[i := sub], k) ==
      TotalTo(o, subs, k) + if i < k then Score(o, sub.coverage) - Score(o, subs[i].coverage) else 0
  {
    if k > 0 {
      TotalUpdate(o, subs, i, sub, k - 1);
    }
  }

  ghost function Repr(t: SubTable): set<object> {
    {t, t.assignment, t.csr, t.coverage}
  }

  /** The sub-tables share nothing. */
  ghost predicate Apart(tabs: seq<SubTable>) {
    forall i, j :: 0 <= i < j < |tabs| ==> Repr(tabs[i]) !! Repr(tabs[j])
  }

  ghost predicate AllValid(tabs: seq<SubTable>)
    reads tabs, set t | t in tabs :: t.assignment
    reads set t | t in tabs :: t.csr
    reads set t | t in tabs :: t.coverage
  {
    forall i :: 0 <= i < |tabs| ==> ValidAt(tabs, i)
  }

  ghost predicate ValidAt(tabs: seq<SubTable>, i: nat)
    requires i < |tabs|
    reads tabs[i], tabs[i].assignment, tabs[i].csr, tabs[i].coverage
  {
    tabs[i].Valid()
  }

  /** `subs` are the states of the sub-tables, without a score. */
  ghost predicate Shows(tabs: seq<SubTable>, subs: seq<Climber>)
    reads set t | t in tabs :: t.assignment
    reads set t | t in tabs :: t.csr
    reads set t | t in tabs :: t.coverage
  {
    |subs| == |tabs| && forall i :: 0 <= i < |tabs| ==> ShownAt(tabs, subs, i)
  }

  ghost predicate ShownAt(tabs: seq<SubTable>, subs: seq<Climber>, i: nat)
    requires i < |tabs| == |subs|
    reads tabs[i].assignment, tabs[i].csr, tabs[i].coverage
  {
    subs[i] == tabs[i].State(0)
  }

  lemma {:induction false} Snapshots(tabs: seq<SubTable>) returns (subs: seq<Climber>)
    ensures Shows(tabs, subs)
  {
    subs := [];
    if tabs != [] {
      var front := Snapshots(tabs[..|tabs| - 1]);
      subs := front + [tabs[|tabs| - 1].State(0)];
      forall i | 0 <= i < |tabs| - 1 ensures ShownAt(tabs, subs, i) {
        assert ShownAt(tabs[..|tabs| - 1], front, i);
      }
    }
  }

  /** Adds up the rewards of one coverage. */
  method ScoreFromCoverage(o: Objective, cov: array<int>) returns (score: nat)
    ensures score == Score(o, cov[..])
  {
    score := 0;
    for l := 0 to cov.Length
      invariant score == ScoreTo(o, cov[..], l)
    {
      score := score + Reward(o, cov[l]);
    }
  }

  /** The total before the climb. */
  method InitialTotal(tabs: seq<SubTable>, o: Objective) returns (total: int, ghost subs: seq<Climber>)
    ensures Shows(tabs, subs) && total == Total(o, subs)
  {
    total := 0;
    subs := Snapshots(tabs);
    for i := 0 to |tabs|
      invariant total == TotalTo(o, subs, i)
    {
      assert ShownAt(tabs, subs, i);
      var score := ScoreFromCoverage(o, tabs[i].coverage);
      total := total + score;
    }
  }

  /** The draws of one turn name slots of the table. */
  ghost predicate ProperTurn(t: SubTable, moves: seq<Move>) {
    forall k :: 0 <= k < |moves| ==> Proper(moves[k], t.s)
  }

  // ---- what the turns do ----

  /** The states of the sub-tables, the running total and the number of accepted swaps. */
  datatype World = World(subs: seq<Climber>, total: int, accepted: nat)

  /** Zone and side of a sub-table. */
  datatype Setup = Setup(mode: Mode, s: nat)

  ghost function Setups(tabs: seq<SubTable>): (setups: seq<Setup>)
    ensures |setups| == |tabs| && forall i :: 0 <= i < |tabs| ==> setups[i] == Setup(tabs[i].mode, tabs[i].s)
  {
    seq(|tabs|, i requires 0 <= i < |tabs| => Setup(tabs[i].mode, tabs[i].s))
  }

  /** Sub-table `i` runs through its moves with the running total as its score; the others stay as they are. */
  ghost predicate TurnRan(setups: seq<Setup>, st: Settings, i: nat, moves: seq<Move>, w: World, v: World) {
    && i < |setups| == |w.subs| == |v.subs| && w.accepted <= v.accepted
    && v.subs == w.subs[i := v.subs[i]]
    && Ran(setups[i].mode, setups[i].s, st, moves, w.subs[i].(score := w.total), v.subs[i].(score := v.total),
           v.accepted - w.accepted)
  }

  /** A round with the turns that are still to be taken. */
  datatype Stage = Stage(world: World, turn: nat)

  ghost predicate OneTurn(setups: seq<Setup>, st: Settings, round: seq<seq<Move>>, p: Stage, q: Stage) {
    && p.turn < |round| && q.turn == p.turn + 1
    && TurnRan(setups, st, p.turn, round[p.turn], p.world, q.world)
  }

  ghost function Turns(setups: seq<Setup>, st: Settings, round: seq<seq<Move>>): (Stage, Stage) -> bool {
    (p: Stage, q: Stage) => OneTurn(setups, st, round, p, q)
  }

  /** Each sub-table takes its turn. */
  ghost predicate RoundRan(setups: seq<Setup>, st: Settings, round: seq<seq<Move>>, w: World, v: World) {
    Steps(Turns(setups, st, round), Stage(w, 0), Stage(v, |round|), |round|)
  }

  ghost predicate OneRound(setups: seq<Setup>, st: Settings, rounds: seq<seq<seq<Move>>>, p: Stage, q: Stage) {
    p.turn < |rounds| && q.turn == p.turn + 1 && RoundRan(setups, st, rounds[p.turn], p.world, q.world)
  }

  ghost function Rounds(setups: seq<Setup>, st: Settings, rounds: seq<seq<seq<Move>>>): (Stage, Stage) -> bool {
    (p: Stage, q: Stage) => OneRound(setups, st, rounds, p, q)
  }

  /** A run whose score is the running total. */
  method RunThrough(t: SubTable, moves: seq<Move>, st: Settings, total: int) returns (accepted: nat, next: int)
    requires t.Valid() && ProperTurn(t, moves)
    modifies t, t.assignment, t.csr, t.coverage
    ensures t.Valid()
    ensures next - total == Score(st.objective, t.coverage[..]) - Score(st.objective, old(t.coverage[..]))
    ensures !st.annealing ==> next >= total + accepted
    ensures st.cap != 0 ==> next <= Max(st.cap, total)
    ensures Ran(t.mode, t.s, st, moves, old(t.State(total)), t.State(next), accepted)
  {
    var delta;
    accepted, delta := HillClimbOneSub(t, moves, st, total);
    next := total + delta;
  }

  /** One sub-table's turn. It runs through its moves, the others stay as they are, and the running total stays the sum
      of the scores computed from scratch. */
  method Turn(tabs: seq<SubTable>, i: nat, moves: seq<Move>, st: Settings, total: int, ghost subs: seq<Climber>)
      returns (accepted: nat, next: int, ghost after: seq<Climber>)
    requires i < |tabs| && Apart(tabs) && AllValid(tabs) && ProperTurn(tabs[i], moves)
    requires Shows(tabs, subs) && total == Total(st.objective, subs)
    modifies Repr(tabs[i])
    ensures AllValid(tabs) && Shows(tabs, after) && next == Total(st.objective, after)
    ensures !st.annealing ==> next >= total + accepted
    ensures st.cap != 0 ==> next <= Max(st.cap, total)
    ensures after == subs[i := after[i]]
    ensures Ran(tabs[i].mode, tabs[i].s, st, moves, subs[i].(score := total), after[i].(score := next), accepted)
  {
    var t := tabs[i];
    assert ValidAt(tabs, i) && ShownAt(tabs, subs, i);
    assert subs[i].(score := total) == t.State(total);
    accepted, next := RunThrough(t, moves, st, total);
    after := subs[i := t.State(0)];
    forall j | 0 <= j < |tabs| ensures ValidAt(tabs, j) && ShownAt(tabs, after, j) {
      assert j != i ==> old(ValidAt(tabs, j)) && old(ShownAt(tabs, subs, j));
      if j < i {
        assert Repr(tabs[j]) !! Repr(tabs[i]);
      } else if i < j {
        assert Repr(tabs[i]) !! Repr(tabs[j]);
      }
    }
    assert after[i].(score := next) == t.State(next);
    TotalUpdate(st.objective, subs, i, t.State(0), |tabs|);
  }

  ghost predicate ProperRound(tabs: seq<SubTable>, round: seq<seq<Move>>) {
    |round| == |tabs| && forall i :: 0 <= i < |tabs| ==> ProperTurn(tabs[i], round[i])
  }

  /** All that the turns may change. */
  ghost function Reprs(tabs: seq<SubTable>): set<object> {
    if tabs == [] then {} else Reprs(tabs[..|tabs| - 1]) + Repr(tabs[|tabs| - 1])
  }

  lemma {:induction false} ReprAmong(tabs: seq<SubTable>, i: nat)
    requires i < |tabs|
    ensures Repr(tabs[i]) <= Reprs(tabs)
  {
    if i < |tabs| - 1 {
      ReprAmong(tabs[..|tabs| - 1], i);
    }
  }

  lemma TurnTaken(tabs: seq<SubTable>, i: nat, round: seq<seq<Move>>, st: Settings, start: Stage,
                  subs: seq<Climber>, total: int, n: nat, after: seq<Climber>, next: int, taken: nat)
    requires i < |tabs| == |round| == |subs| == |after| && after == subs[i := after[i]]
    requires Steps(Turns(Setups(tabs), st, round), start, Stage(World(subs, total, n), i), i)
    requires Ran(tabs[i].mode, tabs[i].s, st, round[i], subs[i].(score := total), after[i].(score := next), taken)
    ensures Steps(Turns(Setups(tabs), st, round), start, Stage(World(after, next, n + taken), i + 1), i + 1)
  {
    assert TurnRan(Setups(tabs), st, i, round[i], World(subs, total, n), World(after, next, n + taken));
    NextStep(Turns(Setups(tabs), st, round), start, Stage(World(subs, total, n), i),
             Stage(World(after, next, n + taken), i + 1), i);
  }

  /** A round that starts with some swaps accepted already. */
  lemma RoundAfter(setups: seq<Setup>, st: Settings, round: seq<seq<Move>>, w: World, v: World, n: nat)
    requires RoundRan(setups, st, round, w, v)
    ensures RoundRan(setups, st, round, w.(accepted := w.accepted + n), v.(accepted := v.accepted + n))
  {
    TurnsAfter(setups, st, round, Stage(w, 0), Stage(v, |round|), |round|, n);
  }

  ghost function Counted(p: Stage, n: nat): Stage {
    p.(world := p.world.(accepted := p.world.accepted + n))
  }

  lemma {:induction false} TurnsAfter(setups: seq<Setup>, st: Settings, round: seq<seq<Move>>, p: Stage, q: Stage,
                                      k: nat, n: nat)
    requires Steps(Turns(setups, st, round), p, q, k)
    ensures Steps(Turns(setups, st, round), Counted(p, n), Counted(q, n), k)
    decreases k
  {
    if k == 0 {
      NothingStepped(Turns(setups, st, round), p, q);
      NoStep(Turns(setups, st, round), Counted(p, n));
    } else {
      var r := LastStep(Turns(setups, st, round), p, q, k - 1);
      TurnsAfter(setups, st, round, p, r, k - 1, n);
      OneTurnCounted(setups, st, round, r, q, n);
      NextStep(Turns(setups, st, round), Counted(p, n), Counted(r, n), Counted(q, n), k - 1);
    }
  }

  lemma OneTurnCounted(setups: seq<Setup>, st: Settings, round: seq<seq<Move>>, p: Stage, q: Stage, n: nat)
    requires OneTurn(setups, st, round, p, q)
    ensures OneTurn(setups, st, round, Counted(p, n), Counted(q, n))
  {
    assert Counted(q, n).world.accepted - Counted(p, n).world.accepted == q.world.accepted - p.world.accepted;
  }

  lemma RoundTaken(setups: seq<Setup>, r: nat, rounds: seq<seq<seq<Move>>>, st: Settings, start: Stage, w: World,
                   v: World, n: nat)
    requires r < |rounds| && w.accepted == 0
    requires Steps(Rounds(setups, st, rounds), start, Stage(w.(accepted := n), r), r)
    requires RoundRan(setups, st, rounds[r], w, v)
    ensures Steps(Rounds(setups, st, rounds), start, Stage(v.(accepted := v.accepted + n), r + 1), r + 1)
  {
    RoundAfter(setups, st, rounds[r], w, v, n);
    NextStep(Rounds(setups, st, rounds), start, Stage(w.(accepted := n), r),
             Stage(v.(accepted := v.accepted + n), r + 1), r);
  }

  /** The next turn of a round. */
  method NextTurn(tabs: seq<SubTable>, i: nat, round: seq<seq<Move>>, st: Settings, total: int, accepted0: nat,
                  ghost subs: seq<Climber>, ghost start: Stage)
      returns (accepted: nat, next: int, ghost after: seq<Climber>)
    requires i < |tabs| && Apart(tabs) && AllValid(tabs) && ProperRound(tabs, round)
    requires Shows(tabs, subs) && total == Total(st.objective, subs)
    requires Steps(Turns(Setups(tabs), st, round), start, Stage(World(subs, total, accepted0), i), i)
    modifies Repr(tabs[i])
    ensures AllValid(tabs) && Shows(tabs, after) && next == Total(st.objective, after)
    ensures accepted0 <= accepted && (!st.annealing ==> next - total >= accepted - accepted0)
    ensures st.cap != 0 ==> next <= Max(st.cap, total)
    ensures Steps(Turns(Setups(tabs), st, round), start, Stage(World(after, next, accepted), i + 1), i + 1)
  {
    var taken;
    taken, next, after := Turn(tabs, i, round[i], st, total, subs);
    accepted := accepted0 + taken;
    TurnTaken(tabs, i, round, st, start, subs, total, accepted0, after, next, taken);
  }

  /** Each sub-table in turn. */
  method Round(tabs: seq<SubTable>, round: seq<seq<Move>>, st: Settings, total: int, ghost subs: seq<Climber>)
      returns (accepted: nat, next: int, ghost after: seq<Climber>)
    requires Apart(tabs) && AllValid(tabs) && ProperRound(tabs, round)
    requires Shows(tabs, subs) && total == Total(st.objective, subs)
    modifies Reprs(tabs)
    ensures AllValid(tabs) && Shows(tabs, after) && next == Total(st.objective, after)
    ensures !st.annealing ==> next >= total + accepted
    ensures st.cap != 0 ==> next <= Max(st.cap, total)
    ensures RoundRan(Setups(tabs), st, round, World(subs, total, 0), World(after, next, accepted))
  {
    accepted, next, after := 0, total, subs;
    ghost var start := Stage(World(subs, total, 0), 0);
    NoStep(Turns(Setups(tabs), st, round), start);
    for i := 0 to |tabs|
      invariant AllValid(tabs) && Shows(tabs, after) && next == Total(st.objective, after)
      invariant Steps(Turns(Setups(tabs), st, round), start, Stage(World(after, next, accepted), i), i)
      invariant !st.annealing ==> next >= total + accepted
      invariant st.cap != 0 ==> next <= Max(st.cap, total)
    {
      ReprAmong(tabs, i);
      accepted, next, after := NextTurn(tabs, i, round, st, next, accepted, after, start);
    }
  }

  /** The next round of the climb. */
  method NextRound(tabs: seq<SubTable>, r: nat, rounds: seq<seq<seq<Move>>>, st: Settings, total: int, accepted0: nat,
                   ghost subs: seq<Climber>, ghost start: Stage)
      returns (accepted: nat, next: int, ghost after: seq<Climber>)
    requires r < |rounds| && Apart(tabs) && AllValid(tabs) && ProperRound(tabs, rounds[r])
    requires Shows(tabs, subs) && total == Total(st.objective, subs)
    requires Steps(Rounds(Setups(tabs), st, rounds), start, Stage(World(subs, total, accepted0), r), r)
    modifies Reprs(tabs)
    ensures AllValid(tabs) && Shows(tabs, after) && next == Total(st.objective, after)
    ensures accepted0 <= accepted && (!st.annealing ==> next - total >= accepted - accepted0)
    ensures st.cap != 0 ==> next <= Max(st.cap, total)
    ensures Steps(Rounds(Setups(tabs), st, rounds), start, Stage(World(after, next, accepted), r + 1), r + 1)
  {
    var taken;
    taken, next, after := Round(tabs, rounds[r], st, total, subs);
    accepted := accepted0 + taken;
    RoundTaken(Setups(tabs), r, rounds, st, start, World(subs, total, 0), World(after, next, taken), accepted0);
  }

  /** Round after round. After any number of rounds the running total is the sum of the scores computed from the
      coverages; it is never lifted over the cap, and without annealing it rises by at least one for every accepted
      swap. The tables are those that the turns lead to, one after the other. */
  method Climb(tabs: seq<SubTable>, rounds: seq<seq<seq<Move>>>, st: Settings)
      returns (accepted: nat, total: int, ghost before: seq<Climber>, ghost after: seq<Climber>)
    requires Apart(tabs) && AllValid(tabs) && forall r :: 0 <= r < |rounds| ==> ProperRound(tabs, rounds[r])
    modifies Reprs(tabs)
    ensures AllValid(tabs) && old(Shows(tabs, before)) && Shows(tabs, after) && total == Total(st.objective, after)
    ensures !st.annealing ==> total >= Total(st.objective, before) + accepted
    ensures st.cap != 0 ==> total <= Max(st.cap, Total(st.objective, before))
    ensures Steps(Rounds(Setups(tabs), st, rounds), Stage(World(before, Total(st.objective, before), 0), 0),
                  Stage(World(after, total, accepted), |rounds|), |rounds|)
  {
    accepted := 0;
    total, before := InitialTotal(tabs, st.objective);
    after := before;
    ghost var total0, start := total, Stage(World(before, total, 0), 0);
    NoStep(Rounds(Setups(tabs), st, rounds), start);
    for r := 0 to |rounds|
      invariant AllValid(tabs) && Shows(tabs, after) && total == Total(st.objective, after)
      invariant !st.annealing ==> total >= total0 + accepted
      invariant st.cap != 0 ==> total <= Max(st.cap, total0)
      invariant Steps(Rounds(Setups(tabs), st, rounds), start, Stage(World(after, total, accepted), r), r)
    {
      accepted, total, after := NextRound(tabs, r, rounds, st, total, accepted, after, start);
    }
  }
}
