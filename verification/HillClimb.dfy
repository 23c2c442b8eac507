/** The hill climb on one sub-table: an assignment of cells to lines, the reverse table, the zone
    coverage of each line and a running score, all updated in place by every accepted swap. */
module HillClimb {
  import opened Arithmetic
  import opened Gf2
  import opened LtpTables
  import opened Paths

  /** Zone of the objective: the first rows, or a band of rows. */
  datatype Mode = Early(last: nat) | Band(first: nat, last: nat) {
    predicate InZone(s: nat, f: nat)
      requires s > 0
    {
      match this
      case Early(last) => f / s <= last
      case Band(first, last) => first <= f / s <= last
    }
  }

  function ZoneOf(mode: Mode, s: nat): Zone
    requires s > 0
  {
    (f: nat) => mode.InZone(s, f)
  }

  // ---- score ----

  datatype Objective = Objective(threshold: int, maxCov: int)

  function Min(a: int, b: int): int {
    if a < b then a else b
  }

  function Max(a: int, b: int): int {
    if a > b then a else b
  }

  function Reward(o: Objective, c: int): (r: nat) {
    var above := Max(0, Min(c, o.maxCov) - o.threshold);
    assert above * above >= 0;
    above * above
  }

  /** Nothing up to the threshold, the square of the excess up to the limit, and no more beyond it. */
  lemma RewardShape(o: Objective, c: int)
    ensures c <= o.threshold ==> Reward(o, c) == 0
    ensures o.threshold <= c <= o.maxCov ==> Reward(o, c) == (c - o.threshold) * (c - o.threshold)
    ensures c >= o.maxCov ==> Reward(o, c) == Reward(o, o.maxCov)
  {
  }

  /** Sum of the capped quadratic rewards of the first `k` lines. */
  function ScoreTo(o: Objective, cov: seq<int>, k: nat): nat
    requires k <= |cov|
  {
    if k == 0 then 0 else ScoreTo(o, cov, k - 1) + Reward(o, cov[k - 1])
  }

  function Score(o: Objective, cov: seq<int>): nat {
    ScoreTo(o, cov, |cov|)
  }

  lemma {:induction false} ScoreUpdate(o: Objective, cov: seq<int>, l: nat, c: int, k: nat)
    requires l < |cov| && k <= |cov|
    ensures ScoreTo(o, cov[l := c], k) == ScoreTo(o, cov, k) + if l < k then Reward(o, c) - Reward(o, cov[l]) else 0
  {
    if k > 0 {
      ScoreUpdate(o, cov, l, c, k - 1);
    }
  }

  /** Moving `d` from one line to another changes the score by the rewards of these two lines. */
  lemma ScoreSwap(o: Objective, cov: seq<int>, la: nat, lb: nat, d: int)
    requires la < |cov| && lb < |cov| && la != lb
    ensures Score(o, cov[la := cov[la] + d][lb := cov[lb] - d]) ==
      Score(o, cov) + Reward(o, cov[la] + d) + Reward(o, cov[lb] - d) - Reward(o, cov[la]) - Reward(o, cov[lb])
  {
    ScoreUpdate(o, cov, la, cov[la] + d, |cov|);
    ScoreUpdate(o, cov[la := cov[la] + d], lb, cov[lb] - d, |cov|);
  }

  function Sum(cov: seq<int>, k: nat): int
    requires k <= |cov|
  {
    if k == 0 then 0 else Sum(cov, k - 1) + cov[k - 1]
  }

  lemma {:induction false} SumUpdate(cov: seq<int>, l: nat, c: int, k: nat)
    requires l < |cov| && k <= |cov|
    ensures Sum(cov[l := c], k) == Sum(cov, k) + if l < k then c - cov[l] else 0
  {
    if k > 0 {
      SumUpdate(cov, l, c, k - 1);
    }
  }

  // ---- counts under a swap ----

  lemma {:induction false} CountMove(a: seq<nat>, zone: Zone, f: nat, m: nat, l: nat, k: nat)
    requires f < |a| && k <= |a|
    ensures CountOn(a[f := m], zone, l, k) == CountOn(a, zone, l, k)
      + if f < k && zone(f) then BitToInt(m == l) - BitToInt(a[f] == l) else 0
  {
    if k > 0 {
      CountMove(a, zone, f, m, l, k - 1);
    }
  }

  /** Swapping the lines of two cells moves the difference of their zone bits between the two lines. */
  lemma CountSwap(a: seq<nat>, zone: Zone, fa: nat, fb: nat, l: nat)
    requires fa < |a| && fb < |a| && fa != fb
    ensures CountOn(a[fa := a[fb]][fb := a[fa]], zone, l, |a|) == CountOn(a, zone, l, |a|)
      + (BitToInt(zone(fb)) - BitToInt(zone(fa))) * (BitToInt(a[fa] == l) - BitToInt(a[fb] == l))
  {
    CountMove(a, zone, fa, a[fb], l, |a|);
    CountMove(a[fa := a[fb]], zone, fb, a[fa], l, |a|);
  }

  // ---- the tables ----

  ghost predicate IsCoverage(cov: seq<int>, a: seq<nat>, zone: Zone) {
    forall l :: 0 <= l < |cov| ==> cov[l] == CountOn(a, zone, l, |a|)
  }

  method BuildCoverage(a: array<nat>, s: nat, mode: Mode) returns (cov: array<int>)
    requires s > 0 && forall f :: 0 <= f < a.Length ==> a[f] < s
    ensures fresh(cov) && cov.Length == s && IsCoverage(cov[..], a[..], ZoneOf(mode, s))
  {
    ghost var zone := ZoneOf(mode, s);
    cov := new int[s](_ => 0);
    for f := 0 to a.Length
      invariant forall l :: 0 <= l < s ==> cov[l] == CountOn(a[..], zone, l, f)
    {
      if mode.InZone(s, f) {
        cov[a[f]] := cov[a[f]] + 1;
      }
    }
  }

  /** `place[f]` is the slot of cell `f` in the reverse table, and its line is the assigned one. */
  ghost predicate Indexed(a: seq<nat>, csr: seq<nat>, place: seq<nat>, s: nat)
    requires s > 0
  {
    |csr| == s * s && Inverse(csr, place) && CutsPool(a, s, place)
  }

  /** Slot `q` lists a cell of line `q / s`. */
  lemma SlotHoldsLine(a: seq<nat>, csr: seq<nat>, place: seq<nat>, s: nat, l: nat, p: nat)
    requires s > 0 && Indexed(a, csr, place, s) && l < s && p < s
    ensures l * s + p < |csr| && csr[l * s + p] < |a| && a[csr[l * s + p]] == l
  {
    SlotFits(s, l, p);
  }

  lemma {:induction false} CountOnGrows(a: seq<nat>, zone: Zone, l: nat, k: nat, m: nat)
    requires k <= m <= |a|
    ensures CountOn(a, zone, l, k) <= CountOn(a, zone, l, m)
    decreases m - k
  {
    if k < m {
      CountOnGrows(a, zone, l, k, m - 1);
    }
  }

  /** Line and rank of every slot. */
  datatype Slots = Slots(line: seq<nat>, rank: seq<nat>)

  /** Two slots with the same line and rank are the same. */
  ghost predicate IsSlots(sl: Slots, s: nat) {
    && |sl.line| == |sl.rank|
    && (forall q :: 0 <= q < |sl.line| ==> sl.line[q] < s && sl.rank[q] < s)
    && forall q, r :: 0 <= q < r < |sl.line| ==> sl.line[q] != sl.line[r] || sl.rank[q] != sl.rank[r]
  }

  ghost function SlotTable(s: nat): (sl: Slots)
    requires s > 0
    ensures |sl.line| == |sl.rank| == s * s
    ensures forall q :: 0 <= q < s * s ==> sl.line[q] == q / s && sl.rank[q] == q % s
  {
    Slots(seq(s * s, q requires 0 <= q < s * s => q / s), seq(s * s, q requires 0 <= q < s * s => q % s))
  }

  lemma SlotTableIsSlots(s: nat)
    requires s > 0
    ensures IsSlots(SlotTable(s), s)
  {
    var sl := SlotTable(s);
    forall q | 0 <= q < |sl.line| ensures sl.line[q] < s && sl.rank[q] < s && sl.line[q] * s + sl.rank[q] == q {
      SlotOf(s, q);
    }
  }

  /** The slots below the counts hold the cells met so far, each once. */
  ghost predicate Filling(a: seq<nat>, csr: seq<nat>, place: seq<nat>, counts: seq<nat>, s: nat, sl: Slots, k: nat) {
    && IsSlots(sl, s) && |csr| == |a| == |sl.line| && |place| == k <= |a| && |counts| == s
    && (forall f :: 0 <= f < |a| ==> a[f] < s)
    && (forall f :: 0 <= f < k ==> HoldsCell(a, csr, place, counts, sl, f))
    && (forall q :: 0 <= q < |csr| && sl.line[q] < |counts| && sl.rank[q] < counts[sl.line[q]] ==>
          csr[q] < k && place[csr[q]] == q)
  }

  ghost predicate HoldsCell(a: seq<nat>, csr: seq<nat>, place: seq<nat>, counts: seq<nat>, sl: Slots, f: nat)
    requires f < |a| && f < |place| && |sl.line| == |sl.rank|
  {
    && place[f] < |csr| && place[f] < |sl.line| && csr[place[f]] == f && sl.line[place[f]] == a[f]
    && a[f] < |counts| && sl.rank[place[f]] < counts[a[f]]
  }

  lemma FillingStep(a: seq<nat>, csr: seq<nat>, place: seq<nat>, counts: seq<nat>, s: nat, sl: Slots, k: nat, q: nat)
    requires Filling(a, csr, place, counts, s, sl, k) && k < |a|
    requires q < |csr| && sl.line[q] == a[k] && sl.rank[q] == counts[a[k]]
    ensures Filling(a, csr[q := k], place + [q], counts[a[k] := counts[a[k]] + 1], s, sl, k + 1)
  {
    var csr', place', counts' := csr[q := k], place + [q], counts[a[k] := counts[a[k]] + 1];
    forall f | 0 <= f < k + 1 ensures HoldsCell(a, csr', place', counts', sl, f) {
      if f < k {
        assert HoldsCell(a, csr, place, counts, sl, f);
      }
    }
  }

  lemma FilledIsInverse(a: seq<nat>, csr: seq<nat>, place: seq<nat>, counts: seq<nat>, s: nat)
    requires s > 0 && Filling(a, csr, place, counts, s, SlotTable(s), |a|)
    requires forall l :: 0 <= l < s ==> counts[l] == s
    ensures Indexed(a, csr, place, s)
  {
    var sl := SlotTable(s);
    forall q | 0 <= q < |csr| ensures csr[q] < |csr| && place[csr[q]] == q {
      assert sl.line[q] < s && sl.rank[q] < s;
    }
    forall f | 0 <= f < |a| ensures place[f] < |csr| && csr[place[f]] == f && a[f] == place[f] / s {
      assert HoldsCell(a, csr, place, counts, sl, f);
    }
  }

  ghost predicate CountsAre(counts: seq<nat>, a: seq<nat>, k: nat)
    requires k <= |a|
  {
    forall l :: 0 <= l < |counts| ==> counts[l] == CountOn(a, EVERYWHERE, l, k)
  }

  /** Cell `f` names a line and the next slot of this line lies within the table. */
  ghost predicate Lands(a: seq<nat>, s: nat, f: nat)
    requires f < |a|
  {
    a[f] < s && a[f] * s + CountOn(a, EVERYWHERE, a[f], f) < s * s
  }

  ghost predicate LandsTo(a: seq<nat>, s: nat, k: nat)
    requires k <= |a|
  {
    forall f :: 0 <= f < k ==> Lands(a, s, f)
  }

  lemma RoomLeft(a: seq<nat>, s: nat, k: nat)
    requires Balanced(a, s) && k < |a|
    ensures a[k] < s && CountOn(a, EVERYWHERE, a[k], k) < s && Lands(a, s, k)
  {
    CountOnGrows(a, EVERYWHERE, a[k], k + 1, |a|);
    SlotFits(s, a[k], CountOn(a, EVERYWHERE, a[k], k));
  }

  lemma CountsNext(a: seq<nat>, counts: seq<nat>, k: nat)
    requires k < |a| && a[k] < |counts| && CountsAre(counts, a, k)
    ensures CountsAre(counts[a[k] := counts[a[k]] + 1], a, k + 1)
  {
  }

  /** For a balanced assignment the slots below the counts hold the cells met so far. */
  ghost predicate FillingIfBalanced(a: seq<nat>, csr: seq<nat>, place: seq<nat>, counts: seq<nat>, s: nat, k: nat)
    requires s > 0
  {
    Balanced(a, s) ==> Filling(a, csr, place, counts, s, SlotTable(s), k)
  }

  /** The next cell of its line goes into the first slot not yet filled. */
  lemma NextSlot(a: seq<nat>, csr: seq<nat>, place: seq<nat>, counts: seq<nat>, s: nat, k: nat, q: nat)
    requires s > 0 && k < |a| && CountsAre(counts, a, k) && |counts| == s && a[k] < s && |csr| == s * s
    requires FillingIfBalanced(a, csr, place, counts, s, k)
    requires q == a[k] * s + counts[a[k]] < |csr|
    ensures FillingIfBalanced(a, csr[q := k], place + [q], counts[a[k] := counts[a[k]] + 1], s, k + 1)
    ensures CountsAre(counts[a[k] := counts[a[k]] + 1], a, k + 1)
  {
    CountsNext(a, counts, k);
    if Balanced(a, s) {
      RoomLeft(a, s, k);
      SlotFits(s, a[k], counts[a[k]]);
      FillingStep(a, csr, place, counts, s, SlotTable(s), k, q);
    }
  }

  lemma AllPlaced(a: seq<nat>, csr: seq<nat>, place: seq<nat>, counts: seq<nat>, s: nat)
    requires s > 0 && Balanced(a, s) && |counts| == s
    requires FillingIfBalanced(a, csr, place, counts, s, |a|) && CountsAre(counts, a, |a|)
    ensures Indexed(a, csr, place, s)
  {
    forall l | 0 <= l < s ensures counts[l] == s {
      assert CountOn(a, EVERYWHERE, l, |a|) == s;
    }
    FilledIsInverse(a, csr, place, counts, s);
  }

  lemma StartsFilling(a: seq<nat>, csr: seq<nat>, s: nat)
    requires s > 0 && |a| == |csr| == s * s
    ensures FillingIfBalanced(a, csr, [], seq(s, _ => 0), s, 0) && CountsAre(seq(s, _ => 0), a, 0)
  {
    SlotTableIsSlots(s);
  }

  /** A table is exact for the assignment it was built from. */
  ghost predicate Exact(a: seq<nat>, csr: seq<nat>, s: nat)
    requires s > 0
  {
    exists place: seq<nat> :: Indexed(a, csr, place, s)
  }

  lemma BuiltIsExact(a: seq<nat>, csr: seq<nat>, place: seq<nat>, counts: seq<nat>, s: nat)
    requires s > 0 && |counts| == s && FillingIfBalanced(a, csr, place, counts, s, |a|) && CountsAre(counts, a, |a|)
    ensures Balanced(a, s) ==> Indexed(a, csr, place, s)
    ensures Exact(a, csr, s) <==> Balanced(a, s)
  {
    if Balanced(a, s) {
      AllPlaced(a, csr, place, counts, s);
    }
    ExactIsBalanced(a, csr, s);
  }

  lemma ExactIsBalanced(a: seq<nat>, csr: seq<nat>, s: nat)
    requires s > 0
    ensures Exact(a, csr, s) ==> Balanced(a, s)
  {
    if Exact(a, csr, s) {
      var place: seq<nat> :| Indexed(a, csr, place, s);
      IndexedIsBalanced(a, csr, place, s);
    }
  }

  /** A cell that does not land spoils the assignment. */
  lemma MissIsFatal(a: seq<nat>, csr: seq<nat>, s: nat, f: nat)
    requires s > 0 && f < |a| && !Lands(a, s, f)
    ensures !LandsTo(a, s, |a|) && !Balanced(a, s) && !Exact(a, csr, s)
  {
    if Balanced(a, s) {
      RoomLeft(a, s, f);
    }
    ExactIsBalanced(a, csr, s);
  }

  /** The reverse table. `ok` is false where the source indexes outside its arrays: a value names no line, or a line
      runs past the end of the table. The table is exact, every cell listed once and on its line, if and only if the
      assignment is balanced; other assignments may still build without an error. */
  method BuildCsr(a: array<nat>, s: nat) returns (csr: array<nat>, ok: bool, ghost place: seq<nat>)
    requires s > 0 && a.Length == s * s
    ensures fresh(csr) && csr.Length == a.Length
    ensures ok <==> LandsTo(a[..], s, a.Length)
    ensures Balanced(a[..], s) ==> ok && Indexed(a[..], csr[..], place, s)
    ensures Exact(a[..], csr[..], s) <==> Balanced(a[..], s)
  {
    csr := new nat[a.Length];
    var counts: seq<nat> := seq(s, _ => 0);
    ghost var cells := a[..];
    StartsFilling(cells, csr[..], s);
    place, ok := [], true;
    for f := 0 to a.Length
      invariant a[..] == cells && |counts| == s && CountsAre(counts, cells, f) && LandsTo(cells, s, f)
      invariant FillingIfBalanced(cells, csr[..], place, counts, s, f)
    {
      var line := a[f];
      if line >= s || line * s + counts[line] >= csr.Length {
        MissIsFatal(cells, csr[..], s, f);
        return csr, false, place;
      }
      ghost var before := csr[..];
      var q := line * s + counts[line];
      NextSlot(cells, before, place, counts, s, f, q);
      csr[q] := f;
      assert csr[..] == before[q := f];
      place := place + [q];
      counts := counts[line := counts[line] + 1];
    }
    BuiltIsExact(cells, csr[..], place, counts, s);
  }

  // ---- swaps ----

  /** A random draw: two lines, a position on each, and the coin of the annealing test. */
  datatype Move = Move(la: nat, lb: nat, posA: nat, posB: nat, coin: bool) {
    function SlotA(s: nat): nat {
      la * s + posA
    }

    function SlotB(s: nat): nat {
      lb * s + posB
    }
  }

  ghost function Exchanged(t: seq<nat>, q: nat, r: nat): seq<nat> {
    if q < |t| && r < |t| then t[q := t[r]][r := t[q]] else t
  }

  /** The assignment after the cells in slots `qa` and `qb` have changed lines. */
  ghost function Moved(a: seq<nat>, csr: seq<nat>, qa: nat, qb: nat): seq<nat> {
    if qa < |csr| && qb < |csr| then Exchanged(a, csr[qa], csr[qb]) else a
  }

  class SubTable {
    const s: nat
    const mode: Mode
    const assignment: array<nat>
    const csr: array<nat>
    const coverage: array<int>
    const loaded: bool
    ghost var place: seq<nat>

    ghost predicate Valid()
      reads this, assignment, csr, coverage
    {
      && s > 0 && assignment != csr && coverage as object != assignment && coverage as object != csr
      && Indexed(assignment[..], csr[..], place, s)
      && coverage.Length == s && IsCoverage(coverage[..], assignment[..], ZoneOf(mode, s))
    }

    /** `loaded` says that building the tables met no error. They are in step if and only if the assignment is
        balanced. */
    constructor (s: nat, mode: Mode, a: array<nat>)
      requires s > 0 && a.Length == s * s
      ensures this.s == s && this.mode == mode && assignment == a
      ensures fresh(csr) && fresh(coverage)
      ensures loaded <==> LandsTo(a[..], s, a.Length)
      ensures Valid() <==> Balanced(a[..], s)
    {
      var table, ok, slots := BuildCsr(a, s);
      var cov := new int[s];
      if ok {
        forall f | 0 <= f < a.Length ensures a[f] < s {
          assert Lands(a[..], s, f);
        }
        cov := BuildCoverage(a, s, mode);
      }
      this.s := s;
      this.mode := mode;
      assignment := a;
      csr := table;
      coverage := cov;
      loaded := ok;
      place := slots;
    }

    ghost function State(score: int): Climber
      reads assignment, csr, coverage
    {
      Climber(assignment[..], csr[..], coverage[..], score)
    }

    /** What line `la` gains in the zone when the cells in the two slots change lines. */
    ghost function ZoneGain(table: seq<nat>, m: Move): (d: int)
      requires s > 0 && |table| == s * s && Proper(m, s)
      ensures -1 <= d <= 1
    {
      SlotFits(s, m.la, m.posA);
      SlotFits(s, m.lb, m.posB);
      BitToInt(mode.InZone(s, table[m.SlotB(s)])) - BitToInt(mode.InZone(s, table[m.SlotA(s)]))
    }

    /** Reads the two slots of a move and compares the zones of their cells. */
    method ZoneShift(m: Move) returns (da: int)
      requires Valid() && Proper(m, s)
      ensures da == ZoneGain(csr[..], m)
    {
      SlotFits(s, m.la, m.posA);
      SlotFits(s, m.lb, m.posB);
      var flatA, flatB := csr[m.SlotA(s)], csr[m.SlotB(s)];
      da := BitToInt(mode.InZone(s, flatB)) - BitToInt(mode.InZone(s, flatA));
    }

    /** Exchanges the cells in slots `qa` and `qb` of lines `la` and `lb`. */
    method Exchange(qa: nat, qb: nat, la: nat, lb: nat, da: int)
      requires Valid() && qa < csr.Length && qb < csr.Length && qa != qb
      requires csr[qa] < assignment.Length && csr[qb] < assignment.Length && csr[qa] != csr[qb]
      requires la == assignment[csr[qa]] && lb == assignment[csr[qb]] && la != lb && la < s && lb < s
      requires da == BitToInt(mode.InZone(s, csr[qb])) - BitToInt(mode.InZone(s, csr[qa]))
      modifies this, assignment, csr, coverage
      ensures Valid()
      ensures assignment[..] == Moved(old(assignment[..]), old(csr[..]), qa, qb)
      ensures csr[..] == Exchanged(old(csr[..]), qa, qb)
      ensures coverage[..] == Shifted(old(coverage[..]), la, lb, da)
    {
      ghost var a, c, v, p := assignment[..], csr[..], coverage[..], place;
      var flatA, flatB := csr[qa], csr[qb];
      SwapIndexed(a, c, p, s, qa, qb);
      SwapCoverage(v, a, ZoneOf(mode, s), flatA, flatB);
      assignment[flatA] := lb;
      assignment[flatB] := la;
      csr[qa] := flatB;
      csr[qb] := flatA;
      assert assignment[..] == a[flatA := a[flatB]][flatB := a[flatA]];
      assert csr[..] == c[qa := c[qb]][qb := c[qa]];
      Shift(la, lb, da);
      place := p[flatA := qb][flatB := qa];
    }

    /** Moves `da` zone cells from line `lb` to line `la` in the coverage. */
    method Shift(la: nat, lb: nat, da: int)
      requires la < coverage.Length && lb < coverage.Length && la != lb
      modifies coverage
      ensures coverage[..] == Shifted(old(coverage[..]), la, lb, da)
    {
      coverage[la] := coverage[la] + da;
      coverage[lb] := coverage[lb] - da;
    }

    /** Exchanges the cells in two slots of different lines and keeps every index in step. */
    method Swap(m: Move)
      requires Valid() && Proper(m, s) && m.la != m.lb
      modifies this, assignment, csr, coverage
      ensures Valid()
      ensures assignment[..] == Moved(old(assignment[..]), old(csr[..]), m.SlotA(s), m.SlotB(s))
      ensures csr[..] == Exchanged(old(csr[..]), m.SlotA(s), m.SlotB(s))
      ensures coverage[..] == Shifted(old(coverage[..]), m.la, m.lb, ZoneGain(old(csr[..]), m))
    {
      SlotHoldsLine(assignment[..], csr[..], place, s, m.la, m.posA);
      SlotHoldsLine(assignment[..], csr[..], place, s, m.lb, m.posB);
      var qa, qb := m.SlotA(s), m.SlotB(s);
      var da := BitToInt(mode.InZone(s, csr[qb])) - BitToInt(mode.InZone(s, csr[qa]));
      assert da == ZoneGain(csr[..], m);
      Exchange(qa, qb, m.la, m.lb, da);
    }
  }

  predicate Proper(m: Move, s: nat) {
    m.la < s && m.lb < s && m.posA < s && m.posB < s
  }

  ghost function Shifted(cov: seq<int>, la: nat, lb: nat, d: int): seq<int>
    requires la < |cov| && lb < |cov|
  {
    if la == lb then cov else cov[la := cov[la] + d][lb := cov[lb] - d]
  }

  lemma SwapIndexed(a: seq<nat>, csr: seq<nat>, place: seq<nat>, s: nat, qa: nat, qb: nat)
    requires s > 0 && Indexed(a, csr, place, s) && qa < |csr| && qb < |csr| && qa != qb
    ensures Indexed(a[csr[qa] := a[csr[qb]]][csr[qb] := a[csr[qa]]], csr[qa := csr[qb]][qb := csr[qa]],
                    place[csr[qa] := qb][csr[qb] := qa], s)
    ensures a[csr[qa]] == qa / s && a[csr[qb]] == qb / s && csr[qa] != csr[qb]
  {
    SwapInverse(csr, place, qa, qb);
  }

  lemma SwapCoverage(cov: seq<int>, a: seq<nat>, zone: Zone, fa: nat, fb: nat)
    requires IsCoverage(cov, a, zone) && fa < |a| && fb < |a| && fa != fb && a[fa] != a[fb]
    requires a[fa] < |cov| && a[fb] < |cov|
    ensures IsCoverage(Shifted(cov, a[fa], a[fb], BitToInt(zone(fb)) - BitToInt(zone(fa))),
                       a[fa := a[fb]][fb := a[fa]], zone)
  {
    var d := BitToInt(zone(fb)) - BitToInt(zone(fa));
    var moved := Shifted(cov, a[fa], a[fb], d);
    forall l | 0 <= l < |cov| ensures moved[l] == CountOn(a[fa := a[fb]][fb := a[fa]], zone, l, |a|) {
      CountSwap(a, zone, fa, fb, l);
      var sign := BitToInt(a[fa] == l) - BitToInt(a[fb] == l);
      assert d * sign == if l == a[fa] then d else if l == a[fb] then -d else 0;
    }
  }

  // ---- what every swap keeps ----

  function SumAll(cov: seq<int>): int {
    Sum(cov, |cov|)
  }

  lemma SumAllUpdate(cov: seq<int>, l: nat, c: int)
    requires l < |cov|
    ensures SumAll(cov[l := c]) == SumAll(cov) + c - cov[l]
  {
    SumUpdate(cov, l, c, |cov|);
  }

  lemma ShiftedSum(cov: seq<int>, la: nat, lb: nat, d: int)
    requires la < |cov| && lb < |cov|
    ensures SumAll(Shifted(cov, la, lb, d)) == SumAll(cov)
  {
    if la != lb {
      SumAllUpdate(cov, la, cov[la] + d);
      SumAllUpdate(cov[la := cov[la] + d], lb, cov[lb] - d);
    }
  }

  /** Zone cells below `k`. */
  function ZoneCells(zone: Zone, k: nat): nat {
    if k == 0 then 0 else ZoneCells(zone, k - 1) + BitToInt(zone(k - 1))
  }

  ghost function SumCounts(a: seq<nat>, zone: Zone, lines: nat, k: nat): nat
    requires k <= |a|
  {
    if lines == 0 then 0 else SumCounts(a, zone, lines - 1, k) + CountOn(a, zone, lines - 1, k)
  }

  lemma {:induction false} SumCountsNext(a: seq<nat>, zone: Zone, lines: nat, k: nat)
    requires 0 < k <= |a|
    ensures SumCounts(a, zone, lines, k) == SumCounts(a, zone, lines, k - 1) + BitToInt(a[k - 1] < lines && zone(k - 1))
  {
    if lines > 0 {
      SumCountsNext(a, zone, lines - 1, k);
    }
  }

  lemma {:induction false} SumCountsTotal(a: seq<nat>, zone: Zone, lines: nat, k: nat)
    requires k <= |a| && forall f :: 0 <= f < |a| ==> a[f] < lines
    ensures SumCounts(a, zone, lines, k) == ZoneCells(zone, k)
  {
    if k > 0 {
      SumCountsNext(a, zone, lines, k);
      SumCountsTotal(a, zone, lines, k - 1);
    } else {
      SumCountsNone(a, zone, lines);
    }
  }

  lemma {:induction false} SumCountsNone(a: seq<nat>, zone: Zone, lines: nat)
    ensures SumCounts(a, zone, lines, 0) == 0
  {
    if lines > 0 {
      SumCountsNone(a, zone, lines - 1);
    }
  }

  lemma {:induction false} SumIsSumCounts(cov: seq<int>, a: seq<nat>, zone: Zone, k: nat)
    requires IsCoverage(cov, a, zone) && k <= |cov|
    ensures Sum(cov, k) == SumCounts(a, zone, k, |a|)
  {
    if k > 0 {
      SumIsSumCounts(cov, a, zone, k - 1);
    }
  }

  /** The coverage of all lines adds up to the number of zone cells, so no swap changes the total. */
  lemma TotalCoverage(cov: seq<int>, a: seq<nat>, zone: Zone)
    requires IsCoverage(cov, a, zone) && forall f :: 0 <= f < |a| ==> a[f] < |cov|
    ensures SumAll(cov) == ZoneCells(zone, |a|)
  {
    SumIsSumCounts(cov, a, zone, |cov|);
    SumCountsTotal(a, zone, |cov|, |a|);
  }

  /** The index invariant keeps every line at exactly `s` cells. */
  lemma IndexedIsBalanced(a: seq<nat>, csr: seq<nat>, place: seq<nat>, s: nat)
    requires s > 0 && Indexed(a, csr, place, s)
    ensures Balanced(a, s)
  {
    CutIsBalanced(a, csr, place, s);
  }

  // ---- the climb ----

  datatype Settings = Settings(objective: Objective, floor: int, annealing: bool, cap: int)

  /** Whether a swap with score change `delta` is taken. */
  predicate Accepts(st: Settings, score: int, delta: int, donorNew: int, coin: bool) {
    if delta > 0 then donorNew >= st.floor && (st.cap == 0 || score + delta <= st.cap)
    else if st.annealing && delta < 0 then coin
    else false
  }

  /** Score change of moving `da` zone cells from line `lb` to line `la`. */
  function Change(o: Objective, cov: seq<int>, la: nat, lb: nat, da: int): int
    requires la < |cov| && lb < |cov|
  {
    Reward(o, cov[la] + da) + Reward(o, cov[lb] - da) - Reward(o, cov[la]) - Reward(o, cov[lb])
  }

  /** The acceptance test for moving `da` zone cells from line `lb` to line `la`. */
  predicate AcceptsShift(st: Settings, score: int, cov: seq<int>, m: Move, da: int)
    requires m.la < |cov| && m.lb < |cov|
  {
    Accepts(st, score, Change(st.objective, cov, m.la, m.lb, da),
            if da < 0 then cov[m.la] + da else cov[m.lb] - da, m.coin)
  }

  ghost predicate AboveFloor(cov: seq<int>, start: seq<int>, floor: int) {
    |cov| == |start| && forall l :: 0 <= l < |cov| ==> cov[l] >= Min(floor, start[l])
  }

  lemma ShiftEffects(st: Settings, cov: seq<int>, la: nat, lb: nat, da: int, score: int, coin: bool)
    requires la < |cov| && lb < |cov| && la != lb && da != 0 && -1 <= da <= 1
    requires Accepts(st, score, Change(st.objective, cov, la, lb, da),
                     if da < 0 then cov[la] + da else cov[lb] - da, coin)
    ensures Score(st.objective, Shifted(cov, la, lb, da)) ==
      Score(st.objective, cov) + Change(st.objective, cov, la, lb, da)
    ensures SumAll(Shifted(cov, la, lb, da)) == SumAll(cov)
    ensures !st.annealing ==> AboveFloor(Shifted(cov, la, lb, da), cov, st.floor)
  {
    ScoreSwap(st.objective, cov, la, lb, da);
    ShiftedSum(cov, la, lb, da);
  }

  lemma AboveFloorChain(start: seq<int>, middle: seq<int>, end: seq<int>, floor: int)
    requires AboveFloor(middle, start, floor) && AboveFloor(end, middle, floor)
    ensures AboveFloor(end, start, floor)
  {
    forall l | 0 <= l < |end| ensures end[l] >= Min(floor, start[l]) {
      assert middle[l] >= Min(floor, start[l]);
    }
  }

  /** The decision of one step: lines differ, zones differ, and the score change is acceptable. */
  ghost predicate Taken(t: SubTable, m: Move, st: Settings, score: int)
    reads t, t.assignment, t.csr, t.coverage
    requires t.Valid() && Proper(m, t.s)
  {
    var da := t.ZoneGain(t.csr[..], m);
    m.la != m.lb && da != 0 && AcceptsShift(st, score, t.coverage[..], m, da)
  }

  // ---- a run as a chain of states ----

  /** The tables, the coverage and the running score at one moment of a run. */
  datatype Climber = Climber(assignment: seq<nat>, csr: seq<nat>, coverage: seq<int>, score: int)

  ghost predicate Sized(a: Climber, s: nat) {
    s > 0 && |a.csr| == s * s && |a.coverage| == s
  }

  /** What line `la` gains in the zone by the move. */
  ghost function GainOf(mode: Mode, s: nat, csr: seq<nat>, m: Move): int
    requires s > 0 && |csr| == s * s && Proper(m, s)
  {
    SlotFits(s, m.la, m.posA);
    SlotFits(s, m.lb, m.posB);
    BitToInt(mode.InZone(s, csr[m.SlotB(s)])) - BitToInt(mode.InZone(s, csr[m.SlotA(s)]))
  }

  /** The move takes zone cells from one line to another, and either the score computed from scratch rises, the line
      that loses stays at the floor and the cap is kept, or it falls and annealing lets it. */
  ghost predicate Acceptable(mode: Mode, s: nat, st: Settings, a: Climber, m: Move)
    requires Sized(a, s) && Proper(m, s)
  {
    var da := GainOf(mode, s, a.csr, m);
    var after := Shifted(a.coverage, m.la, m.lb, da);
    var delta := Score(st.objective, after) - Score(st.objective, a.coverage);
    && m.la != m.lb && da != 0
    && if delta > 0 then
         (if da < 0 then after[m.la] else after[m.lb]) >= st.floor && (st.cap == 0 || a.score + delta <= st.cap)
       else
         delta < 0 && st.annealing && m.coin
  }

  /** An acceptable move exchanges the cells of its slots; any other changes nothing. */
  ghost predicate ClimbStep(mode: Mode, s: nat, st: Settings, a: Climber, b: Climber, m: Move)
    requires Sized(a, s) && Proper(m, s)
  {
    if Acceptable(mode, s, st, a, m) then
      && b.assignment == Moved(a.assignment, a.csr, m.SlotA(s), m.SlotB(s))
      && b.csr == Exchanged(a.csr, m.SlotA(s), m.SlotB(s))
      && b.coverage == Shifted(a.coverage, m.la, m.lb, GainOf(mode, s, a.csr, m))
      && b.score == a.score + Score(st.objective, b.coverage) - Score(st.objective, a.coverage)
    else
      b == a
  }

  /** A run with the moves that are still to be tried and the number accepted so far. */
  datatype Moment = Moment(climber: Climber, todo: seq<Move>, accepted: nat)

  /** The next move is tried. */
  ghost predicate OneMove(mode: Mode, s: nat, st: Settings, p: Moment, q: Moment) {
    && p.todo != [] && q.todo == p.todo[1..] && Sized(p.climber, s) && Proper(p.todo[0], s)
    && ClimbStep(mode, s, st, p.climber, q.climber, p.todo[0])
    && q.accepted == p.accepted + BitToInt(Acceptable(mode, s, st, p.climber, p.todo[0]))
  }

  ghost function Trying(mode: Mode, s: nat, st: Settings): (Moment, Moment) -> bool {
    (p: Moment, q: Moment) => OneMove(mode, s, st, p, q)
  }

  /** One move after another leads from `a` to `b`, and `accepted` of them are acceptable where they are tried. */
  ghost predicate Ran(mode: Mode, s: nat, st: Settings, moves: seq<Move>, a: Climber, b: Climber, accepted: nat) {
    Steps(Trying(mode, s, st), Moment(a, moves, 0), Moment(b, [], accepted), |moves|)
  }

  lemma OneMoveUnique(mode: Mode, s: nat, st: Settings, p: Moment, q: Moment, r: Moment)
    requires OneMove(mode, s, st, p, q) && OneMove(mode, s, st, p, r)
    ensures q == r
  {
  }

  lemma {:induction false} TryingUnique(mode: Mode, s: nat, st: Settings, p: Moment, q: Moment, r: Moment, n: nat)
    requires Steps(Trying(mode, s, st), p, q, n) && Steps(Trying(mode, s, st), p, r, n)
    ensures q == r
    decreases n
  {
    if n == 0 {
      NothingStepped(Trying(mode, s, st), p, q);
      NothingStepped(Trying(mode, s, st), p, r);
    } else {
      var q' := LastStep(Trying(mode, s, st), p, q, n - 1);
      var r' := LastStep(Trying(mode, s, st), p, r, n - 1);
      TryingUnique(mode, s, st, p, q', r', n - 1);
      OneMoveUnique(mode, s, st, q', q, r);
    }
  }

  /** The moves decide where a run ends and how many are accepted. */
  lemma RanUnique(mode: Mode, s: nat, st: Settings, moves: seq<Move>, a: Climber, b: Climber, n: nat, c: Climber,
                  m: nat)
    requires Ran(mode, s, st, moves, a, b, n) && Ran(mode, s, st, moves, a, c, m)
    ensures b == c && n == m
  {
    TryingUnique(mode, s, st, Moment(a, moves, 0), Moment(b, [], n), Moment(c, [], m), |moves|);
  }

  /** None of the first `k` moves is acceptable. */
  ghost predicate NoneAcceptable(mode: Mode, s: nat, st: Settings, a: Climber, moves: seq<Move>, k: nat)
    requires Sized(a, s) && k <= |moves| && forall i :: 0 <= i < |moves| ==> Proper(moves[i], s)
  {
    forall i :: 0 <= i < k ==> !Acceptable(mode, s, st, a, moves[i])
  }

  /** The moves to be tried after `k` steps, and what they say about acceptance so far. */
  lemma {:induction false} TriedSoFar(mode: Mode, s: nat, st: Settings, moves: seq<Move>, a: Climber, p: Moment, k: nat)
    requires Sized(a, s) && k <= |moves| && forall i :: 0 <= i < |moves| ==> Proper(moves[i], s)
    requires Steps(Trying(mode, s, st), Moment(a, moves, 0), p, k)
    ensures p.todo == moves[k..]
    ensures p.accepted == 0 <==> NoneAcceptable(mode, s, st, a, moves, k)
    ensures p.accepted == 0 ==> p.climber == a
    decreases k
  {
    if k == 0 {
      NothingStepped(Trying(mode, s, st), Moment(a, moves, 0), p);
    } else {
      var q := LastStep(Trying(mode, s, st), Moment(a, moves, 0), p, k - 1);
      TriedSoFar(mode, s, st, moves, a, q, k - 1);
      assert q.todo[0] == moves[k - 1];
    }
  }

  /** A run accepts nothing exactly when no move is acceptable at its start, and then it changes nothing. */
  lemma NothingAccepted(mode: Mode, s: nat, st: Settings, moves: seq<Move>, a: Climber, b: Climber, accepted: nat)
    requires Sized(a, s) && forall i :: 0 <= i < |moves| ==> Proper(moves[i], s)
    requires Ran(mode, s, st, moves, a, b, accepted)
    ensures accepted == 0 <==> forall i :: 0 <= i < |moves| ==> !Acceptable(mode, s, st, a, moves[i])
    ensures accepted == 0 ==> b == a
  {
    TriedSoFar(mode, s, st, moves, a, Moment(b, [], accepted), |moves|);
  }

  lemma TriesNext(mode: Mode, s: nat, st: Settings, moves: seq<Move>, k: nat, start: Climber, a: Climber, b: Climber,
                  n: nat, accepted: nat)
    requires k < |moves| && Sized(a, s) && Proper(moves[k], s)
    requires Steps(Trying(mode, s, st), Moment(start, moves, 0), Moment(a, moves[k..], n), k)
    requires ClimbStep(mode, s, st, a, b, moves[k])
    requires accepted == n + BitToInt(Acceptable(mode, s, st, a, moves[k]))
    ensures Steps(Trying(mode, s, st), Moment(start, moves, 0), Moment(b, moves[k + 1..], accepted), k + 1)
  {
    var p, q := Moment(a, moves[k..], n), Moment(b, moves[k + 1..], accepted);
    assert p.todo[0] == moves[k] && p.todo[1..] == q.todo;
    NextStep(Trying(mode, s, st), Moment(start, moves, 0), p, q, k);
  }

  /** The tested change is the change of the score computed from scratch. */
  lemma TakenIsAcceptable(t: SubTable, m: Move, st: Settings, score: int)
    requires t.Valid() && Proper(m, t.s)
    ensures Taken(t, m, st, score) <==> Acceptable(t.mode, t.s, st, t.State(score), m)
  {
    var da := t.ZoneGain(t.csr[..], m);
    if m.la != m.lb && da != 0 {
      ScoreSwap(st.objective, t.coverage[..], m.la, m.lb, da);
    }
  }

  method Evaluate(t: SubTable, m: Move, st: Settings, score: int) returns (take: bool, change: int)
    requires t.Valid() && Proper(m, t.s)
    ensures take <==> Taken(t, m, st, score)
    ensures take ==> change == Change(st.objective, t.coverage[..], m.la, m.lb, t.ZoneGain(t.csr[..], m))
  {
    take, change := false, 0;
    if m.la == m.lb {
      return;
    }
    var da := t.ZoneShift(m);
    if da == 0 {
      return;
    }
    var oldA, oldB := t.coverage[m.la], t.coverage[m.lb];
    var newA, newB := oldA + da, oldB - da;
    var o := st.objective;
    change := Reward(o, newA) + Reward(o, newB) - Reward(o, oldA) - Reward(o, oldB);
    take := Accepts(st, score, change, if da < 0 then newA else newB, m.coin);
  }

  /** One step. A rejected step changes nothing; an accepted one shifts coverage between two lines. */
  method TryMove(t: SubTable, m: Move, st: Settings, score: int) returns (accepted: bool, delta: int)
    requires t.Valid() && Proper(m, t.s)
    modifies t, t.assignment, t.csr, t.coverage
    ensures t.Valid()
    ensures accepted <==> old(Taken(t, m, st, score))
    ensures !accepted ==> delta == 0 && t.place == old(t.place) && t.assignment[..] == old(t.assignment[..])
    ensures !accepted ==> t.csr[..] == old(t.csr[..]) && t.coverage[..] == old(t.coverage[..])
    ensures accepted ==> t.csr[..] == Exchanged(old(t.csr[..]), m.SlotA(t.s), m.SlotB(t.s))
    ensures accepted ==> t.assignment[..] == Moved(old(t.assignment[..]), old(t.csr[..]), m.SlotA(t.s), m.SlotB(t.s))
    ensures accepted ==> t.coverage[..] == Shifted(old(t.coverage[..]), m.la, m.lb, t.ZoneGain(old(t.csr[..]), m))
    ensures delta == Score(st.objective, t.coverage[..]) - Score(st.objective, old(t.coverage[..]))
    ensures SumAll(t.coverage[..]) == SumAll(old(t.coverage[..]))
    ensures accepted && !st.annealing ==> delta > 0
    ensures delta > 0 && st.cap != 0 ==> score + delta <= st.cap
    ensures !st.annealing ==> AboveFloor(t.coverage[..], old(t.coverage[..]), st.floor)
  {
    accepted, delta := false, 0;
    var take, change := Evaluate(t, m, st, score);
    if take {
      ShiftEffects(st, t.coverage[..], m.la, m.lb, t.ZoneGain(t.csr[..], m), score, m.coin);
      t.Swap(m);
      accepted, delta := true, change;
    }
  }

  /** One step, seen as a step of the run. */
  method Advance(t: SubTable, m: Move, st: Settings, score: int) returns (accepted: bool, delta: int)
    requires t.Valid() && Proper(m, t.s)
    modifies t, t.assignment, t.csr, t.coverage
    ensures t.Valid()
    ensures delta == Score(st.objective, t.coverage[..]) - Score(st.objective, old(t.coverage[..]))
    ensures SumAll(t.coverage[..]) == SumAll(old(t.coverage[..]))
    ensures !accepted ==> delta == 0
    ensures accepted && !st.annealing ==> delta > 0
    ensures delta > 0 && st.cap != 0 ==> score + delta <= st.cap
    ensures !st.annealing ==> AboveFloor(t.coverage[..], old(t.coverage[..]), st.floor)
    ensures Sized(old(t.State(score)), t.s) && accepted == Acceptable(t.mode, t.s, st, old(t.State(score)), m)
    ensures ClimbStep(t.mode, t.s, st, old(t.State(score)), t.State(score + delta), m)
  {
    ghost var before := t.State(score);
    TakenIsAcceptable(t, m, st, score);
    accepted, delta := TryMove(t, m, st, score);
  }

  /** A run of the climb. Index and coverage stay exact, the returned score change is the true one,
      the total coverage is constant; without annealing the score never falls and no line drops below
      the lesser of the floor and its start; the cap is never crossed upwards. */
  method HillClimbOneSub(t: SubTable, moves: seq<Move>, st: Settings, currentScore: int)
      returns (accepted: nat, scoreDelta: int)
    requires t.Valid() && forall k :: 0 <= k < |moves| ==> Proper(moves[k], t.s)
    modifies t, t.assignment, t.csr, t.coverage
    ensures t.Valid()
    ensures scoreDelta == Score(st.objective, t.coverage[..]) - Score(st.objective, old(t.coverage[..]))
    ensures SumAll(t.coverage[..]) == SumAll(old(t.coverage[..]))
    ensures !st.annealing ==> scoreDelta >= accepted
    ensures st.cap != 0 ==> currentScore + scoreDelta <= Max(st.cap, currentScore)
    ensures !st.annealing ==> AboveFloor(t.coverage[..], old(t.coverage[..]), st.floor)
    ensures Ran(t.mode, t.s, st, moves, old(t.State(currentScore)), t.State(currentScore + scoreDelta), accepted)
  {
    accepted, scoreDelta := 0, 0;
    var score := currentScore;
    ghost var start := t.State(currentScore);
    assert moves[0..] == moves;
    NoStep(Trying(t.mode, t.s, st), Moment(start, moves, 0));
    for k := 0 to |moves|
      invariant t.Valid() && score == currentScore + scoreDelta
      invariant scoreDelta == Score(st.objective, t.coverage[..]) - Score(st.objective, old(t.coverage[..]))
      invariant SumAll(t.coverage[..]) == SumAll(old(t.coverage[..]))
      invariant !st.annealing ==> scoreDelta >= accepted
      invariant st.cap != 0 ==> score <= Max(st.cap, currentScore)
      invariant !st.annealing ==> AboveFloor(t.coverage[..], old(t.coverage[..]), st.floor)
      invariant Steps(Trying(t.mode, t.s, st), Moment(start, moves, 0), Moment(t.State(score), moves[k..], accepted), k)
    {
      ghost var before, state, done := t.coverage[..], t.State(score), accepted;
      var took, delta := Advance(t, moves[k], st, score);
      if !st.annealing {
        AboveFloorChain(old(t.coverage[..]), before, t.coverage[..], st.floor);
      }
      if took {
        accepted := accepted + 1;
        scoreDelta := scoreDelta + delta;
        score := score + delta;
      }
      TriesNext(t.mode, t.s, st, moves, k, start, state, t.State(score), done, accepted);
    }
    assert moves[|moves|..] == [];
  }

  // ---- the kick ----

  /** Assignment and table after some moves have been applied without a test. */
  datatype Tables = Tables(assignment: seq<nat>, csr: seq<nat>)

  ghost function Kicked(t: Tables, s: nat, moves: seq<Move>): Tables {
    if moves == [] then t
    else
      var before, m := Kicked(t, s, moves[..|moves| - 1]), moves[|moves| - 1];
      if m.la == m.lb then before
      else Tables(Moved(before.assignment, before.csr, m.SlotA(s), m.SlotB(s)),
                  Exchanged(before.csr, m.SlotA(s), m.SlotB(s)))
  }

  /** How many moves name two different lines. */
  ghost function Applied(moves: seq<Move>): (n: nat) {
    if moves == [] then 0
    else Applied(moves[..|moves| - 1]) + BitToInt(moves[|moves| - 1].la != moves[|moves| - 1].lb)
  }

  lemma KickedNext(t: Tables, s: nat, moves: seq<Move>, k: nat)
    requires k < |moves|
    ensures Applied(moves[..k + 1]) == Applied(moves[..k]) + BitToInt(moves[k].la != moves[k].lb)
    ensures var before, m := Kicked(t, s, moves[..k]), moves[k];
      Kicked(t, s, moves[..k + 1]) ==
        if m.la == m.lb then before
        else Tables(Moved(before.assignment, before.csr, m.SlotA(s), m.SlotB(s)),
                    Exchanged(before.csr, m.SlotA(s), m.SlotB(s)))
  {
    assert moves[..k + 1][..k] == moves[..k];
  }

  /** Swaps without a test before the climb: every move between different lines is applied and counted, the
      index stays exact and the total coverage constant. */
  method Kick(t: SubTable, moves: seq<Move>) returns (applied: nat)
    requires t.Valid() && forall k :: 0 <= k < |moves| ==> Proper(moves[k], t.s)
    modifies t, t.assignment, t.csr, t.coverage
    ensures t.Valid() && SumAll(t.coverage[..]) == SumAll(old(t.coverage[..]))
    ensures Tables(t.assignment[..], t.csr[..]) == Kicked(Tables(old(t.assignment[..]), old(t.csr[..])), t.s, moves)
    ensures applied == Applied(moves)
  {
    applied := 0;
    ghost var start := Tables(t.assignment[..], t.csr[..]);
    for k := 0 to |moves|
      invariant t.Valid() && SumAll(t.coverage[..]) == SumAll(old(t.coverage[..]))
      invariant Tables(t.assignment[..], t.csr[..]) == Kicked(start, t.s, moves[..k])
      invariant applied == Applied(moves[..k])
    {
      var m := moves[k];
      KickedNext(start, t.s, moves, k);
      if m.la != m.lb {
        ShiftedSum(t.coverage[..], m.la, m.lb, t.ZoneGain(t.csr[..], m));
        t.Swap(m);
        applied := applied + 1;
      }
    }
    assert moves[..|moves|] == moves;
  }
}
