/** Pairwise cross-line deduction and interval tightening: both ask, for each free cell,
    which values leave every line through it within its bounds. */
module Deduction {
  import opened Gf2
  import opened Lines
  import opened Propagation

  /** Value `v` at cell `j` keeps every line through `j` within its bounds. */
  ghost predicate Feasible(L: LineSystem, known: Partial, j: nat, v: bool)
    requires |L.members| == |L.targets|
  {
    forall i :: 0 <= i < |L.members| && j in L.members[i] ==>
      0 <= Rho(L, known, i) - BitToInt(v) <= U(L, known, i) - 1
  }

  /** A state is closed exactly when both values are feasible at every free cell. */
  lemma ClosedIffFeasible(L: LineSystem, known: Partial)
    requires L.Wf()
    ensures Closed(L, known) <==>
      forall j: nat :: j < L.n && j !in known ==> Feasible(L, known, j, false) && Feasible(L, known, j, true)
  {
    if forall j: nat :: j < L.n && j !in known ==> Feasible(L, known, j, false) && Feasible(L, known, j, true) {
      forall i | 0 <= i < |L.members| ensures Quiet(L, known, i) {
        UPositive(L, known, i);
      }
    }
    if Closed(L, known) {
      forall j: nat | j < L.n && j !in known ensures Feasible(L, known, j, false) && Feasible(L, known, j, true) {
        forall i | 0 <= i < |L.members| && j in L.members[i] ensures 0 < Rho(L, known, i) < U(L, known, i) {
          assert Quiet(L, known, i);
          UPositive(L, known, i);
        }
      }
    }
  }

  /** When a value is infeasible, every stable extension fixes the cell to the other one. */
  lemma InfeasibleIsSound(L: LineSystem, start: Partial, known: Partial, j: nat, v: bool, M: Partial)
    requires L.Wf() && Below(L, start, known) && j < L.n && j !in known
    requires !Feasible(L, known, j, v) && Stable(L, start, M)
    ensures j in M && M[j] != v
  {
    assert Extends(M, known);
    var i :| 0 <= i < |L.members| && j in L.members[i]
      && !(0 <= Rho(L, known, i) - BitToInt(v) <= U(L, known, i) - 1);
    if j !in M {
      ResidualsFall(L, known, M, i);
      assert Quiet(L, M, i);
      UPositive(L, M, i);
    } else if M[j] == v {
      AssignRhoU(L, known, j, v, i);
      ResidualsFall(L, known[j := v], M, i);
    }
  }

  method CellFeasible(cs: ConstraintSystem, j: nat, v: bool) returns (feasible: bool)
    requires cs.Valid() && j in cs.free
    ensures feasible <==> Feasible(cs.L, cs.known, j, v)
  {
    var ls := cs.cellLines[j];
    assert LinesThrough(cs.L, j, ls);
    feasible := true;
    for k := 0 to |ls|
      invariant feasible
      invariant forall m :: 0 <= m < k ==> 0 <= Rho(cs.L, cs.known, ls[m]) - BitToInt(v) <= U(cs.L, cs.known, ls[m]) - 1
    {
      var newRho, newU := cs.rho[ls[k]] - BitToInt(v), cs.u[ls[k]] - 1;
      if newRho < 0 || newRho > newU {
        assert ls[k] in ls;
        return false;
      }
    }
    forall i | 0 <= i < |cs.L.members| && j in cs.L.members[i]
      ensures 0 <= Rho(cs.L, cs.known, i) - BitToInt(v) <= U(cs.L, cs.known, i) - 1
    {
      assert i in ls;
    }
  }

  /** The cells of `done` with one feasible value, and that value. */
  ghost predicate Deduced(L: LineSystem, known: Partial, done: set<nat>, newly: Partial)
    requires |L.members| == |L.targets|
  {
    && newly.Keys <= done
    && (forall j :: j in newly ==> !Feasible(L, known, j, !newly[j]))
    && (forall j :: j in done && j !in newly ==> Feasible(L, known, j, false) && Feasible(L, known, j, true))
  }

  method FindDeductions(cs: ConstraintSystem) returns (newly: Partial, conflict: bool)
    requires cs.Valid()
    ensures conflict ==> newly == map[]
    ensures conflict ==>
      (exists j :: j in cs.free && !Feasible(cs.L, cs.known, j, false) && !Feasible(cs.L, cs.known, j, true))
    ensures !conflict ==> Deduced(cs.L, cs.known, cs.free, newly)
  {
    newly, conflict := map[], false;
    var todo := cs.free;
    while todo != {}
      invariant todo <= cs.free && Deduced(cs.L, cs.known, cs.free - todo, newly)
    {
      var j :| j in todo;
      todo := todo - {j};
      var zero := CellFeasible(cs, j, false);
      var one := CellFeasible(cs, j, true);
      if !zero && !one {
        return map[], true;
      } else if !zero {
        newly := newly[j := true];
      } else if !one {
        newly := newly[j := false];
      }
    }
  }

  lemma MergeStep(K: Partial, newly: Partial, todo: set<nat>, j: nat)
    requires todo <= newly.Keys && j in todo
    ensures (K + (newly - todo))[j := newly[j]] == K + (newly - (todo - {j}))
  {
  }

  /** Fixes a batch of free cells, in any order. */
  method DetermineAll(cs: ConstraintSystem, newly: Partial)
    requires cs.Valid() && newly.Keys <= cs.free
    modifies cs
    ensures cs.Valid() && cs.known == old(cs.known) + newly
  {
    var todo := newly.Keys;
    while todo != {}
      invariant todo <= newly.Keys && todo <= cs.free && cs.Valid()
      invariant cs.known == old(cs.known) + (newly - todo)
    {
      var j :| j in todo;
      MergeStep(old(cs.known), newly, todo, j);
      todo := todo - {j};
      cs.Determine(j, newly[j]);
    }
  }

  /** A free cell with no feasible value rules out every stable extension. */
  lemma NoValueIsFinal(L: LineSystem, start: Partial, j: nat)
    requires L.Wf() && j < L.n && j !in start
    requires !Feasible(L, start, j, false) && !Feasible(L, start, j, true)
    ensures !Closed(L, start) && forall M: Partial :: !Stable(L, start, M)
  {
    ClosedIffFeasible(L, start);
    forall M: Partial ensures !Stable(L, start, M) {
      if Stable(L, start, M) {
        InfeasibleIsSound(L, start, start, j, false, M);
        InfeasibleIsSound(L, start, start, j, true, M);
      }
    }
  }

  /** What is deduced, every stable extension has. */
  lemma DeducedIsSound(L: LineSystem, start: Partial, free: set<nat>, newly: Partial)
    requires L.Wf() && Deduced(L, start, free, newly)
    requires forall j: nat :: j in free <==> j < L.n && j !in start
    ensures Below(L, start, start + newly)
  {
    forall M: Partial | Stable(L, start, M) ensures Extends(M, start + newly) {
      forall j | j in newly ensures j in M && M[j] == newly[j] {
        InfeasibleIsSound(L, start, start, j, !newly[j], M);
      }
    }
  }

  /** Deductions are missing exactly from closed states. */
  lemma NothingDeduced(L: LineSystem, start: Partial, free: set<nat>, newly: Partial)
    requires L.Wf() && Deduced(L, start, free, newly)
    requires forall j: nat :: j in free <==> j < L.n && j !in start
    ensures newly == map[] <==> Closed(L, start)
  {
    ClosedIffFeasible(L, start);
    if newly == map[] {
      assert forall j: nat :: j < L.n && j !in start ==> j !in newly;
    } else {
      var j :| j in newly.Keys;
    }
  }

  /** Cross deduction from any state is sound, and it finds something exactly when
      integer propagation has not finished: after a normal end of `IntBound` it adds nothing. */
  method CrossDeduce(cs: ConstraintSystem) returns (newly: Partial, conflict: bool)
    requires cs.Valid()
    modifies cs
    ensures cs.Valid() && cs.known == old(cs.known) + newly && newly == Gain(old(cs.known), cs.known)
    ensures Below(cs.L, old(cs.known), cs.known)
    ensures conflict ==> newly == map[] && forall M: Partial :: !Stable(cs.L, old(cs.known), M)
    ensures !conflict && newly == map[] <==> Closed(cs.L, old(cs.known))
  {
    ghost var start := cs.known;
    newly, conflict := FindDeductions(cs);
    if conflict {
      ghost var j :| j in cs.free && !Feasible(cs.L, start, j, false) && !Feasible(cs.L, start, j, true);
      NoValueIsFinal(cs.L, start, j);
      return;
    }
    DeducedIsSound(cs.L, start, cs.free, newly);
    NothingDeduced(cs.L, start, cs.free, newly);
    DetermineAll(cs, newly);
  }

  // ---- interval tightening ----

  datatype Tightening = Tightening(free: nat, prefInfeasible: nat, altInfeasible: nat, bothInfeasible: nat,
                                   forced: nat, bothFeasible: nat)

  /** The cell is free, and its feasible values are exactly those named. */
  ghost predicate Allows(L: LineSystem, known: Partial, j: nat, zero: bool, one: bool)
    requires |L.members| == |L.targets|
  {
    j !in known && Feasible(L, known, j, false) == zero && Feasible(L, known, j, true) == one
  }

  /** The free cells below `k` whose feasible values are exactly those named. */
  ghost function CellsWith(L: LineSystem, known: Partial, k: nat, zero: bool, one: bool): set<nat>
    requires |L.members| == |L.targets|
  {
    set j: nat | j in Cells(k) && Allows(L, known, j, zero, one)
  }

  lemma OneMoreElement(few: set<nat>, more: set<nat>, k: nat, here: bool)
    requires k !in few && forall j: nat :: j in more <==> j in few || (here && j == k)
    ensures |more| == |few| + BitToInt(here)
  {
    if here {
      assert more == few + {k};
    } else {
      assert more == few;
    }
  }

  ghost function CountWith(L: LineSystem, known: Partial, k: nat, zero: bool, one: bool): nat
    requires |L.members| == |L.targets|
  {
    if k == 0 then 0
    else CountWith(L, known, k - 1, zero, one) + BitToInt(Allows(L, known, k - 1, zero, one))
  }

  lemma {:induction false} CountIsSize(L: LineSystem, known: Partial, k: nat, zero: bool, one: bool)
    requires |L.members| == |L.targets|
    ensures CountWith(L, known, k, zero, one) == |CellsWith(L, known, k, zero, one)|
  {
    if k == 0 {
      assert CellsWith(L, known, 0, zero, one) == {};
    } else {
      CountIsSize(L, known, k - 1, zero, one);
      var few, more := CellsWith(L, known, k - 1, zero, one), CellsWith(L, known, k, zero, one);
      OneMoreElement(few, more, k - 1, Allows(L, known, k - 1, zero, one));
    }
  }

  lemma FourParts(a: set<nat>, b: set<nat>, c: set<nat>, d: set<nat>, all: set<nat>)
    requires forall j :: j in all <==> j in a || j in b || j in c || j in d
    requires a !! b && (a + b) !! c && (a + b + c) !! d
    ensures |a| + |b| + |c| + |d| == |all|
  {
    assert all == a + b + c + d;
  }

  /** Every free cell is counted once. */
  lemma CellsWithAddUp(L: LineSystem, known: Partial, free: set<nat>)
    requires |L.members| == |L.targets| && forall j: nat :: j in free <==> j < L.n && j !in known
    ensures |CellsWith(L, known, L.n, true, true)| + |CellsWith(L, known, L.n, false, true)|
      + |CellsWith(L, known, L.n, true, false)| + |CellsWith(L, known, L.n, false, false)| == |free|
  {
    FourParts(CellsWith(L, known, L.n, true, true), CellsWith(L, known, L.n, false, true),
              CellsWith(L, known, L.n, true, false), CellsWith(L, known, L.n, false, false), free);
  }

  // ---- how tight the lines are ----

  function Ratio(rho: int, u: nat): real
    requires u > 0
  {
    rho as real / u as real
  }

  predicate Between(q: real) {
    0.0 < q < 1.0
  }

  lemma FractionTimes(rho: int, u: nat)
    requires u > 0
    ensures Ratio(rho, u) * u as real == rho as real
  {
  }

  lemma ProductBetween(q: real, w: real)
    requires w > 0.0
    ensures Between(q) <==> 0.0 < q * w < w
  {
    if q <= 0.0 {
      assert q * w <= 0.0;
    } else if q >= 1.0 {
      assert (q - 1.0) * w >= 0.0;
    } else {
      assert (1.0 - q) * w > 0.0;
    }
  }

  /** The ratio is between zero and one exactly for a quiet line. */
  lemma ProperFraction(rho: int, u: nat)
    requires u > 0
    ensures 0 < rho < u <==> Between(Ratio(rho, u))
  {
    FractionTimes(rho, u);
    ProductBetween(Ratio(rho, u), u as real);
  }

  /** Residual over unfixed cells for each of the first `k` lines that have unfixed cells. */
  ghost function LineRatios(L: LineSystem, known: Partial, k: nat): (ratios: seq<real>)
    requires k <= |L.members| == |L.targets|
  {
    if k == 0 then [] else LineRatios(L, known, k - 1) + OneRatio(L, known, k - 1)
  }

  ghost function OneRatio(L: LineSystem, known: Partial, i: nat): (ratios: seq<real>)
    requires i < |L.members| == |L.targets|
  {
    if U(L, known, i) > 0 then [Ratio(Rho(L, known, i), U(L, known, i))] else []
  }

  ghost predicate AllBetween(ratios: seq<real>) {
    forall i :: 0 <= i < |ratios| ==> Between(ratios[i])
  }

  lemma AllBetweenJoin(r: seq<real>, q: seq<real>)
    ensures AllBetween(r + q) <==> AllBetween(r) && AllBetween(q)
  {
    if AllBetween(r + q) {
      assert forall i :: 0 <= i < |r| ==> r[i] == (r + q)[i];
      assert forall i :: 0 <= i < |q| ==> q[i] == (r + q)[|r| + i];
    }
  }

  lemma QuietRatio(L: LineSystem, known: Partial, i: nat)
    requires i < |L.members| == |L.targets|
    ensures Quiet(L, known, i) <==> AllBetween(OneRatio(L, known, i))
  {
    if U(L, known, i) > 0 {
      ProperFraction(Rho(L, known, i), U(L, known, i));
      assert OneRatio(L, known, i)[0] == Ratio(Rho(L, known, i), U(L, known, i));
    }
  }

  /** All lines are quiet exactly when every ratio is strictly between zero and one. */
  lemma {:induction false} QuietRatios(L: LineSystem, known: Partial, k: nat)
    requires k <= |L.members| == |L.targets|
    ensures (forall i :: 0 <= i < k ==> Quiet(L, known, i)) <==> AllBetween(LineRatios(L, known, k))
  {
    if k > 0 {
      QuietRatios(L, known, k - 1);
      QuietRatio(L, known, k - 1);
      AllBetweenJoin(LineRatios(L, known, k - 1), OneRatio(L, known, k - 1));
    }
  }

  function SumOf(ratios: seq<real>): real {
    if ratios == [] then 0.0 else SumOf(ratios[..|ratios| - 1]) + ratios[|ratios| - 1]
  }

  datatype Spread = Spread(mean: real, low: real, high: real)

  /** The least, the greatest and the mean ratio; zeros if there is none. */
  ghost predicate IsSpread(d: Spread, ratios: seq<real>) {
    if ratios == [] then d == Spread(0.0, 0.0, 0.0)
    else
      && d.low in ratios && d.high in ratios
      && (forall i :: 0 <= i < |ratios| ==> d.low <= ratios[i] <= d.high)
      && d.mean == SumOf(ratios) / |ratios| as real
  }

  lemma SpreadBetween(d: Spread, ratios: seq<real>)
    requires IsSpread(d, ratios)
    ensures AllBetween(ratios) <==> ratios == [] || (0.0 < d.low && d.high < 1.0)
  {
    if AllBetween(ratios) && ratios != [] {
      var i :| 0 <= i < |ratios| && ratios[i] == d.low;
      var k :| 0 <= k < |ratios| && ratios[k] == d.high;
      assert Between(ratios[i]) && Between(ratios[k]);
    }
  }

  method AddUp(ratios: seq<real>) returns (sum: real)
    ensures sum == SumOf(ratios)
  {
    sum := 0.0;
    for i := 0 to |ratios|
      invariant sum == SumOf(ratios[..i])
    {
      assert ratios[..i + 1][..i] == ratios[..i];
      sum := sum + ratios[i];
    }
    assert ratios[..|ratios|] == ratios;
  }

  method SpreadOf(ratios: seq<real>) returns (d: Spread)
    ensures IsSpread(d, ratios)
  {
    if ratios == [] {
      return Spread(0.0, 0.0, 0.0);
    }
    var low, high := ratios[0], ratios[0];
    for i := 1 to |ratios|
      invariant low in ratios && high in ratios
      invariant forall j :: 0 <= j < i ==> low <= ratios[j] <= high
    {
      low := if ratios[i] < low then ratios[i] else low;
      high := if ratios[i] > high then ratios[i] else high;
    }
    var sum := AddUp(ratios);
    d := Spread(sum / |ratios| as real, low, high);
  }

  method CollectRatios(cs: ConstraintSystem) returns (ratios: seq<real>)
    requires cs.Valid()
    ensures ratios == LineRatios(cs.L, cs.known, |cs.L.members|)
  {
    ratios := [];
    for i := 0 to |cs.L.members|
      invariant ratios == LineRatios(cs.L, cs.known, i)
    {
      if cs.u[i] > 0 {
        ratios := ratios + [Ratio(cs.rho[i], cs.u[i])];
      }
    }
  }

  /** The analysis of a state where propagation has stopped: cells by their feasible values, and how tight the lines
      are. A state is closed exactly when no cell has an infeasible value, and exactly when every ratio is strictly
      between zero and one. */
  method AnalyzeIntervalTightening(cs: ConstraintSystem) returns (t: Tightening, d: Spread)
    requires cs.Valid()
    ensures t.free == |cs.free| && t.forced == t.prefInfeasible + t.altInfeasible
    ensures t.bothFeasible + t.forced + t.bothInfeasible == t.free
    ensures t.bothFeasible == |CellsWith(cs.L, cs.known, cs.L.n, true, true)|
    ensures t.prefInfeasible == |CellsWith(cs.L, cs.known, cs.L.n, false, true)|
    ensures t.altInfeasible == |CellsWith(cs.L, cs.known, cs.L.n, true, false)|
    ensures t.bothInfeasible == |CellsWith(cs.L, cs.known, cs.L.n, false, false)|
    ensures t.forced == 0 && t.bothInfeasible == 0 <==> Closed(cs.L, cs.known)
    ensures IsSpread(d, LineRatios(cs.L, cs.known, |cs.L.members|))
    ensures Closed(cs.L, cs.known) <==>
      LineRatios(cs.L, cs.known, |cs.L.members|) == [] || (0.0 < d.low && d.high < 1.0)
  {
    var both, pref, alt, neither := CountByFeasible(cs);
    t := Tightening(|cs.free|, pref, alt, neither, pref + alt, both);
    CellsWithAddUp(cs.L, cs.known, cs.free);
    NoneInfeasible(cs.L, cs.known);
    ClosedIffFeasible(cs.L, cs.known);
    var ratios := CollectRatios(cs);
    d := SpreadOf(ratios);
    QuietRatios(cs.L, cs.known, |cs.L.members|);
    SpreadBetween(d, ratios);
  }

  /** Counts the free cells by their feasible values. */
  method CountByFeasible(cs: ConstraintSystem) returns (both: nat, pref: nat, alt: nat, neither: nat)
    requires cs.Valid()
    ensures both == |CellsWith(cs.L, cs.known, cs.L.n, true, true)|
    ensures pref == |CellsWith(cs.L, cs.known, cs.L.n, false, true)|
    ensures alt == |CellsWith(cs.L, cs.known, cs.L.n, true, false)|
    ensures neither == |CellsWith(cs.L, cs.known, cs.L.n, false, false)|
  {
    both, pref, alt, neither := 0, 0, 0, 0;
    for j := 0 to cs.L.n
      invariant both == CountWith(cs.L, cs.known, j, true, true)
      invariant pref == CountWith(cs.L, cs.known, j, false, true)
      invariant alt == CountWith(cs.L, cs.known, j, true, false)
      invariant neither == CountWith(cs.L, cs.known, j, false, false)
    {
      if j in cs.free {
        var zero := CellFeasible(cs, j, false);
        var one := CellFeasible(cs, j, true);
        if !zero && !one {
          neither := neither + 1;
        } else if !zero {
          pref := pref + 1;
        } else if !one {
          alt := alt + 1;
        } else {
          both := both + 1;
        }
      }
    }
    CountIsSize(cs.L, cs.known, cs.L.n, true, true);
    CountIsSize(cs.L, cs.known, cs.L.n, false, true);
    CountIsSize(cs.L, cs.known, cs.L.n, true, false);
    CountIsSize(cs.L, cs.known, cs.L.n, false, false);
  }

  /** The three counts of cells with an infeasible value vanish together exactly when there is no such cell. */
  lemma NoneInfeasible(L: LineSystem, known: Partial)
    requires |L.members| == |L.targets|
    ensures |CellsWith(L, known, L.n, false, true)| + |CellsWith(L, known, L.n, true, false)|
              + |CellsWith(L, known, L.n, false, false)| == 0
        <==> forall j: nat :: j < L.n && j !in known ==> Feasible(L, known, j, false) && Feasible(L, known, j, true)
  {
    var pref, alt := CellsWith(L, known, L.n, false, true), CellsWith(L, known, L.n, true, false);
    var neither := CellsWith(L, known, L.n, false, false);
    if |pref| + |alt| + |neither| == 0 {
      assert pref == {} && alt == {} && neither == {};
      forall j: nat | j < L.n && j !in known
        ensures Feasible(L, known, j, false) && Feasible(L, known, j, true)
      {
        assert j !in pref && j !in alt && j !in neither;
      }
    } else {
      assert exists j :: j in pref || j in alt || j in neither;
    }
  }
}
