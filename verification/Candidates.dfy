/** Every way to complete a partly known row or column that agrees with its CRC, its line sum
    and the bounds of the lines through its free cells. */
module Candidates {
  import opened Arithmetic
  import opened Gf2
  import opened Elimination
  import opened SolutionSpace
  import opened Enumeration
  import opened Crc32
  import opened Lines
  import opened Propagation

  /** The positions below `k` whose cell is not fixed. */
  function FreePositions(pos: seq<nat>, known: Partial, k: nat): seq<nat>
    requires k <= |pos|
  {
    if k == 0 then []
    else FreePositions(pos, known, k - 1) + if pos[k - 1] in known then [] else [k - 1]
  }

  lemma {:induction false} FreePositionsSpec(pos: seq<nat>, known: Partial, k: nat)
    requires k <= |pos|
    ensures Increasing(FreePositions(pos, known, k))
    ensures forall p: nat :: p in FreePositions(pos, known, k) <==> p < k && pos[p] !in known
  {
    if k > 0 {
      FreePositionsSpec(pos, known, k - 1);
      var low := FreePositions(pos, known, k - 1);
      assert forall i :: 0 <= i < |low| ==> low[i] in low;
    }
  }

  lemma {:induction false} FreePositionsGrow(pos: seq<nat>, known: Partial, k: nat, m: nat)
    requires k <= m <= |pos|
    ensures |FreePositions(pos, known, k)| <= |FreePositions(pos, known, m)|
    ensures FreePositions(pos, known, m)[..|FreePositions(pos, known, k)|] == FreePositions(pos, known, k)
  {
    if k < m {
      FreePositionsGrow(pos, known, k, m - 1);
    }
  }

  /** The bits of the line with the free cells filled from `v` in order. */
  ghost function Filled(pos: seq<nat>, known: Partial, v: Vec): (x: Vec)
    requires |v| == |FreePositions(pos, known, |pos|)|
    ensures |x| == |pos|
  {
    seq(|pos|, p requires 0 <= p < |pos| =>
      if pos[p] in known then known[pos[p]] else v[FreeRank(pos, known, p)])
  }

  /** The place of free position `p` among the free positions. */
  ghost function FreeRank(pos: seq<nat>, known: Partial, p: nat): (t: nat)
    requires p < |pos| && pos[p] !in known
    ensures t < |FreePositions(pos, known, |pos|)| && FreePositions(pos, known, |pos|)[t] == p
  {
    FreePositionsGrow(pos, known, p, |pos|);
    FreePositionsGrow(pos, known, p + 1, |pos|);
    |FreePositions(pos, known, p)|
  }

  // ---- the equations restricted to the free cells ----

  /** What the fixed cells among the first `k` contribute to the product with `g`. */
  function KnownDot(g: Vec, pos: seq<nat>, known: Partial, k: nat): bool
    requires k <= |pos| == |g|
  {
    if k == 0 then false
    else KnownDot(g, pos, known, k - 1) != (pos[k - 1] in known && g[k - 1] && known[pos[k - 1]])
  }

  /** `g` at the free positions. */
  function Restrict(g: Vec, free: seq<nat>): (a: Vec)
    requires forall t :: 0 <= t < |free| ==> free[t] < |g|
    ensures |a| == |free| && forall t :: 0 <= t < |free| ==> a[t] == g[free[t]]
  {
    seq(|free|, t requires 0 <= t < |free| => g[free[t]])
  }

  lemma {:induction false} FillDotTo(g: Vec, pos: seq<nat>, known: Partial, v: Vec, k: nat)
    requires k <= |pos| == |g| && |v| == |FreePositions(pos, known, |pos|)|
    requires |FreePositions(pos, known, k)| <= |v|
    requires forall t :: 0 <= t < |v| ==> FreePositions(pos, known, |pos|)[t] < |g|
    ensures DotTo(g, Filled(pos, known, v), k)
      == (KnownDot(g, pos, known, k)
          != DotTo(Restrict(g, FreePositions(pos, known, |pos|)), v, |FreePositions(pos, known, k)|))
  {
    if k > 0 {
      FreePositionsGrow(pos, known, k - 1, |pos|);
      FillDotTo(g, pos, known, v, k - 1);
      if pos[k - 1] !in known {
        var t := FreeRank(pos, known, k - 1);
      }
    }
  }

  /** An equation on the line is an equation on its free cells with the fixed part moved to the right. */
  lemma FillDot(g: Vec, pos: seq<nat>, known: Partial, v: Vec)
    requires |pos| == |g| && |v| == |FreePositions(pos, known, |pos|)|
    requires forall t :: 0 <= t < |v| ==> FreePositions(pos, known, |pos|)[t] < |g|
    ensures Dot(g, Filled(pos, known, v))
      == (KnownDot(g, pos, known, |pos|) != Dot(Restrict(g, FreePositions(pos, known, |pos|)), v))
  {
    FillDotTo(g, pos, known, v, |pos|);
  }

  lemma {:induction false} OnesDotTo(v: Vec, k: nat)
    requires k <= |v|
    ensures DotTo(seq(|v|, _ => true), v, k) == (WeightTo(v, k) % 2 == 1)
  {
    if k > 0 {
      OnesDotTo(v, k - 1);
    }
  }

  // ---- the system of one line ----

  /** The stored check value `h` of a line, with the probed generator and constant. */
  datatype Code = Code(gen: seq<Vec>, c0: Vec, h: Vec)

  ghost predicate IsCode(crc: Vec -> Vec, code: Code, s: nat) {
    && AffineOn(crc, s) && IsGenerator(crc, code.gen, s)
    && code.c0 == crc(Zero(s)) && |code.h| == 32
  }

  method KnownPart(g: Vec, pos: seq<nat>, known: Partial) returns (t: bool)
    requires |pos| == |g|
    ensures t == KnownDot(g, pos, known, |pos|)
  {
    t := false;
    for p := 0 to |pos|
      invariant t == KnownDot(g, pos, known, p)
    {
      if pos[p] in known {
        t := t != (g[p] && known[pos[p]]);
      }
    }
  }

  /** Equation `k` of the check value, restricted to the free cells. */
  ghost predicate IsEquation(a: Vec, rhs: bool, code: Code, pos: seq<nat>, known: Partial, k: nat)
    requires |code.gen| == |code.h| == |code.c0| == 32 && k < 32
  {
    var g, free := code.gen[k], FreePositions(pos, known, |pos|);
    && |g| == |pos| && (forall t :: 0 <= t < |free| ==> free[t] < |g|)
    && a == Restrict(g, free)
    && rhs == ((code.h[k] != code.c0[k]) != KnownDot(g, pos, known, |pos|))
  }

  /** Rows 0 to 31 are the CRC equations on the free cells, row 32 the parity of the sum. */
  ghost predicate IsLineSystem(rows: seq<Vec>, rhs: Vec, code: Code, pos: seq<nat>, known: Partial, rho: int)
    requires |code.gen| == |code.h| == |code.c0| == 32
  {
    var free := FreePositions(pos, known, |pos|);
    && Shape(rows, rhs, |free|) && |rows| == 33
    && (forall k :: 0 <= k < 32 ==> IsEquation(rows[k], rhs[k], code, pos, known, k))
    && rows[32] == seq(|free|, _ => true) && rhs[32] == (rho % 2 == 1)
  }

  method BuildLineSystem(code: Code, pos: seq<nat>, known: Partial, free: seq<nat>, rho: int)
      returns (G: array<Vec>, b: array<bool>)
    requires |code.gen| == |code.h| == |code.c0| == 32 && forall k :: 0 <= k < 32 ==> |code.gen[k]| == |pos|
    requires free == FreePositions(pos, known, |pos|)
    ensures fresh(G) && fresh(b)
    ensures IsLineSystem(G[..], b[..], code, pos, known, rho)
  {
    FreePositionsSpec(pos, known, |pos|);
    assert forall t :: 0 <= t < |free| ==> free[t] in free;
    G := new Vec[33](_ => Zero(|free|));
    b := new bool[33](_ => false);
    for k := 0 to 32
      invariant forall m :: 0 <= m < k ==> IsEquation(G[m], b[m], code, pos, known, m)
    {
      var t := KnownPart(code.gen[k], pos, known);
      G[k] := Restrict(code.gen[k], free);
      b[k] := (code.h[k] != code.c0[k]) != t;
    }
    G[32] := seq(|free|, _ => true);
    b[32] := rho % 2 == 1;
    forall k | 0 <= k < 33 ensures |G[..][k]| == |free| {
      assert k < 32 ==> IsEquation(G[k], b[k], code, pos, known, k);
    }
  }

  /** A filling solves the system exactly when the line's check value and the parity of its sum are right. */
  lemma LineSystemMeaning(crc: Vec -> Vec, rows: seq<Vec>, rhs: Vec, code: Code, pos: seq<nat>, known: Partial,
                          rho: int, v: Vec)
    requires IsCode(crc, code, |pos|) && IsLineSystem(rows, rhs, code, pos, known, rho)
    requires |v| == |FreePositions(pos, known, |pos|)|
    ensures Sat(rows, rhs, v) <==> crc(Filled(pos, known, v)) == code.h && Weight(v) % 2 == rho % 2
  {
    var x := Filled(pos, known, v);
    EquationsIffEqual(crc, code.gen, x, code.h);
    forall k | 0 <= k < 32
      ensures Dot(rows[k], v) == rhs[k] <==> Dot(code.gen[k], x) == (code.h[k] != code.c0[k])
    {
      assert IsEquation(rows[k], rhs[k], code, pos, known, k);
      FillDot(code.gen[k], pos, known, v);
    }
    OnesDotTo(v, |v|);
  }

  // ---- candidates ----

  /** No line through cell `j` rules out the value `v` by its bounds. */
  ghost predicate MayBe(L: LineSystem, known: Partial, j: nat, v: bool)
    requires |L.members| == |L.targets|
  {
    forall i :: 0 <= i < |L.members| && j in L.members[i] ==>
      Rho(L, known, i) - BitToInt(v) <= U(L, known, i) - 1 && (v ==> Rho(L, known, i) >= 1)
  }

  /** `v` fills the free cells of line `i` with the right check value, the right sum and no bound broken. */
  ghost predicate IsCompletion(crc: Vec -> Vec, h: Vec, L: LineSystem, known: Partial, i: nat, v: Vec)
    requires |L.members| == |L.targets| && i < |L.members|
  {
    var pos := L.members[i];
    var free := FreePositions(pos, known, |pos|);
    && |v| == |free| && crc(Filled(pos, known, v)) == h && Weight(v) == Rho(L, known, i)
    && forall t :: 0 <= t < |free| && free[t] < |pos| ==> MayBe(L, known, pos[free[t]], v[t])
  }

  datatype CandidateList = Intractable | Candidates(free: seq<nat>, values: seq<Vec>)

  method CellMayBe(cs: ConstraintSystem, j: nat) returns (zero: bool, one: bool)
    requires cs.Valid() && j < cs.L.n
    ensures zero == MayBe(cs.L, cs.known, j, false) && one == MayBe(cs.L, cs.known, j, true)
  {
    zero, one := true, true;
    var ls := cs.cellLines[j];
    assert LinesThrough(cs.L, j, ls);
    for k := 0 to |ls|
      invariant zero == forall m :: 0 <= m < k ==> Rho(cs.L, cs.known, ls[m]) <= U(cs.L, cs.known, ls[m]) - 1
      invariant one == forall m :: 0 <= m < k ==>
        1 <= Rho(cs.L, cs.known, ls[m]) && Rho(cs.L, cs.known, ls[m]) - 1 <= U(cs.L, cs.known, ls[m]) - 1
    {
      var rho, u := cs.rho[ls[k]], cs.u[ls[k]];
      if rho > u - 1 {
        zero := false;
      }
      if rho - 1 < 0 || rho - 1 > u - 1 {
        one := false;
      }
    }
    assert forall i :: 0 <= i < |cs.L.members| && j in cs.L.members[i] ==> i in ls;
    assert forall m :: 0 <= m < |ls| ==> ls[m] in ls;
  }

  /** Keeps the vectors of weight `rho` that respect the bounds, in order. */
  method Filter(all: seq<Vec>, rho: int, canBe0: seq<bool>, canBe1: seq<bool>) returns (kept: seq<Vec>)
    requires |canBe0| == |canBe1| && forall k :: 0 <= k < |all| ==> |all[k]| == |canBe0|
    requires AllDistinct(all)
    ensures AllDistinct(kept)
    ensures forall v :: v in kept <==> v in all && Weight(v) == rho && Respects(v, canBe0, canBe1)
  {
    kept := [];
    for k := 0 to |all|
      invariant forall v :: v in kept <==> v in all[..k] && Weight(v) == rho && Respects(v, canBe0, canBe1)
      invariant AllDistinct(kept)
    {
      assert all[..k + 1] == all[..k] + [all[k]];
      assert all[k] !in all[..k];
      var ok := true;
      for t := 0 to |canBe0|
        invariant ok == forall m :: 0 <= m < t ==> if all[k][m] then canBe1[m] else canBe0[m]
      {
        if (!canBe0[t] && !all[k][t]) || (!canBe1[t] && all[k][t]) {
          ok := false;
        }
      }
      if Weight(all[k]) == rho && ok {
        assert all[k] !in kept;
        kept := kept + [all[k]];
      }
    }
    assert all[..|all|] == all;
  }

  ghost predicate Respects(v: Vec, canBe0: seq<bool>, canBe1: seq<bool>) {
    |v| == |canBe0| == |canBe1| && forall t :: 0 <= t < |v| ==> if v[t] then canBe1[t] else canBe0[t]
  }

  /** Which values the bounds leave each free cell of a line. */
  method CellBounds(cs: ConstraintSystem, pos: seq<nat>, free: seq<nat>) returns (canBe0: seq<bool>, canBe1: seq<bool>)
    requires cs.Valid() && forall p :: 0 <= p < |pos| ==> pos[p] < cs.L.n
    requires forall t :: 0 <= t < |free| ==> free[t] < |pos|
    ensures |canBe0| == |canBe1| == |free|
    ensures forall t :: 0 <= t < |free| ==>
      && canBe0[t] == MayBe(cs.L, cs.known, pos[free[t]], false)
      && canBe1[t] == MayBe(cs.L, cs.known, pos[free[t]], true)
  {
    canBe0, canBe1 := [], [];
    for t := 0 to |free|
      invariant |canBe0| == |canBe1| == t
      invariant forall m :: 0 <= m < t ==>
        && canBe0[m] == MayBe(cs.L, cs.known, pos[free[m]], false)
        && canBe1[m] == MayBe(cs.L, cs.known, pos[free[m]], true)
    {
      var zero, one := CellMayBe(cs, pos[free[t]]);
      canBe0, canBe1 := canBe0 + [zero], canBe1 + [one];
    }
  }

  /** Looks below the rank for a zero row with a one on the right. */
  method HasContradiction(G: array<Vec>, b: array<bool>, rank: nat, n: nat) returns (bad: bool)
    requires rank <= G.Length == b.Length
    requires forall k :: rank <= k < G.Length ==> |G[k]| == n && LeadingZeros(G[k], n)
    ensures bad <==> !NoContradiction(b[..], rank)
  {
    for row := rank to G.Length
      invariant forall k :: rank <= k < row ==> !b[k]
    {
      assert LeadingZeros(G[row], n);
      assert G[row] == Zero(n);
      if G[row] == Zero(n) && b[row] {
        return true;
      }
    }
    return false;
  }

  ghost predicate AllDistinct(s: seq<Vec>) {
    forall k, l :: 0 <= k < l < |s| ==> s[k] != s[l]
  }

  /** `all` lists every solution once. */
  ghost predicate IsSolutionList(all: seq<Vec>, G: seq<Vec>, b: Vec, n: nat)
    requires Shape(G, b, n)
  {
    && AllDistinct(all)
    && (forall k :: 0 <= k < |all| ==> |all[k]| == n)
    && (forall v: Vec :: |v| == n ==> (v in all <==> Sat(G, b, v)))
  }

  /** Elimination leaves more than `maxFree` columns free and, where that is checked first, no row reads 0 = 1. */
  ghost predicate Wide(G: seq<Vec>, b: Vec, n: nat, maxFree: nat, checked: bool)
    requires Shape(G, b, n)
  {
    var s := Eliminated(G, b, n, n);
    (checked ==> NoContradiction(s.b, |s.pivots|)) && |FreeCols(s.pivots, n)| > maxFree
  }

  /** The equations of the line are wide. */
  ghost predicate WideLine(L: LineSystem, known: Partial, i: nat, code: Code, maxFree: nat, checked: bool)
    requires |L.members| == |L.targets| && i < |L.members| && |code.gen| == |code.h| == |code.c0| == 32
  {
    var pos := L.members[i];
    exists rows: seq<Vec>, rhs: Vec ::
      IsLineSystem(rows, rhs, code, pos, known, Rho(L, known, i))
      && Wide(rows, rhs, |FreePositions(pos, known, |pos|)|, maxFree, checked)
  }

  /** The line has more than `max` completions. */
  ghost predicate Crowded(crc: Vec -> Vec, h: Vec, L: LineSystem, known: Partial, i: nat, max: nat)
    requires |L.members| == |L.targets| && i < |L.members|
  {
    exists list: seq<Vec> ::
      AllDistinct(list) && |list| > max && forall v :: v in list ==> IsCompletion(crc, h, L, known, i, v)
  }

  /** All solutions of a system by elimination and counting; a row that reads 0 = 1 means there are none.
      Gives up with more than `maxFree` free columns. */
  method SolveAll(G: array<Vec>, b: array<bool>, n: nat, maxFree: nat) returns (tractable: bool, all: seq<Vec>)
    requires Shape(G[..], b[..], n)
    modifies G, b
    ensures tractable ==> IsSolutionList(all, old(G[..]), old(b[..]), n)
    ensures tractable <==> !Wide(old(G[..]), old(b[..]), n, maxFree, true)
  {
    ghost var G0, b0 := G[..], b[..];
    var pivots := GaussElim(G, b, n);
    ghost var H, c := G[..], b[..];
    forall k | |pivots| <= k < G.Length ensures |G[k]| == n && LeadingZeros(G[k], n) {
      assert LeadingZeros(H[k], n);
    }
    var bad := HasContradiction(G, b, |pivots|, n);
    if bad {
      forall v: Vec | |v| == n ensures !Sat(G0, b0, v) {
        SolvesIffComplete(H, c, pivots, v);
      }
      return true, [];
    }
    var frees := FreeCols(pivots, n);
    if |frees| > maxFree {
      return false, [];
    }
    all := Enumerate(G[..], b[..], pivots, frees, n);
    tractable := true;
  }

  /** A line has one system of equations. */
  lemma LineSystemUnique(rows: seq<Vec>, rhs: Vec, rows': seq<Vec>, rhs': Vec, code: Code, pos: seq<nat>,
                         known: Partial, rho: int)
    requires |code.gen| == |code.h| == |code.c0| == 32
    requires IsLineSystem(rows, rhs, code, pos, known, rho) && IsLineSystem(rows', rhs', code, pos, known, rho)
    ensures rows == rows' && rhs == rhs'
  {
    forall k | 0 <= k < 33 ensures rows[k] == rows'[k] && rhs[k] == rhs'[k] {
      if k < 32 {
        assert IsEquation(rows[k], rhs[k], code, pos, known, k) && IsEquation(rows'[k], rhs'[k], code, pos, known, k);
      }
    }
  }

  lemma {:induction false} FreePositionsFew(pos: seq<nat>, known: Partial, k: nat)
    requires k <= |pos|
    ensures |FreePositions(pos, known, k)| <= k
  {
    if k > 0 {
      FreePositionsFew(pos, known, k - 1);
    }
  }

  /** A line no longer than the limit is never wide. */
  lemma ShortIsNotWide(L: LineSystem, known: Partial, i: nat, code: Code, maxFree: nat, checked: bool)
    requires |L.members| == |L.targets| && i < |L.members| && |code.gen| == |code.h| == |code.c0| == 32
    requires |L.members[i]| <= maxFree
    ensures !WideLine(L, known, i, code, maxFree, checked)
  {
    var pos := L.members[i];
    var n := |FreePositions(pos, known, |pos|)|;
    FreePositionsFew(pos, known, |pos|);
    forall rows: seq<Vec>, rhs: Vec | IsLineSystem(rows, rhs, code, pos, known, Rho(L, known, i))
      ensures !Wide(rows, rhs, n, maxFree, checked)
    {
      EliminatedIsReduced(rows, rhs, n, n);
      FreeColsCount(Eliminated(rows, rhs, n, n).pivots, n);
    }
  }

  ghost function Values(list: seq<Vec>, k: nat): set<nat>
    requires k <= |list|
  {
    if k == 0 then {} else Values(list, k - 1) + {ValueOf(list[k - 1])}
  }

  lemma {:induction false} ValuesHas(list: seq<Vec>, k: nat, u: nat) returns (m: nat)
    requires k <= |list| && u in Values(list, k)
    ensures m < k && ValueOf(list[m]) == u
  {
    if u == ValueOf(list[k - 1]) {
      m := k - 1;
    } else {
      m := ValuesHas(list, k - 1, u);
    }
  }

  lemma {:induction false} ValuesSize(list: seq<Vec>, n: nat, k: nat)
    requires k <= |list| && AllDistinct(list) && forall m :: 0 <= m < |list| ==> |list[m]| == n
    ensures |Values(list, k)| == k
  {
    if k > 0 {
      ValuesSize(list, n, k - 1);
      if ValueOf(list[k - 1]) in Values(list, k - 1) {
        var m := ValuesHas(list, k - 1, ValueOf(list[k - 1]));
        BitsOfValue(list[m]);
        BitsOfValue(list[k - 1]);
      }
    }
  }

  /** There are at most 2^n distinct vectors of length n. */
  lemma DistinctCount(list: seq<Vec>, n: nat)
    requires AllDistinct(list) && forall m :: 0 <= m < |list| ==> |list[m]| == n
    ensures |list| <= Pow2(n)
  {
    ValuesSize(list, n, |list|);
    forall u | u in Values(list, |list|) ensures u in Cells(Pow2(n)) {
      var m := ValuesHas(list, |list|, u);
      ValueBounded(list[m]);
    }
    SubsetSize(Values(list, |list|), Cells(Pow2(n)));
    CellsSize(Pow2(n));
  }

  lemma {:induction false} Pow2Grows(m: nat, n: nat)
    requires m <= n
    ensures Pow2(m) <= Pow2(n)
  {
    if m < n {
      Pow2Grows(m, n - 1);
    }
  }

  /** A short line has few completions. */
  lemma ShortIsNotCrowded(crc: Vec -> Vec, h: Vec, L: LineSystem, known: Partial, i: nat, max: nat)
    requires |L.members| == |L.targets| && i < |L.members| && Pow2(|L.members[i]|) <= max
    ensures !Crowded(crc, h, L, known, i, max)
  {
    var pos := L.members[i];
    var n := |FreePositions(pos, known, |pos|)|;
    FreePositionsFew(pos, known, |pos|);
    Pow2Grows(n, |pos|);
    forall list: seq<Vec> | AllDistinct(list) && forall v :: v in list ==> IsCompletion(crc, h, L, known, i, v)
      ensures |list| <= max
    {
      forall m | 0 <= m < |list| ensures |list[m]| == n {
        assert list[m] in list;
      }
      DistinctCount(list, n);
    }
  }

  /** The line has free cells, and its equations are wide or its completions too many. */
  ghost predicate Beyond(crc: Vec -> Vec, L: LineSystem, known: Partial, i: nat, code: Code, maxFree: nat,
                         maxCandidates: nat)
    requires |L.members| == |L.targets| && i < |L.members| && |code.gen| == |code.h| == |code.c0| == 32
  {
    && FreePositions(L.members[i], known, |L.members[i]|) != []
    && (WideLine(L, known, i, code, maxFree, true) || Crowded(crc, code.h, L, known, i, maxCandidates))
  }

  /** The candidates of line `i`: none is missing, none is wrong, none is listed twice. */
  method GenerateCandidates(ghost crc: Vec -> Vec, cs: ConstraintSystem, i: nat, code: Code,
                            maxFree: nat, maxCandidates: nat) returns (r: CandidateList)
    requires cs.Valid() && i < |cs.L.members| && IsCode(crc, code, |cs.L.members[i]|)
    ensures r.Candidates? ==> r.free == FreePositions(cs.L.members[i], cs.known, |cs.L.members[i]|)
    ensures r.Candidates? && r.free == [] ==> r.values == []
    ensures r.Candidates? && r.free != [] ==>
      && |r.values| <= maxCandidates
      && AllDistinct(r.values)
      && (forall v: Vec :: v in r.values <==> IsCompletion(crc, code.h, cs.L, cs.known, i, v))
    ensures r.Intractable? ==> Beyond(crc, cs.L, cs.known, i, code, maxFree, maxCandidates)
  {
    var pos := cs.L.members[i];
    var free := FreePositions(pos, cs.known, |pos|);
    if free == [] {
      return Candidates(free, []);
    }
    FreePositionsSpec(pos, cs.known, |pos|);
    assert forall t :: 0 <= t < |free| ==> free[t] in free;
    var rho := cs.rho[i];
    var G, b := BuildLineSystem(code, pos, cs.known, free, rho);
    ghost var rows, rhs := G[..], b[..];
    var tractable, all := SolveAll(G, b, |free|, maxFree);
    if !tractable {
      return Intractable;
    }
    var canBe0, canBe1 := CellBounds(cs, pos, free);
    var kept := Filter(all, rho, canBe0, canBe1);
    forall v: Vec ensures v in kept <==> IsCompletion(crc, code.h, cs.L, cs.known, i, v) {
      if |v| == |free| {
        LineSystemMeaning(crc, rows, rhs, code, pos, cs.known, rho, v);
        RespectsIffMayBe(cs.L, cs.known, pos, free, v, canBe0, canBe1);
      }
    }
    if |kept| > maxCandidates {
      return Intractable;
    }
    r := Candidates(free, kept);
  }

  lemma RespectsIffMayBe(L: LineSystem, known: Partial, pos: seq<nat>, free: seq<nat>, v: Vec,
                         canBe0: seq<bool>, canBe1: seq<bool>)
    requires |L.members| == |L.targets| && |canBe0| == |canBe1| == |free| == |v|
    requires forall t :: 0 <= t < |free| ==> free[t] < |pos|
    requires forall t :: 0 <= t < |free| ==> canBe0[t] == MayBe(L, known, pos[free[t]], false)
    requires forall t :: 0 <= t < |free| ==> canBe1[t] == MayBe(L, known, pos[free[t]], true)
    ensures Respects(v, canBe0, canBe1) <==>
      forall t :: 0 <= t < |free| ==> MayBe(L, known, pos[free[t]], v[t])
  {
    if forall t :: 0 <= t < |free| ==> MayBe(L, known, pos[free[t]], v[t]) {
      forall t | 0 <= t < |v| ensures if v[t] then canBe1[t] else canBe0[t] {
        assert MayBe(L, known, pos[free[t]], v[t]);
      }
    }
    if Respects(v, canBe0, canBe1) {
      forall t | 0 <= t < |free| ensures MayBe(L, known, pos[free[t]], v[t]) {
        assert if v[t] then canBe1[t] else canBe0[t];
      }
    }
  }
}
