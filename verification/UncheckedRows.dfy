/** Row candidates when a row that reads 0 = 1 is not looked for: what the list holds then, when it is exact, and
    that it can be wrong. */
module UncheckedRows {
  import opened Gf2
  import opened Elimination
  import opened SolutionSpace
  import opened Enumeration
  import opened Crc32
  import opened Lines
  import opened Propagation
  import opened Candidates

  // ---- the equations ----

  /** The rows below the rank are zero, so without a contradiction the pivot rows say everything. */
  lemma PivotRowsSuffice(G: seq<Vec>, b: Vec, pivots: seq<nat>, n: nat, v: Vec)
    requires Shape(G, b, n) && Reduced(G, pivots, n) && |v| == n
    ensures Sat(G, b, v) <==> Sat(G[..|pivots|], b[..|pivots|], v) && NoContradiction(b, |pivots|)
  {
    forall r | |pivots| <= r < |G| ensures !Dot(G[r], v) {
      assert LeadingZeros(G[r], n);
      DotZeroTo(G[r], v, n);
    }
    forall r | 0 <= r < |pivots| ensures G[..|pivots|][r] == G[r] && b[..|pivots|][r] == b[r] {
    }
    if Sat(G, b, v) {
      forall r | |pivots| <= r < |b| ensures !b[r] {
        assert Dot(G[r], v) == b[r];
      }
    }
    if Sat(G[..|pivots|], b[..|pivots|], v) && NoContradiction(b, |pivots|) {
      forall r | 0 <= r < |G| ensures Dot(G[r], v) == b[r] {
        if r < |pivots| {
          assert Dot(G[..|pivots|][r], v) == b[..|pivots|][r];
        }
      }
    }
  }

  lemma PivotRowsReduced(G: seq<Vec>, b: Vec, pivots: seq<nat>, n: nat)
    requires Shape(G, b, n) && Reduced(G, pivots, n)
    ensures Shape(G[..|pivots|], b[..|pivots|], n) && Reduced(G[..|pivots|], pivots, n)
    ensures NoContradiction(b[..|pivots|], |pivots|)
  {
    var H := G[..|pivots|];
    assert forall i :: 0 <= i < |H| ==> H[i] == G[i];
    forall i | 0 <= i < |pivots| ensures UnitColumn(H, pivots[i], i) {
      assert UnitColumn(G, pivots[i], i);
    }
  }

  /** The vector solves the pivot rows that elimination leaves. */
  ghost predicate SolvesPivotRows(G: seq<Vec>, b: Vec, n: nat, v: Vec)
    requires Shape(G, b, n)
  {
    var s := Eliminated(G, b, n, n);
    |v| == n && Sat(s.G[..|s.pivots|], s.b[..|s.pivots|], v)
  }

  ghost predicate Solvable(G: seq<Vec>, b: Vec, n: nat)
    requires Shape(G, b, n)
  {
    exists v: Vec :: |v| == n && Sat(G, b, v)
  }

  /** A vector solves the system exactly when it solves the pivot rows and no other row reads 0 = 1. */
  lemma SolvesIffPivotRows(G: seq<Vec>, b: Vec, n: nat, v: Vec)
    requires Shape(G, b, n) && |v| == n
    ensures Sat(G, b, v) <==>
      SolvesPivotRows(G, b, n, v) && NoContradiction(Eliminated(G, b, n, n).b, |Eliminated(G, b, n, n).pivots|)
  {
    EliminatedIsReduced(G, b, n, n);
    var s := Eliminated(G, b, n, n);
    PivotRowsSuffice(s.G, s.b, s.pivots, n, v);
  }

  /** The zero-row check decides whether the system can be solved. */
  lemma SolvableIffNoContradiction(G: seq<Vec>, b: Vec, n: nat)
    requires Shape(G, b, n)
    ensures Solvable(G, b, n) <==> NoContradiction(Eliminated(G, b, n, n).b, |Eliminated(G, b, n, n).pivots|)
  {
    EliminatedIsReduced(G, b, n, n);
    var s := Eliminated(G, b, n, n);
    if NoContradiction(s.b, |s.pivots|) {
      CompleteSolves(s.G, s.b, s.pivots, Zero(n));
      var v := Complete(s.G, s.b, s.pivots, Zero(n));
      assert |v| == n && Sat(G, b, v);
    }
    if Solvable(G, b, n) {
      var v: Vec :| |v| == n && Sat(G, b, v);
      SolvesIffPivotRows(G, b, n, v);
    }
  }

  /** Lists the solutions of the pivot rows, each once, unless there are too many free columns. */
  method SolveUnchecked(G: array<Vec>, b: array<bool>, n: nat, maxFree: nat) returns (tractable: bool, all: seq<Vec>)
    requires Shape(G[..], b[..], n)
    modifies G, b
    ensures tractable <==> !Wide(old(G[..]), old(b[..]), n, maxFree, false)
    ensures tractable ==> AllDistinct(all) && forall k :: 0 <= k < |all| ==> |all[k]| == n
    ensures tractable ==> forall v: Vec :: |v| == n ==> (v in all <==> SolvesPivotRows(old(G[..]), old(b[..]), n, v))
  {
    all := [];
    var pivots := GaussElim(G, b, n);
    ghost var H, c := G[..], b[..];
    var frees := FreeCols(pivots, n);
    if |frees| > maxFree {
      return false, [];
    }
    PivotRowsReduced(H, c, pivots, n);
    assert G[..|pivots|] == H[..|pivots|] && b[..|pivots|] == c[..|pivots|];
    all := Enumerate(G[..|pivots|], b[..|pivots|], pivots, frees, n);
    tractable := true;
  }

  // ---- the list of a row ----

  /** The vector passes everything that the row's list is filtered by. */
  ghost predicate ListedBy(rows: seq<Vec>, rhs: Vec, L: LineSystem, known: Partial, r: nat, v: Vec)
    requires |L.members| == |L.targets| && r < |L.members|
    requires Shape(rows, rhs, |FreePositions(L.members[r], known, |L.members[r]|)|)
  {
    var pos := L.members[r];
    var free := FreePositions(pos, known, |pos|);
    && SolvesPivotRows(rows, rhs, |free|, v) && Weight(v) == Rho(L, known, r)
    && forall t :: 0 <= t < |free| && free[t] < |pos| ==> MayBe(L, known, pos[free[t]], v[t])
  }

  ghost predicate Listed(L: LineSystem, known: Partial, r: nat, code: Code, v: Vec)
    requires |L.members| == |L.targets| && r < |L.members| && |code.gen| == |code.h| == |code.c0| == 32
  {
    exists rows: seq<Vec>, rhs: Vec ::
      IsLineSystem(rows, rhs, code, L.members[r], known, Rho(L, known, r)) && ListedBy(rows, rhs, L, known, r, v)
  }

  /** The 33 equations of the row have a solution. */
  ghost predicate RowSolvable(L: LineSystem, known: Partial, r: nat, code: Code)
    requires |L.members| == |L.targets| && r < |L.members| && |code.gen| == |code.h| == |code.c0| == 32
  {
    exists rows: seq<Vec>, rhs: Vec ::
      IsLineSystem(rows, rhs, code, L.members[r], known, Rho(L, known, r))
      && Solvable(rows, rhs, |FreePositions(L.members[r], known, |L.members[r]|)|)
  }

  ghost predicate IsRowList(list: seq<Vec>, L: LineSystem, known: Partial, r: nat, code: Code)
    requires |L.members| == |L.targets| && r < |L.members| && |code.gen| == |code.h| == |code.c0| == 32
  {
    AllDistinct(list) && forall v: Vec :: v in list <==> Listed(L, known, r, code, v)
  }

  /** The list of a row with free cells; given up only for too many free columns. */
  method RowCandidates(ghost crc: Vec -> Vec, cs: ConstraintSystem, r: nat, code: Code, maxFree: nat)
      returns (list: CandidateList)
    requires cs.Valid() && r < |cs.L.members| && IsCode(crc, code, |cs.L.members[r]|)
    ensures list.Intractable? <==>
      || FreePositions(cs.L.members[r], cs.known, |cs.L.members[r]|) == []
      || WideLine(cs.L, cs.known, r, code, maxFree, false)
    ensures list.Candidates? ==> IsRowList(list.values, cs.L, cs.known, r, code)
  {
    var pos := cs.L.members[r];
    var free := FreePositions(pos, cs.known, |pos|);
    if free == [] {
      return Intractable;
    }
    FreePositionsSpec(pos, cs.known, |pos|);
    assert forall t :: 0 <= t < |free| ==> free[t] in free;
    var rho := cs.rho[r];
    var G, b := BuildLineSystem(code, pos, cs.known, free, rho);
    ghost var rows, rhs := G[..], b[..];
    var tractable, all := SolveUnchecked(G, b, |free|, maxFree);
    OneSystem(cs.L, cs.known, r, code, rows, rhs, maxFree);
    if !tractable {
      return Intractable;
    }
    var canBe0, canBe1 := CellBounds(cs, pos, free);
    var kept := Filter(all, rho, canBe0, canBe1);
    forall v: Vec ensures v in kept <==> Listed(cs.L, cs.known, r, code, v) {
      if |v| == |free| {
        RespectsIffMayBe(cs.L, cs.known, pos, free, v, canBe0, canBe1);
      }
    }
    list := Candidates(free, kept);
  }

  /** Whatever holds of one system of the row's equations holds of the row. */
  lemma OneSystem(L: LineSystem, known: Partial, r: nat, code: Code, rows: seq<Vec>, rhs: Vec, maxFree: nat)
    requires |L.members| == |L.targets| && r < |L.members| && |code.gen| == |code.h| == |code.c0| == 32
    requires IsLineSystem(rows, rhs, code, L.members[r], known, Rho(L, known, r))
    ensures var n := |FreePositions(L.members[r], known, |L.members[r]|)|;
      && (WideLine(L, known, r, code, maxFree, false) <==> Wide(rows, rhs, n, maxFree, false))
      && (RowSolvable(L, known, r, code) <==> Solvable(rows, rhs, n))
    ensures forall v: Vec :: Listed(L, known, r, code, v) <==> ListedBy(rows, rhs, L, known, r, v)
  {
    forall rows': seq<Vec>, rhs': Vec | IsLineSystem(rows', rhs', code, L.members[r], known, Rho(L, known, r))
      ensures rows' == rows && rhs' == rhs
    {
      LineSystemUnique(rows, rhs, rows', rhs', code, L.members[r], known, Rho(L, known, r));
    }
  }

  // ---- when the list is exact ----

  lemma RowSystemExists(L: LineSystem, known: Partial, r: nat, code: Code) returns (rows: seq<Vec>, rhs: Vec)
    requires |L.members| == |L.targets| && r < |L.members|
    requires |code.gen| == |code.h| == |code.c0| == 32 && forall k :: 0 <= k < 32 ==> |code.gen[k]| == |L.members[r]|
    ensures IsLineSystem(rows, rhs, code, L.members[r], known, Rho(L, known, r))
  {
    var pos := L.members[r];
    var free := FreePositions(pos, known, |pos|);
    FreePositionsSpec(pos, known, |pos|);
    assert forall t :: 0 <= t < |free| ==> free[t] in free;
    rows := seq(33, k requires 0 <= k < 33 => if k < 32 then Restrict(code.gen[k], free) else seq(|free|, _ => true));
    rhs := seq(33, k requires 0 <= k < 33 =>
      if k < 32 then (code.h[k] != code.c0[k]) != KnownDot(code.gen[k], pos, known, |pos|)
      else Rho(L, known, r) % 2 == 1);
    forall k | 0 <= k < 32 ensures IsEquation(rows[k], rhs[k], code, pos, known, k) {
    }
  }

  /** Every completion is listed; with solvable equations nothing else is, otherwise there is no completion. */
  lemma ListedIffCompletion(crc: Vec -> Vec, L: LineSystem, known: Partial, r: nat, code: Code, v: Vec)
    requires L.Wf() && r < |L.members| && IsCode(crc, code, |L.members[r]|)
    ensures IsCompletion(crc, code.h, L, known, r, v) <==>
      Listed(L, known, r, code, v) && RowSolvable(L, known, r, code)
  {
    var pos := L.members[r];
    var free := FreePositions(pos, known, |pos|);
    var rows, rhs := RowSystemExists(L, known, r, code);
    OneSystem(L, known, r, code, rows, rhs, 0);
    SolvableIffNoContradiction(rows, rhs, |free|);
    if |v| == |free| {
      LineSystemMeaning(crc, rows, rhs, code, pos, known, Rho(L, known, r), v);
      SolvesIffPivotRows(rows, rhs, |free|, v);
    }
  }

  /** The list of a row is exact if and only if the row's equations can be solved or nothing is listed. */
  lemma ListIsExactIff(crc: Vec -> Vec, L: LineSystem, known: Partial, r: nat, code: Code)
    requires L.Wf() && r < |L.members| && IsCode(crc, code, |L.members[r]|)
    ensures (forall v: Vec :: Listed(L, known, r, code, v) <==> IsCompletion(crc, code.h, L, known, r, v)) <==>
      (RowSolvable(L, known, r, code) || forall v: Vec :: !Listed(L, known, r, code, v))
  {
    forall v: Vec
      ensures IsCompletion(crc, code.h, L, known, r, v) <==>
        Listed(L, known, r, code, v) && RowSolvable(L, known, r, code)
    {
      ListedIffCompletion(crc, L, known, r, code, v);
    }
  }

  // ---- a list that is wrong ----

  /** Two cells on one line with target 1. The true row is a one and a zero; its first cell has been guessed wrongly. */
  const TWO_CELLS: LineSystem := LineSystem(2, [[0, 1]], [1])
  const GUESS: Partial := map[0 := false]

  lemma TwoCellsFacts()
    ensures TWO_CELLS.Wf() && FreePositions([0, 1], GUESS, 2) == [1]
    ensures Rho(TWO_CELLS, GUESS, 0) == 1 && U(TWO_CELLS, GUESS, 0) == 1
    ensures MayBe(TWO_CELLS, GUESS, 1, true) && Weight([true]) == 1
  {
    assert FreePositions([0, 1], GUESS, 1) == FreePositions([0, 1], GUESS, 0) + [] == [];
    CountTwo(Ones(GUESS));
    CountTwo(Cells(2) - GUESS.Keys);
    assert WeightTo([true], 0) == 0;
  }

  lemma CountTwo(s: set<nat>)
    ensures Count([0, 1], s) == (if 0 in s then 1 else 0) + (if 1 in s then 1 else 0)
  {
    assert [0, 1][..1] == [0] && [0][..0] == [];
  }

  lemma FilledGuess(v: bool)
    requires FreePositions([0, 1], GUESS, 2) == [1]
    ensures Filled([0, 1], GUESS, [v]) == [false, v]
  {
    var t := FreeRank([0, 1], GUESS, 1);
  }

  /** The first pivot of a one-column system with a one somewhere. */
  lemma OneColumn(rows: seq<Vec>, rhs: Vec, p: nat)
    requires Shape(rows, rhs, 1) && p < |rows| && rows[p][0] && p == FirstOne(rows, 0, 0)
    ensures Eliminated(rows, rhs, 1, 1).pivots == [0] && FreeCols([0], 1) == []
    ensures SolvesPivotRows(rows, rhs, 1, [true]) <==> rhs[p]
  {
    var s0 := Eliminated(rows, rhs, 1, 0);
    assert s0 == State(rows, rhs, []);
    var s := Eliminated(rows, rhs, 1, 1);
    assert s == ColumnStep(s0, 1, 0) && s == PivotStep(s0, 1, 0, p);
    assert s.pivots == [0] && s.G[0] == rows[p] && s.b[0] == rhs[p];
    assert DotTo(rows[p], [true], 1) == (DotTo(rows[p], [true], 0) != (rows[p][0] && [true][0]));
    assert s.G[..1] == [rows[p]] && s.b[..1] == [rhs[p]];
  }

  /** The stored check value is that of the true row. */
  ghost predicate TrueCode(crc: Vec -> Vec, code: Code, n: nat) {
    n == 2 && AffineOn(crc, n) && IsGenerator(crc, code.gen, n) && code.c0 == crc(Zero(n)) && code.h == crc(Unit(n, 0))
  }

  /** The equations ask the free cell for what the true row has at the first cell. */
  lemma GuessSystem(crc: Vec -> Vec, code: Code, n: nat, rows: seq<Vec>, rhs: Vec)
    requires TrueCode(crc, code, n) && |code.h| == |code.c0| == 32 && FreePositions([0, 1], GUESS, 2) == [1]
    requires IsLineSystem(rows, rhs, code, [0, 1], GUESS, 1)
    ensures Shape(rows, rhs, 1) && |rows| == 33 && rows[32] == [true] && rhs[32]
    ensures forall k :: 0 <= k < 32 ==> rows[k] == [code.gen[k][1]] && rhs[k] == code.gen[k][0]
  {
    forall k | 0 <= k < 32 ensures rows[k] == [code.gen[k][1]] && rhs[k] == code.gen[k][0] {
      var g := code.gen[k];
      assert IsEquation(rows[k], rhs[k], code, [0, 1], GUESS, k);
      assert KnownDot(g, [0, 1], GUESS, 2) == KnownDot(g, [0, 1], GUESS, 1) == KnownDot(g, [0, 1], GUESS, 0);
    }
  }

  /** The first one of the free cell's column, if there is any, is in an equation that also has a one at the guessed
      cell. */
  ghost predicate FirstOneShared(gen: seq<Vec>)
    requires |gen| == 32 && forall k :: 0 <= k < 32 ==> |gen[k]| == 2
  {
    forall p :: 0 <= p < 32 && gen[p][1] && (forall k :: 0 <= k < p ==> !gen[k][1]) ==> gen[p][0]
  }

  lemma FirstPivot(gen: seq<Vec>, rows: seq<Vec>, rhs: Vec) returns (p: nat)
    requires |gen| == 32 && forall k :: 0 <= k < 32 ==> |gen[k]| == 2
    requires |rows| == |rhs| == 33 && rows[32] == [true] && rhs[32]
    requires forall k :: 0 <= k < 32 ==> rows[k] == [gen[k][1]] && rhs[k] == gen[k][0]
    ensures p < 33 && p == FirstOne(rows, 0, 0) && rows[p] == [true]
    ensures rhs[p] <==> FirstOneShared(gen)
  {
    FirstOneSpec(rows, 0, 0);
    p := FirstOne(rows, 0, 0);
    assert |rows[32]| > 0 && rows[32][0];
    forall k | 0 <= k < p && k < 32 ensures !gen[k][1] {
      assert !rows[k][0];
    }
    if p < 32 {
      assert rows[p][0] && gen[p][1];
      assert FirstOneShared(gen) ==> gen[p][0];
    }
  }

  /** After the wrong guess the true row's check value lets the free cell be set exactly when the first one of its
      column is shared; setting it completes the row only if the two columns are equal. */
  lemma ListAfterGuess(crc: Vec -> Vec, code: Code, n: nat)
    requires TrueCode(crc, code, n)
    ensures TWO_CELLS.Wf() && IsCode(crc, code, 2)
    ensures forall maxFree: nat :: !WideLine(TWO_CELLS, GUESS, 0, code, maxFree, false)
    ensures Listed(TWO_CELLS, GUESS, 0, code, [true]) <==> FirstOneShared(code.gen)
    ensures IsCompletion(crc, code.h, TWO_CELLS, GUESS, 0, [true]) <==>
      forall k :: 0 <= k < 32 ==> code.gen[k][0] == code.gen[k][1]
  {
    TwoCellsFacts();
    var rows, rhs := RowSystemExists(TWO_CELLS, GUESS, 0, code);
    GuessSystem(crc, code, n, rows, rhs);
    var p := FirstPivot(code.gen, rows, rhs);
    OneColumn(rows, rhs, p);
    NeverWide(rows, rhs, code);
    GuessListed(rows, rhs, code);
    GuessCompletes(crc, code, n);
  }

  lemma NeverWide(rows: seq<Vec>, rhs: Vec, code: Code)
    requires |code.gen| == |code.h| == |code.c0| == 32 && Shape(rows, rhs, 1)
    requires IsLineSystem(rows, rhs, code, [0, 1], GUESS, 1)
    requires Eliminated(rows, rhs, 1, 1).pivots == [0] && FreeCols([0], 1) == []
    ensures forall maxFree: nat :: !WideLine(TWO_CELLS, GUESS, 0, code, maxFree, false)
  {
    TwoCellsFacts();
    forall maxFree: nat ensures !WideLine(TWO_CELLS, GUESS, 0, code, maxFree, false) {
      OneSystem(TWO_CELLS, GUESS, 0, code, rows, rhs, maxFree);
    }
  }

  lemma GuessListed(rows: seq<Vec>, rhs: Vec, code: Code)
    requires |code.gen| == |code.h| == |code.c0| == 32 && Shape(rows, rhs, 1)
    requires IsLineSystem(rows, rhs, code, [0, 1], GUESS, 1)
    ensures Listed(TWO_CELLS, GUESS, 0, code, [true]) <==> SolvesPivotRows(rows, rhs, 1, [true])
  {
    TwoCellsFacts();
    OneSystem(TWO_CELLS, GUESS, 0, code, rows, rhs, 0);
  }

  lemma GuessCompletes(crc: Vec -> Vec, code: Code, n: nat)
    requires TrueCode(crc, code, n) && FreePositions([0, 1], GUESS, 2) == [1]
    ensures IsCompletion(crc, code.h, TWO_CELLS, GUESS, 0, [true]) <==>
      forall k :: 0 <= k < 32 ==> code.gen[k][0] == code.gen[k][1]
  {
    TwoCellsFacts();
    FilledGuess(true);
    EqualColumns(crc, code.gen, n);
    assert Unit(n, 1) == [false, true];
  }

  lemma EqualColumns(crc: Vec -> Vec, gen: seq<Vec>, n: nat)
    requires IsGenerator(crc, gen, n) && n == 2
    ensures crc(Unit(n, 0)) == crc(Unit(n, 1)) <==> forall k :: 0 <= k < 32 ==> gen[k][0] == gen[k][1]
  {
    var x, y := crc(Unit(n, 0)), crc(Unit(n, 1));
    forall k | 0 <= k < 32 ensures x[k] == y[k] <==> gen[k][0] == gen[k][1] {
    }
    if forall k :: 0 <= k < 32 ==> gen[k][0] == gen[k][1] {
      assert x == y;
    }
  }

  /** A listed vector that is no completion shows that there is no completion. */
  lemma NothingCompletes(crc: Vec -> Vec, L: LineSystem, known: Partial, r: nat, code: Code, listed: Vec)
    requires L.Wf() && r < |L.members| && IsCode(crc, code, |L.members[r]|)
    requires Listed(L, known, r, code, listed) && !IsCompletion(crc, code.h, L, known, r, listed)
    ensures forall v: Vec :: !IsCompletion(crc, code.h, L, known, r, v)
  {
    ListedIffCompletion(crc, L, known, r, code, listed);
    forall v: Vec ensures !IsCompletion(crc, code.h, L, known, r, v) {
      ListedIffCompletion(crc, L, known, r, code, v);
    }
  }

  /** If the columns differ and the first one is shared, the list is wrong. */
  lemma WrongAfterGuess(crc: Vec -> Vec, code: Code, n: nat)
    requires TrueCode(crc, code, n) && FirstOneShared(code.gen)
    requires exists k :: 0 <= k < 32 && code.gen[k][0] != code.gen[k][1]
    ensures IsCode(crc, code, n) && Listed(TWO_CELLS, GUESS, 0, code, [true])
    ensures forall v: Vec :: !IsCompletion(crc, code.h, TWO_CELLS, GUESS, 0, v)
  {
    ListAfterGuess(crc, code, n);
    NothingCompletes(crc, TWO_CELLS, GUESS, 0, code, [true]);
  }

  /** The first two bits of the two columns. */
  lemma TwoCellColumns(gen: seq<Vec>, n: nat)
    requires IsGenerator(RowCrc, gen, n) && n == 2
    ensures gen[0][0] && gen[1][0] && !gen[0][1] && gen[1][1]
  {
    FirstColumns(n, 0, 0xedb88320);
    FirstColumns(n, 1, 0xedb88320);
  }

  /** With the CRC-32 of two-cell rows the list is wrong: a value is listed that completes nothing. */
  lemma ListCanBeWrong(code: Code, n: nat)
    requires n == 2 && IsGenerator(RowCrc, code.gen, n) && code.c0 == RowCrc(Zero(n)) && code.h == RowCrc(Unit(n, 0))
    ensures IsCode(RowCrc, code, n) && Listed(TWO_CELLS, GUESS, 0, code, [true])
    ensures forall v: Vec :: !IsCompletion(RowCrc, code.h, TWO_CELLS, GUESS, 0, v)
  {
    TwoCellColumns(code.gen, n);
    RowCodeIsTrue(code, n);
    assert code.gen[0][0] != code.gen[0][1];
    WrongAfterGuess(RowCrc, code, n);
  }

  lemma RowCodeIsTrue(code: Code, n: nat)
    requires n == 2 && IsGenerator(RowCrc, code.gen, n) && code.c0 == RowCrc(Zero(n)) && code.h == RowCrc(Unit(n, 0))
    ensures TrueCode(RowCrc, code, n)
  {
    RowCrcIsAffine(n);
  }
}
