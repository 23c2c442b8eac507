/** Gauss-Jordan elimination over GF(2), in place, and what its reduced form tells:
    the solutions are exactly the completions of the free columns. */
module Elimination {
  import opened Gf2

  // ---- reduced row echelon form ----

  ghost predicate Increasing(s: seq<nat>) {
    forall i, j :: 0 <= i < j < |s| ==> s[i] < s[j]
  }

  /** Column `c` of `G` holds a single one, in row `i`. */
  ghost predicate UnitColumn(G: seq<Vec>, c: nat, i: nat) {
    forall r :: 0 <= r < |G| ==> c < |G[r]| && (G[r][c] <==> r == i)
  }

  ghost predicate LeadingZeros(a: Vec, k: nat) {
    k <= |a| && forall j :: 0 <= j < k ==> !a[j]
  }

  /** The first `cols` columns of `G` are in reduced row echelon form with the given pivots. */
  ghost predicate Reduced(G: seq<Vec>, pivots: seq<nat>, cols: nat) {
    && |pivots| <= |G|
    && Increasing(pivots)
    && (forall i :: 0 <= i < |pivots| ==> pivots[i] < cols)
    && (forall i :: 0 <= i < |pivots| ==> UnitColumn(G, pivots[i], i))
    && (forall i :: 0 <= i < |pivots| ==> LeadingZeros(G[i], pivots[i]))
    && (forall r :: |pivots| <= r < |G| ==> LeadingZeros(G[r], cols))
  }

  /** No equation below the rank reads 0 = 1. */
  ghost predicate NoContradiction(b: Vec, rank: nat) {
    forall r :: rank <= r < |b| ==> !b[r]
  }

  // ---- the elimination as a function ----

  /** A system under elimination and the pivot columns found so far. */
  datatype State = State(G: seq<Vec>, b: Vec, pivots: seq<nat>)

  /** The first row at or below `from` with a one in column `col`, or the number of rows. */
  function FirstOne(G: seq<Vec>, from: nat, col: nat): (found: nat)
    requires from <= |G|
    ensures from <= found <= |G|
    decreases |G| - from
  {
    if from == |G| || (col < |G[from]| && G[from][col]) then from else FirstOne(G, from + 1, col)
  }

  lemma {:induction false} FirstOneSpec(G: seq<Vec>, from: nat, col: nat)
    requires from <= |G|
    ensures forall r :: from <= r < FirstOne(G, from, col) && col < |G[r]| ==> !G[r][col]
    ensures FirstOne(G, from, col) < |G| ==> col < |G[FirstOne(G, from, col)]| && G[FirstOne(G, from, col)][col]
    decreases |G| - from
  {
    if from < |G| && !(col < |G[from]| && G[from][col]) {
      FirstOneSpec(G, from + 1, col);
    }
  }

  /** Row `r` after row `p` has been added to the other rows with a one in column `col`. */
  function ClearedRow(G: seq<Vec>, n: nat, p: nat, col: nat, r: nat): (row: Vec)
    requires p < |G| && r < |G| && |G[p]| == |G[r]| == n && col < n
    ensures |row| == n
  {
    if r != p && G[r][col] then Xor(G[r], G[p]) else G[r]
  }

  function ClearedBit(G: seq<Vec>, b: Vec, n: nat, p: nat, col: nat, r: nat): bool
    requires p < |G| && r < |G| == |b| && |G[p]| == |G[r]| == n && col < n
  {
    if r != p && G[r][col] then b[r] != b[p] else b[r]
  }

  function ClearedRows(G: seq<Vec>, b: Vec, n: nat, p: nat, col: nat): (H: seq<Vec>)
    requires Shape(G, b, n) && p < |G| && col < n
    ensures |H| == |G| && forall r :: 0 <= r < |G| ==> H[r] == ClearedRow(G, n, p, col, r)
  {
    seq(|G|, r requires 0 <= r < |G| => ClearedRow(G, n, p, col, r))
  }

  function ClearedBits(G: seq<Vec>, b: Vec, n: nat, p: nat, col: nat): (c: Vec)
    requires Shape(G, b, n) && p < |G| && col < n
    ensures |c| == |b| && forall r :: 0 <= r < |b| ==> c[r] == ClearedBit(G, b, n, p, col, r)
  {
    seq(|b|, r requires 0 <= r < |b| => ClearedBit(G, b, n, p, col, r))
  }

  /** Brings row `found` up as the pivot row and clears its column everywhere else. */
  function PivotStep(s: State, n: nat, col: nat, found: nat): (t: State)
    requires Shape(s.G, s.b, n) && col < n && |s.pivots| <= found < |s.G|
    ensures Shape(t.G, t.b, n) && |t.pivots| == |s.pivots| + 1 <= |t.G|
  {
    var p := |s.pivots|;
    var H, c := s.G[p := s.G[found]][found := s.G[p]], s.b[p := s.b[found]][found := s.b[p]];
    State(ClearedRows(H, c, n, p, col), ClearedBits(H, c, n, p, col), s.pivots + [col])
  }

  /** One column: a pivot step if there is a one at or below the rank. */
  function ColumnStep(s: State, n: nat, col: nat): (t: State)
    requires Shape(s.G, s.b, n) && col < n && |s.pivots| <= |s.G|
    ensures Shape(t.G, t.b, n) && |t.pivots| <= |t.G|
  {
    var found := FirstOne(s.G, |s.pivots|, col);
    if found < |s.G| then PivotStep(s, n, col, found) else s
  }

  /** The system after the columns below `col` have been dealt with. */
  function Eliminated(G: seq<Vec>, b: Vec, n: nat, col: nat): (s: State)
    requires Shape(G, b, n) && col <= n
    ensures Shape(s.G, s.b, n) && |s.pivots| <= |s.G|
  {
    if col == 0 then State(G, b, []) else ColumnStep(Eliminated(G, b, n, col - 1), n, col - 1)
  }

  // ---- what it keeps and where it ends ----

  lemma ClearingKeepsSolutions(G: seq<Vec>, b: Vec, n: nat, p: nat, col: nat)
    requires Shape(G, b, n) && p < |G| && col < n
    ensures SameSolutions(G, b, ClearedRows(G, b, n, p, col), ClearedBits(G, b, n, p, col), n)
  {
    var H, c := ClearedRows(G, b, n, p, col), ClearedBits(G, b, n, p, col);
    forall x: Vec | |x| == n ensures Sat(G, b, x) <==> Sat(H, c, x) {
      forall r | 0 <= r < |G| && r != p && G[r][col] ensures Dot(H[r], x) == (Dot(G[r], x) != Dot(G[p], x)) {
        DotXorLeft(G[r], G[p], x);
      }
      if Sat(H, c, x) {
        assert Dot(H[p], x) == c[p];
        forall r | 0 <= r < |G| ensures Dot(G[r], x) == b[r] {
          assert Dot(H[r], x) == c[r];
        }
      }
    }
  }

  /** One pivot step keeps the reduced form and extends it by a column. */
  lemma ReducedStep(G: seq<Vec>, H: seq<Vec>, K: seq<Vec>, n: nat, pivots: seq<nat>, col: nat, found: nat)
    requires |H| == |K| == |G|
    requires forall i :: 0 <= i < |G| ==> |G[i]| == |H[i]| == |K[i]| == n
    requires col < n && Reduced(G, pivots, col)
    requires |pivots| <= found < |G| && G[found][col]
    requires H == G[|pivots| := G[found]][found := G[|pivots|]]
    requires forall r :: 0 <= r < |G| ==>
      K[r] == if r != |pivots| && H[r][col] then Xor(H[r], H[|pivots|]) else H[r]
    ensures Reduced(K, pivots + [col], col + 1)
  {
    var p, q := |pivots|, pivots + [col];
    assert forall r :: p <= r < |G| ==> LeadingZeros(H[r], col);
    forall r, j | 0 <= r < |G| && 0 <= j < col ensures K[r][j] == H[r][j] {
      assert LeadingZeros(H[p], col);
    }
    forall i | 0 <= i < |q| ensures UnitColumn(K, q[i], i) && LeadingZeros(K[i], q[i]) {
      if i < p {
        PivotKept(G, H, K, n, pivots, col, found, i);
      }
    }
    forall r | p + 1 <= r < |K| ensures LeadingZeros(K[r], col + 1) {
      assert LeadingZeros(H[r], col);
    }
  }

  /** The earlier pivot columns and the zeros before them stay as they are. */
  lemma PivotKept(G: seq<Vec>, H: seq<Vec>, K: seq<Vec>, n: nat, pivots: seq<nat>, col: nat, found: nat, i: nat)
    requires |H| == |K| == |G|
    requires forall r :: 0 <= r < |G| ==> |G[r]| == |H[r]| == |K[r]| == n
    requires col < n && Reduced(G, pivots, col) && |pivots| <= found < |G| && i < |pivots|
    requires H == G[|pivots| := G[found]][found := G[|pivots|]]
    requires forall r, j :: 0 <= r < |G| && 0 <= j < col ==> K[r][j] == H[r][j]
    ensures UnitColumn(K, pivots[i], i) && LeadingZeros(K[i], pivots[i])
  {
    forall r | 0 <= r < |G| ensures K[r][pivots[i]] <==> r == i {
      assert UnitColumn(G, pivots[i], i);
    }
    assert LeadingZeros(G[i], pivots[i]) && H[i] == G[i];
  }

  /** A column without a pivot extends the reduced form as it is. */
  lemma ReducedSkip(G: seq<Vec>, pivots: seq<nat>, col: nat)
    requires Reduced(G, pivots, col)
    requires forall r :: |pivots| <= r < |G| ==> col < |G[r]| && !G[r][col]
    ensures Reduced(G, pivots, col + 1)
  {
    forall r | |pivots| <= r < |G| ensures LeadingZeros(G[r], col + 1) {
      assert LeadingZeros(G[r], col);
    }
  }

  lemma SolutionsTransitive(G: seq<Vec>, b: Vec, H: seq<Vec>, c: Vec, K: seq<Vec>, d: Vec, n: nat)
    requires Shape(G, b, n) && Shape(H, c, n) && Shape(K, d, n)
    requires SameSolutions(G, b, H, c, n) && SameSolutions(H, c, K, d, n)
    ensures SameSolutions(G, b, K, d, n)
  {
  }

  lemma PivotStepKeeps(s: State, n: nat, col: nat, found: nat)
    requires Shape(s.G, s.b, n) && col < n && |s.pivots| <= found < |s.G| && s.G[found][col]
    requires Reduced(s.G, s.pivots, col)
    ensures var t := PivotStep(s, n, col, found);
      Reduced(t.G, t.pivots, col + 1) && SameSolutions(s.G, s.b, t.G, t.b, n)
  {
    var p := |s.pivots|;
    var H, c := s.G[p := s.G[found]][found := s.G[p]], s.b[p := s.b[found]][found := s.b[p]];
    var t := PivotStep(s, n, col, found);
    SwapKeepsSolutions(s.G, s.b, n, p, found);
    ClearingKeepsSolutions(H, c, n, p, col);
    SolutionsTransitive(s.G, s.b, H, c, t.G, t.b, n);
    ReducedStep(s.G, H, t.G, n, s.pivots, col, found);
  }

  /** `s` is reduced in the columns below `col` and has the solutions of `(G, b)`. */
  ghost predicate Faithful(G: seq<Vec>, b: Vec, s: State, n: nat, col: nat)
    requires Shape(G, b, n)
  {
    Shape(s.G, s.b, n) && Reduced(s.G, s.pivots, col) && SameSolutions(G, b, s.G, s.b, n)
  }

  lemma ColumnStepKeeps(s: State, n: nat, col: nat)
    requires Shape(s.G, s.b, n) && col < n && Reduced(s.G, s.pivots, col)
    ensures Faithful(s.G, s.b, ColumnStep(s, n, col), n, col + 1)
  {
    var found := FirstOne(s.G, |s.pivots|, col);
    FirstOneSpec(s.G, |s.pivots|, col);
    if found < |s.G| {
      PivotStepKeeps(s, n, col, found);
    } else {
      ReducedSkip(s.G, s.pivots, col);
    }
  }

  lemma FaithfulChain(G: seq<Vec>, b: Vec, s: State, t: State, n: nat, k: nat, col: nat)
    requires Shape(G, b, n) && Faithful(G, b, s, n, k) && Faithful(s.G, s.b, t, n, col)
    ensures Faithful(G, b, t, n, col)
  {
    SolutionsTransitive(G, b, s.G, s.b, t.G, t.b, n);
  }

  lemma NothingEliminated(G: seq<Vec>, b: Vec, n: nat)
    requires Shape(G, b, n)
    ensures Faithful(G, b, State(G, b, []), n, 0)
  {
  }

  /** One column, with the states before and after it named. */
  lemma FaithfulNext(G: seq<Vec>, b: Vec, n: nat, col: nat, s: State, t: State)
    requires Shape(G, b, n) && col < n && Faithful(G, b, s, n, col) && t == ColumnStep(s, n, col)
    ensures Faithful(G, b, t, n, col + 1)
  {
    ColumnStepKeeps(s, n, col);
    FaithfulChain(G, b, s, t, n, col, col + 1);
  }

  /** `t` is `s` after one more column. */
  ghost predicate NextState(s: State, n: nat, col: nat, t: State) {
    Shape(s.G, s.b, n) && col < n && |s.pivots| <= |s.G| && t == ColumnStep(s, n, col)
  }

  /** The states before every column, and after the last. */
  ghost function States(G: seq<Vec>, b: Vec, n: nat, col: nat): (states: seq<State>)
    requires Shape(G, b, n) && col <= n
    ensures |states| == col + 1
  {
    seq(col + 1, k requires 0 <= k <= col => Eliminated(G, b, n, k))
  }

  lemma StatesFollow(G: seq<Vec>, b: Vec, n: nat, col: nat)
    requires Shape(G, b, n) && col <= n
    ensures States(G, b, n, col)[0] == State(G, b, [])
    ensures forall k :: 0 <= k < col ==> NextState(States(G, b, n, col)[k], n, k, States(G, b, n, col)[k + 1])
  {
  }

  lemma {:induction false} StatesFaithful(G: seq<Vec>, b: Vec, n: nat, states: seq<State>, k: nat)
    requires Shape(G, b, n) && k < |states| <= n + 1 && states[0] == State(G, b, [])
    requires forall k :: 0 <= k < |states| - 1 ==> NextState(states[k], n, k, states[k + 1])
    ensures Faithful(G, b, states[k], n, k)
  {
    if k == 0 {
      NothingEliminated(G, b, n);
    } else {
      StatesFaithful(G, b, n, states, k - 1);
      assert NextState(states[k - 1], n, k - 1, states[k - 1 + 1]);
      FaithfulNext(G, b, n, k - 1, states[k - 1], states[k]);
    }
  }

  /** Elimination keeps the solution set and ends in reduced form. */
  lemma EliminatedIsReduced(G: seq<Vec>, b: Vec, n: nat, col: nat)
    requires Shape(G, b, n) && col <= n
    ensures Faithful(G, b, Eliminated(G, b, n, col), n, col)
  {
    StatesFollow(G, b, n, col);
    StatesFaithful(G, b, n, States(G, b, n, col), col);
  }

  // ---- the elimination in place ----

  method FindPivot(G: array<Vec>, pivotRow: nat, col: nat) returns (found: nat)
    requires pivotRow <= G.Length
    requires forall i :: 0 <= i < G.Length ==> col < |G[i]|
    ensures found == FirstOne(G[..], pivotRow, col) && pivotRow <= found <= G.Length
    ensures (forall r :: pivotRow <= r < found ==> !G[r][col]) && (found < G.Length ==> G[found][col])
  {
    found := pivotRow;
    while found < G.Length && !G[found][col]
      invariant pivotRow <= found <= G.Length
      invariant FirstOne(G[..], pivotRow, col) == FirstOne(G[..], found, col)
      invariant forall r :: pivotRow <= r < found ==> !G[r][col]
    {
      found := found + 1;
    }
  }

  method SwapRows(G: array<Vec>, b: array<bool>, p: nat, q: nat)
    requires p < G.Length == b.Length && q < G.Length
    modifies G, b
    ensures G[..] == old(G[..])[p := old(G[q])][q := old(G[p])]
    ensures b[..] == old(b[..])[p := old(b[q])][q := old(b[p])]
  {
    G[p], G[q] := G[q], G[p];
    b[p], b[q] := b[q], b[p];
  }

  /** Adds row `p` to every other row with a one in column `col`. */
  method EliminateColumn(G: array<Vec>, b: array<bool>, ghost n: nat, p: nat, col: nat)
    requires Shape(G[..], b[..], n) && p < G.Length && col < n
    modifies G, b
    ensures G[..] == ClearedRows(old(G[..]), old(b[..]), n, p, col)
    ensures b[..] == ClearedBits(old(G[..]), old(b[..]), n, p, col)
    ensures Shape(G[..], b[..], n) && SameSolutions(old(G[..]), old(b[..]), G[..], b[..], n)
    ensures G[p] == old(G[p]) && (G[p][col] ==> forall r :: 0 <= r < G.Length && r != p ==> !G[r][col])
  {
    ghost var H, c := G[..], b[..];
    for r := 0 to G.Length
      invariant forall q :: 0 <= q < r ==> G[q] == ClearedRow(H, n, p, col, q) && b[q] == ClearedBit(H, c, n, p, col, q)
      invariant forall q :: r <= q < G.Length ==> G[q] == H[q] && b[q] == c[q]
      invariant G[p] == H[p] && b[p] == c[p]
    {
      if r != p && G[r][col] {
        G[r] := Xor(G[r], G[p]);
        b[r] := b[r] != b[p];
      }
    }
    assert G[..] == ClearedRows(H, c, n, p, col) && b[..] == ClearedBits(H, c, n, p, col);
    ClearingKeepsSolutions(H, c, n, p, col);
  }

  /** One pivot: rows exchanged if needed, and the column cleared in all other rows. */
  method PivotOn(G: array<Vec>, b: array<bool>, n: nat, pivots: seq<nat>, col: nat, found: nat)
    requires Shape(G[..], b[..], n) && col < n && |pivots| <= found < G.Length
    modifies G, b
    ensures State(G[..], b[..], pivots + [col]) == PivotStep(State(old(G[..]), old(b[..]), pivots), n, col, found)
  {
    ghost var G0, b0 := G[..], b[..];
    var p := |pivots|;
    if found != p {
      SwapRows(G, b, p, found);
    }
    assert G[..] == G0[p := G0[found]][found := G0[p]] && b[..] == b0[p := b0[found]][found := b0[p]];
    EliminateColumn(G, b, n, p, col);
  }

  /** Deals with one column. */
  method DoColumn(G: array<Vec>, b: array<bool>, n: nat, pivots0: seq<nat>, col: nat) returns (pivots: seq<nat>)
    requires Shape(G[..], b[..], n) && col < n && |pivots0| <= G.Length
    modifies G, b
    ensures State(G[..], b[..], pivots) == ColumnStep(State(old(G[..]), old(b[..]), pivots0), n, col)
  {
    pivots := pivots0;
    assert forall i :: 0 <= i < G.Length ==> |G[..][i]| == n;
    var found := FindPivot(G, |pivots|, col);
    if found < G.Length {
      PivotOn(G, b, n, pivots, col, found);
      pivots := pivots + [col];
    }
  }

  /** Reduces `(G, b)` in place; the pivot columns are returned in increasing order. */
  method GaussElim(G: array<Vec>, b: array<bool>, n: nat) returns (pivots: seq<nat>)
    requires Shape(G[..], b[..], n)
    modifies G, b
    ensures State(G[..], b[..], pivots) == Eliminated(old(G[..]), old(b[..]), n, n)
    ensures Shape(G[..], b[..], n)
    ensures Reduced(G[..], pivots, n)
    ensures SameSolutions(old(G[..]), old(b[..]), G[..], b[..], n)
  {
    pivots := [];
    ghost var G0, b0 := G[..], b[..];
    for col := 0 to n
      invariant State(G[..], b[..], pivots) == Eliminated(G0, b0, n, col)
    {
      pivots := DoColumn(G, b, n, pivots, col);
    }
    EliminatedIsReduced(G0, b0, n, n);
  }
}
