/** The null-space basis read off a reduced matrix, and the short formulas
    for the weight of a combination of basis vectors. */
module NullSpace {
  import opened Gf2
  import opened Elimination
  import opened SolutionSpace

  /** `x` is orthogonal to every row of `G`. */
  ghost predicate InKernel(G: seq<Vec>, x: Vec)
    requires forall i :: 0 <= i < |G| ==> |G[i]| == |x|
  {
    Sat(G, Zero(|G|), x)
  }

  /** One at the free column `f`, and on each pivot whose row has a one in column `f`. */
  ghost predicate IsBasisVector(v: Vec, G: seq<Vec>, pivots: seq<nat>, f: nat, n: nat) {
    && |v| == n && |pivots| <= |G|
    && (forall i :: 0 <= i < |pivots| ==> pivots[i] < n && f < |G[i]| && v[pivots[i]] == G[i][f])
    && (forall j :: 0 <= j < n && j !in pivots ==> (v[j] <==> j == f))
  }

  /** The sum of the basis vectors selected by the first `k` coefficients. */
  ghost function CombinationTo(basis: seq<Vec>, c: Vec, n: nat, k: nat): (v: Vec)
    requires k <= |basis| == |c| && forall t :: 0 <= t < |basis| ==> |basis[t]| == n
    ensures |v| == n
  {
    if k == 0 then Zero(n)
    else if c[k - 1] then Xor(CombinationTo(basis, c, n, k - 1), basis[k - 1])
    else CombinationTo(basis, c, n, k - 1)
  }

  ghost function Combination(basis: seq<Vec>, c: Vec, n: nat): (v: Vec)
    requires |basis| == |c| && forall t :: 0 <= t < |basis| ==> |basis[t]| == n
    ensures |v| == n
  {
    CombinationTo(basis, c, n, |basis|)
  }

  /** Elimination leaves a zero right-hand side zero. */
  lemma KernelKeepsZero(G: seq<Vec>, H: seq<Vec>, c: Vec, n: nat)
    requires Shape(G, Zero(|G|), n) && Shape(H, c, n)
    requires SameSolutions(G, Zero(|G|), H, c, n)
    ensures c == Zero(|H|)
  {
    forall i | 0 <= i < |G| ensures !Dot(G[i], Zero(n)) {
      DotZeroTo(G[i], Zero(n), n);
    }
    assert Sat(G, Zero(|G|), Zero(n));
    forall i | 0 <= i < |H| ensures !c[i] {
      DotZeroTo(H[i], Zero(n), n);
      assert Dot(H[i], Zero(n)) == c[i];
    }
  }

  lemma BasisVectorInKernel(v: Vec, G: seq<Vec>, pivots: seq<nat>, f: nat, n: nat)
    requires Shape(G, Zero(|G|), n) && Reduced(G, pivots, n)
    requires f < n && f !in pivots && IsBasisVector(v, G, pivots, f, n)
    ensures InKernel(G, v)
  {
    var e := Zero(n)[f := true];
    var y := Complete(G, Zero(|G|), pivots, e);
    CompleteSolves(G, Zero(|G|), pivots, e);
    assert FreePart(e, pivots) == e;
    forall j | 0 <= j < n ensures v[j] == y[j] {
      if j in pivots {
        var i := RowOf(pivots, j);
        DotUnit(G[i], f);
        assert y[pivots[i]] == Dot(G[i], e);
        assert v[pivots[i]] == G[i][f];
      }
    }
    assert v == y;
  }

  lemma KernelClosed(G: seq<Vec>, x: Vec, y: Vec)
    requires |x| == |y| && forall i :: 0 <= i < |G| ==> |G[i]| == |x|
    requires InKernel(G, x) && InKernel(G, y)
    ensures InKernel(G, Xor(x, y))
  {
    forall i | 0 <= i < |G| ensures !Dot(G[i], Xor(x, y)) {
      DotXorRight(G[i], x, y);
      assert Dot(G[i], x) == Zero(|G|)[i] && Dot(G[i], y) == Zero(|G|)[i];
    }
  }

  /** `basis[t]` belongs to the free column `frees[t]`. */
  ghost predicate IsBasis(basis: seq<Vec>, G: seq<Vec>, pivots: seq<nat>, n: nat) {
    var frees := FreeCols(pivots, n);
    && |basis| == |frees|
    && forall t :: 0 <= t < |frees| ==> IsBasisVector(basis[t], G, pivots, frees[t], n)
  }

  /** On free columns a combination shows its own coefficients; it never leaves the kernel. */
  lemma {:induction false} CombinationSpec(basis: seq<Vec>, c: Vec, G: seq<Vec>, pivots: seq<nat>, n: nat, k: nat)
    requires Shape(G, Zero(|G|), n) && Reduced(G, pivots, n) && IsBasis(basis, G, pivots, n)
    requires k <= |basis| == |c|
    ensures InKernel(G, CombinationTo(basis, c, n, k))
    ensures var frees := FreeCols(pivots, n);
            forall t :: 0 <= t < |frees| && frees[t] < n ==>
              CombinationTo(basis, c, n, k)[frees[t]] == (t < k && c[t])
  {
    var frees := FreeCols(pivots, n);
    FreeColsSpec(pivots, n);
    if k == 0 {
      forall i | 0 <= i < |G| ensures !Dot(G[i], Zero(n)) {
        DotZeroTo(G[i], Zero(n), n);
      }
    } else {
      CombinationSpec(basis, c, G, pivots, n, k - 1);
      assert frees[k - 1] in frees;
      BasisVectorInKernel(basis[k - 1], G, pivots, frees[k - 1], n);
      KernelClosed(G, CombinationTo(basis, c, n, k - 1), basis[k - 1]);
      forall t | 0 <= t < |frees| && frees[t] < n
        ensures CombinationTo(basis, c, n, k)[frees[t]] == (t < k && c[t])
      {
        assert frees[t] in frees;
        assert basis[k - 1][frees[t]] <==> t == k - 1;
      }
    }
  }

  /** No nontrivial combination vanishes. */
  lemma BasisIndependent(basis: seq<Vec>, c: Vec, G: seq<Vec>, pivots: seq<nat>, n: nat)
    requires Shape(G, Zero(|G|), n) && Reduced(G, pivots, n) && IsBasis(basis, G, pivots, n)
    requires |c| == |basis| && Combination(basis, c, n) == Zero(n)
    ensures c == Zero(|basis|)
  {
    FreeColsSpec(pivots, n);
    CombinationSpec(basis, c, G, pivots, n, |basis|);
    var frees := FreeCols(pivots, n);
    forall t | 0 <= t < |basis| ensures !c[t] {
      assert frees[t] in frees;
    }
  }

  /** Every kernel vector is the sum of the basis vectors of the free columns where it is one. */
  lemma BasisSpans(basis: seq<Vec>, G: seq<Vec>, pivots: seq<nat>, n: nat, x: Vec) returns (c: Vec)
    requires Shape(G, Zero(|G|), n) && Reduced(G, pivots, n) && IsBasis(basis, G, pivots, n)
    requires |x| == n && InKernel(G, x)
    ensures |c| == |basis| && x == Combination(basis, c, n)
    ensures var frees := FreeCols(pivots, n); forall t :: 0 <= t < |c| && frees[t] < n ==> c[t] == x[frees[t]]
  {
    var frees := FreeCols(pivots, n);
    FreeColsSpec(pivots, n);
    assert forall t :: 0 <= t < |frees| ==> frees[t] in frees;
    c := seq(|frees|, t requires 0 <= t < |frees| => x[frees[t]]);
    CombinationSpec(basis, c, G, pivots, n, |basis|);
    var y := Combination(basis, c, n);
    forall j | 0 <= j < n && j !in pivots ensures x[j] == y[j] {
      assert j in frees;
      var t :| 0 <= t < |frees| && frees[t] == j;
    }
    FreeColumnsDecide(G, Zero(|G|), pivots, x, y);
  }

  /** The basis vector of free column `f`, built by setting bits. */
  method BuildBasisVector(G: array<Vec>, pivots: seq<nat>, f: nat, n: nat) returns (v: Vec)
    requires forall i :: 0 <= i < G.Length ==> |G[i]| == n
    requires Reduced(G[..], pivots, n) && f < n && f !in pivots
    ensures IsBasisVector(v, G[..], pivots, f, n)
  {
    v := Zero(n)[f := true];
    for i := 0 to |pivots|
      invariant |v| == n
      invariant forall k :: 0 <= k < |pivots| ==> v[pivots[k]] == (k < i && G[k][f])
      invariant forall j :: 0 <= j < n && j !in pivots ==> (v[j] <==> j == f)
    {
      if G[i][f] {
        assert Increasing(pivots);
        v := v[pivots[i] := true];
      }
    }
  }

  /** One basis vector for each free column. */
  method BuildBasis(G: array<Vec>, pivots: seq<nat>, frees: seq<nat>, n: nat) returns (basis: seq<Vec>)
    requires forall i :: 0 <= i < G.Length ==> |G[i]| == n
    requires Reduced(G[..], pivots, n) && frees == FreeCols(pivots, n)
    ensures IsBasis(basis, G[..], pivots, n)
  {
    FreeColsSpec(pivots, n);
    basis := [];
    ghost var reduced := G[..];
    for t := 0 to |frees|
      invariant |basis| == t
      invariant forall k :: 0 <= k < t ==> IsBasisVector(basis[k], reduced, pivots, frees[k], n)
    {
      assert frees[t] in frees;
      var v := BuildBasisVector(G, pivots, frees[t], n);
      basis := basis + [v];
    }
  }

  /** Rank and null-space basis of the matrix `rows`. */
  method GaussElimNullSpace(rows: seq<Vec>, n: nat) returns (rank: nat, basis: seq<Vec>)
    requires forall i :: 0 <= i < |rows| ==> |rows[i]| == n
    ensures rank + |basis| == n && rank <= |rows|
    ensures forall t :: 0 <= t < |basis| ==> |basis[t]| == n && InKernel(rows, basis[t])
    ensures forall c: Vec :: |c| == |basis| && Combination(basis, c, n) == Zero(n) ==> c == Zero(|basis|)
    ensures forall x: Vec :: |x| == n && InKernel(rows, x) ==>
              exists c: Vec :: |c| == |basis| && Combination(basis, c, n) == x
  {
    var G := new Vec[|rows|](i requires 0 <= i < |rows| => rows[i]);
    var b := new bool[|rows|](_ => false);
    assert G[..] == rows && b[..] == Zero(|rows|);
    var pivots := GaussElim(G, b, n);
    KernelKeepsZero(rows, G[..], b[..], n);
    rank := |pivots|;
    var frees := FreeCols(pivots, n);
    FreeColsCount(pivots, n);
    assert forall i :: 0 <= i < G.Length ==> |G[..][i]| == n;
    basis := BuildBasis(G, pivots, frees, n);
    BasisIsBasis(rows, G[..], basis, pivots, n);
  }

  /** A basis read from the reduced matrix is one of the original kernel. */
  lemma BasisIsBasis(rows: seq<Vec>, G: seq<Vec>, basis: seq<Vec>, pivots: seq<nat>, n: nat)
    requires Shape(rows, Zero(|rows|), n) && Shape(G, Zero(|G|), n)
    requires SameSolutions(rows, Zero(|rows|), G, Zero(|G|), n)
    requires Reduced(G, pivots, n) && IsBasis(basis, G, pivots, n)
    ensures forall t :: 0 <= t < |basis| ==> |basis[t]| == n && InKernel(rows, basis[t])
    ensures forall c: Vec :: |c| == |basis| && Combination(basis, c, n) == Zero(n) ==> c == Zero(|basis|)
    ensures forall x: Vec :: |x| == n && InKernel(rows, x) ==>
              exists c: Vec :: |c| == |basis| && Combination(basis, c, n) == x
  {
    var frees := FreeCols(pivots, n);
    FreeColsSpec(pivots, n);
    forall t | 0 <= t < |basis| ensures InKernel(rows, basis[t]) {
      assert frees[t] in frees;
      BasisVectorInKernel(basis[t], G, pivots, frees[t], n);
    }
    forall c: Vec | |c| == |basis| && Combination(basis, c, n) == Zero(n) ensures c == Zero(|basis|) {
      BasisIndependent(basis, c, G, pivots, n);
    }
    forall x: Vec | |x| == n && InKernel(rows, x)
      ensures exists c: Vec :: |c| == |basis| && Combination(basis, c, n) == x
    {
      var c := BasisSpans(basis, G, pivots, n, x);
    }
  }
}
