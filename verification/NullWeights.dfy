/** Weights of null-space vectors, computed from the reduced rows without building the vectors. */
module NullWeights {
  import opened Gf2
  import opened Elimination
  import opened SolutionSpace
  import opened NullSpace

  /** A list of distinct free columns. */
  ghost predicate FreeList(fcs: seq<nat>, pivots: seq<nat>, n: nat) {
    && (forall t :: 0 <= t < |fcs| ==> fcs[t] < n && fcs[t] !in pivots)
    && (forall s, t :: 0 <= s < t < |fcs| ==> fcs[s] != fcs[t])
  }

  /** The bits of column `j` in the pivot rows: the pivot part of its basis vector. */
  function PivotColumn(G: seq<Vec>, rank: nat, j: nat): (p: Vec)
    requires rank <= |G| && forall i :: 0 <= i < rank ==> j < |G[i]|
    ensures |p| == rank
  {
    seq(rank, i requires 0 <= i < rank => G[i][j])
  }

  /** The sum of the pivot parts of the first `k` listed columns. */
  function PivotPart(G: seq<Vec>, rank: nat, fcs: seq<nat>, k: nat): (p: Vec)
    requires rank <= |G| && k <= |fcs|
    requires forall i, t :: 0 <= i < rank && 0 <= t < |fcs| ==> fcs[t] < |G[i]|
    ensures |p| == rank
  {
    if k == 0 then Zero(rank) else Xor(PivotPart(G, rank, fcs, k - 1), PivotColumn(G, rank, fcs[k - 1]))
  }

  /** `v` is one on the listed free columns and carries `p` on the pivots. */
  ghost predicate HasParts(v: Vec, pivots: seq<nat>, fcs: seq<nat>, p: Vec, n: nat) {
    && |v| == n && |p| == |pivots|
    && (forall i :: 0 <= i < |pivots| ==> pivots[i] < n && v[pivots[i]] == p[i])
    && (forall j :: 0 <= j < n && j !in pivots ==> (v[j] <==> j in fcs))
  }

  /** Flips the pivots of every row that meets column `f`. */
  method FlipPivots(G: seq<Vec>, pivots: seq<nat>, fcs: seq<nat>, f: nat, v0: Vec, ghost p: Vec) returns (v: Vec)
    requires |pivots| <= |G| && Increasing(pivots) && HasParts(v0, pivots, fcs, p, |v0|)
    requires forall i :: 0 <= i < |pivots| ==> f < |G[i]|
    ensures HasParts(v, pivots, fcs, Xor(p, PivotColumn(G, |pivots|, f)), |v0|)
  {
    v := v0;
    for i := 0 to |pivots|
      invariant |v| == |v0|
      invariant forall k :: 0 <= k < |pivots| ==> v[pivots[k]] == (p[k] != (k < i && G[k][f]))
      invariant forall j :: 0 <= j < |v| && j !in pivots ==> (v[j] <==> j in fcs)
    {
      if G[i][f] {
        v := v[pivots[i] := !v[pivots[i]]];
      }
    }
  }

  method SetColumns(fcs: seq<nat>, n: nat) returns (v: Vec)
    requires forall t :: 0 <= t < |fcs| ==> fcs[t] < n
    ensures |v| == n && forall j :: 0 <= j < n ==> (v[j] <==> j in fcs)
  {
    v := Zero(n);
    for t := 0 to |fcs|
      invariant |v| == n
      invariant forall j :: 0 <= j < n ==> (v[j] <==> j in fcs[..t])
    {
      v := v[fcs[t] := true];
    }
    assert fcs[..|fcs|] == fcs;
  }

  /** Sets the listed free columns, then flips the pivots of every row that meets one of them. */
  method ConstructNullVector(G: seq<Vec>, pivots: seq<nat>, fcs: seq<nat>, n: nat) returns (v: Vec)
    requires forall i :: 0 <= i < |G| ==> |G[i]| == n
    requires Reduced(G, pivots, n) && FreeList(fcs, pivots, n)
    ensures HasParts(v, pivots, fcs, PivotPart(G, |pivots|, fcs, |fcs|), n)
  {
    v := SetColumns(fcs, n);
    for t := 0 to |fcs|
      invariant HasParts(v, pivots, fcs, PivotPart(G, |pivots|, fcs, t), n)
    {
      v := FlipPivots(G, pivots, fcs, fcs[t], v, PivotPart(G, |pivots|, fcs, t));
    }
  }

  /** The vector that is one exactly on the first `k` listed columns. */
  ghost function Indicator(fcs: seq<nat>, n: nat, k: nat): (v: Vec)
    requires k <= |fcs|
    ensures |v| == n && forall j :: 0 <= j < n ==> (v[j] <==> j in fcs[..k])
  {
    seq(n, j requires 0 <= j < n => j in fcs[..k])
  }

  lemma {:induction false} IndicatorDot(G: seq<Vec>, pivots: seq<nat>, fcs: seq<nat>, n: nat, i: nat, k: nat)
    requires forall r :: 0 <= r < |G| ==> |G[r]| == n
    requires Reduced(G, pivots, n) && FreeList(fcs, pivots, n) && i < |pivots| && k <= |fcs|
    ensures Dot(G[i], Indicator(fcs, n, k)) == PivotPart(G, |pivots|, fcs, k)[i]
  {
    if k == 0 {
      DotZeroTo(G[i], Indicator(fcs, n, 0), n);
    } else {
      IndicatorDot(G, pivots, fcs, n, i, k - 1);
      var f := fcs[k - 1];
      var e := Zero(n)[f := true];
      assert fcs[..k] == fcs[..k - 1] + [f];
      assert Indicator(fcs, n, k) == Xor(Indicator(fcs, n, k - 1), e);
      DotXorRight(G[i], Indicator(fcs, n, k - 1), e);
      DotUnit(G[i], f);
    }
  }

  /** The constructed vector lies in the kernel. */
  lemma PartsInKernel(v: Vec, G: seq<Vec>, pivots: seq<nat>, fcs: seq<nat>, n: nat)
    requires Shape(G, Zero(|G|), n) && Reduced(G, pivots, n) && FreeList(fcs, pivots, n)
    requires HasParts(v, pivots, fcs, PivotPart(G, |pivots|, fcs, |fcs|), n)
    ensures InKernel(G, v)
  {
    var w := Complete(G, Zero(|G|), pivots, v);
    assert fcs[..|fcs|] == fcs;
    assert FreePart(v, pivots) == Indicator(fcs, n, |fcs|) by {
      assert forall j :: j in fcs ==> j !in pivots;
    }
    forall j | 0 <= j < n ensures v[j] == w[j] {
      if j in pivots {
        var i := RowOf(pivots, j);
        IndicatorDot(G, pivots, fcs, n, i, |fcs|);
        assert v[pivots[i]] == PivotPart(G, |pivots|, fcs, |fcs|)[i];
        assert w[pivots[i]] == Dot(G[i], FreePart(v, pivots));
      }
    }
    assert v == w;
    CompleteSolves(G, Zero(|G|), pivots, v);
  }

  // ---- the weight formula ----

  /** How many columns below `k` are listed. */
  ghost function ListedBelow(fcs: seq<nat>, k: nat): nat {
    if k == 0 then 0 else ListedBelow(fcs, k - 1) + if k - 1 in fcs then 1 else 0
  }

  /** Ones of `v` below `k`: the listed columns below `k` and the pivots below `k` whose bit is set. */
  lemma {:induction false} WeightSplits(v: Vec, pivots: seq<nat>, fcs: seq<nat>, p: Vec, n: nat, r: nat, k: nat)
    requires HasParts(v, pivots, fcs, p, n) && Increasing(pivots) && k <= n && r <= |pivots|
    requires forall i :: 0 <= i < |pivots| ==> (i < r <==> pivots[i] < k)
    requires forall i :: 0 <= i < |pivots| ==> pivots[i] !in fcs
    ensures WeightTo(v, k) == ListedBelow(fcs, k) + WeightTo(p, r)
  {
    assert r > 0 ==> pivots[0] < k;
    if k == 0 {
    } else if r > 0 && pivots[r - 1] == k - 1 {
      WeightSplits(v, pivots, fcs, p, n, r - 1, k - 1);
    } else {
      assert forall i :: 0 <= i < |pivots| ==> pivots[i] != k - 1;
      WeightSplits(v, pivots, fcs, p, n, r, k - 1);
    }
  }

  lemma {:induction false} ListedBelowAppend(fcs: seq<nat>, f: nat, k: nat)
    requires f !in fcs
    ensures ListedBelow(fcs + [f], k) == ListedBelow(fcs, k) + if f < k then 1 else 0
  {
    if k > 0 {
      ListedBelowAppend(fcs, f, k - 1);
    }
  }

  lemma {:induction false} ListedNone(n: nat)
    ensures ListedBelow([], n) == 0
  {
    if n > 0 {
      ListedNone(n - 1);
    }
  }

  lemma {:induction false} ListedAll(fcs: seq<nat>, n: nat)
    requires forall t :: 0 <= t < |fcs| ==> fcs[t] < n
    requires forall s, t :: 0 <= s < t < |fcs| ==> fcs[s] != fcs[t]
    ensures ListedBelow(fcs, n) == |fcs|
  {
    if fcs == [] {
      ListedNone(n);
    } else {
      var rest, last := fcs[..|fcs| - 1], fcs[|fcs| - 1];
      ListedAll(rest, n);
      assert fcs == rest + [last];
      ListedBelowAppend(rest, last, n);
    }
  }

  /** Weight of a combination of `k` basis vectors: `k` plus the weight of the summed pivot parts. */
  lemma CombinationWeight(v: Vec, G: seq<Vec>, pivots: seq<nat>, fcs: seq<nat>, n: nat)
    requires forall i :: 0 <= i < |G| ==> |G[i]| == n
    requires Reduced(G, pivots, n) && FreeList(fcs, pivots, n)
    requires HasParts(v, pivots, fcs, PivotPart(G, |pivots|, fcs, |fcs|), n)
    ensures Weight(v) == |fcs| + Weight(PivotPart(G, |pivots|, fcs, |fcs|))
  {
    WeightSplits(v, pivots, fcs, PivotPart(G, |pivots|, fcs, |fcs|), n, |pivots|, n);
    ListedAll(fcs, n);
  }

  /** How many of the first `k` reduced rows have a one in column `j`. */
  function ColumnCount(G: seq<Vec>, k: nat, j: nat): nat
    requires k <= |G| && forall i :: 0 <= i < k ==> j < |G[i]|
  {
    if k == 0 then 0 else ColumnCount(G, k - 1, j) + BitToInt(G[k - 1][j])
  }

  method ComputeColumnCounts(G: seq<Vec>, rank: nat, n: nat) returns (counts: seq<nat>)
    requires rank <= |G| && forall i :: 0 <= i < rank ==> |G[i]| == n
    ensures |counts| == n
    ensures forall j :: 0 <= j < n ==> counts[j] == ColumnCount(G, rank, j)
  {
    counts := seq(n, _ => 0);
    for i := 0 to rank
      invariant |counts| == n
      invariant forall j :: 0 <= j < n ==> counts[j] == ColumnCount(G, i, j)
    {
      counts := seq(n, j requires 0 <= j < n => counts[j] + BitToInt(G[i][j]));
    }
  }

  /** Positions below `k` where two vectors differ. */
  function HammingTo(x: Vec, y: Vec, k: nat): nat
    requires k <= |x| && k <= |y|
  {
    if k == 0 then 0 else HammingTo(x, y, k - 1) + if x[k - 1] != y[k - 1] then 1 else 0
  }

  /** Weight of one basis vector: one plus the column count. */
  lemma SingleWeight(v: Vec, G: seq<Vec>, pivots: seq<nat>, f: nat, n: nat)
    requires forall i :: 0 <= i < |G| ==> |G[i]| == n
    requires Reduced(G, pivots, n) && FreeList([f], pivots, n)
    requires HasParts(v, pivots, [f], PivotPart(G, |pivots|, [f], 1), n)
    ensures Weight(v) == 1 + ColumnCount(G, |pivots|, f)
  {
    CombinationWeight(v, G, pivots, [f], n);
    assert PivotPart(G, |pivots|, [f], 0) == Zero(|pivots|);
    ColumnCountIsWeight(G, |pivots|, f, PivotPart(G, |pivots|, [f], 1), |pivots|);
  }

  lemma {:induction false} ColumnCountIsWeight(G: seq<Vec>, rank: nat, j: nat, p: Vec, k: nat)
    requires k <= rank <= |G| && |p| == rank
    requires forall i :: 0 <= i < rank ==> j < |G[i]| && p[i] == G[i][j]
    ensures WeightTo(p, k) == ColumnCount(G, k, j)
  {
    if k > 0 {
      ColumnCountIsWeight(G, rank, j, p, k - 1);
    }
  }

  /** Weight of the sum of two basis vectors: two plus the Hamming distance of the pivot parts. */
  lemma PairWeight(v: Vec, G: seq<Vec>, pivots: seq<nat>, f: nat, g: nat, n: nat)
    requires forall i :: 0 <= i < |G| ==> |G[i]| == n
    requires Reduced(G, pivots, n) && f < n && g < n && FreeList([f, g], pivots, n)
    requires HasParts(v, pivots, [f, g], PivotPart(G, |pivots|, [f, g], 2), n)
    ensures Weight(v) == 2 + HammingTo(PivotColumn(G, |pivots|, f), PivotColumn(G, |pivots|, g), |pivots|)
  {
    var rank := |pivots|;
    CombinationWeight(v, G, pivots, [f, g], n);
    assert PivotPart(G, rank, [f, g], 0) == Zero(rank);
    assert PivotPart(G, rank, [f, g], 1) == PivotColumn(G, rank, f);
    var p := PivotPart(G, rank, [f, g], 2);
    HammingIsWeight(PivotColumn(G, rank, f), PivotColumn(G, rank, g), p, rank);
  }

  lemma {:induction false} HammingIsWeight(x: Vec, y: Vec, z: Vec, k: nat)
    requires |x| == |y| == |z| && k <= |x|
    requires forall j :: 0 <= j < |x| ==> z[j] == (x[j] != y[j])
    ensures HammingTo(x, y, k) == WeightTo(z, k)
  {
    if k > 0 {
      HammingIsWeight(x, y, z, k - 1);
    }
  }
}
