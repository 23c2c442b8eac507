/** The solution set read off a reduced system: free columns may take any value,
    each pivot column is then fixed by its row. */
module SolutionSpace {
  import opened Gf2
  import opened Elimination

  /** The non-pivot columns below `k`, in increasing order. */
  function FreeCols(pivots: seq<nat>, k: nat): seq<nat> {
    if k == 0 then []
    else FreeCols(pivots, k - 1) + if k - 1 in pivots then [] else [k - 1]
  }

  lemma {:induction false} FreeColsSpec(pivots: seq<nat>, k: nat)
    ensures forall j: nat :: j in FreeCols(pivots, k) <==> j < k && j !in pivots
    ensures Increasing(FreeCols(pivots, k))
  {
    if k > 0 {
      FreeColsSpec(pivots, k - 1);
      var below := FreeCols(pivots, k - 1);
      assert forall i :: 0 <= i < |below| ==> below[i] in below;
    }
  }

  /** Below `k` there are `k - r` free columns when `r` pivots lie below `k`. */
  lemma {:induction false} FreeColsBelow(pivots: seq<nat>, r: nat, k: nat)
    requires Increasing(pivots) && r <= |pivots|
    requires forall i :: 0 <= i < |pivots| ==> (i < r <==> pivots[i] < k)
    ensures |FreeCols(pivots, k)| + r == k
  {
    assert r > 0 ==> pivots[0] < k;
    if k == 0 {
    } else if r > 0 && pivots[r - 1] == k - 1 {
      FreeColsBelow(pivots, r - 1, k - 1);
    } else {
      assert forall i :: 0 <= i < |pivots| ==> pivots[i] != k - 1;
      FreeColsBelow(pivots, r, k - 1);
    }
  }

  /** There are `n - rank` free columns. */
  lemma FreeColsCount(pivots: seq<nat>, n: nat)
    requires Increasing(pivots) && forall i :: 0 <= i < |pivots| ==> pivots[i] < n
    ensures |FreeCols(pivots, n)| + |pivots| == n
  {
    FreeColsBelow(pivots, |pivots|, n);
  }

  /** The row of a pivot column. */
  ghost function RowOf(pivots: seq<nat>, j: nat): (i: nat)
    requires j in pivots
    ensures i < |pivots| && pivots[i] == j
  {
    var i :| 0 <= i < |pivots| && pivots[i] == j;
    i
  }

  /** `x` with its pivot columns cleared. */
  ghost function FreePart(x: Vec, pivots: seq<nat>): (y: Vec)
    ensures |y| == |x| && forall j :: 0 <= j < |x| ==> y[j] == (x[j] && j !in pivots)
  {
    seq(|x|, j requires 0 <= j < |x| => x[j] && j !in pivots)
  }

  /** `x` with every pivot column recomputed from the free columns. */
  ghost function Complete(G: seq<Vec>, b: Vec, pivots: seq<nat>, x: Vec): (y: Vec)
    requires Shape(G, b, |x|) && Reduced(G, pivots, |x|)
    ensures |y| == |x|
    ensures forall j :: 0 <= j < |x| && j !in pivots ==> y[j] == x[j]
    ensures forall i :: 0 <= i < |pivots| ==> y[pivots[i]] == (b[i] != Dot(G[i], FreePart(x, pivots)))
  {
    var y := seq(|x|, j requires 0 <= j < |x| =>
      if j in pivots then b[RowOf(pivots, j)] != Dot(G[RowOf(pivots, j)], FreePart(x, pivots)) else x[j]);
    assert forall i :: 0 <= i < |pivots| ==> RowOf(pivots, pivots[i]) == i by {
      assert Increasing(pivots);
    }
    y
  }

  lemma {:induction false} PivotRowDotTo(G: seq<Vec>, pivots: seq<nat>, i: nat, x: Vec, k: nat)
    requires forall r :: 0 <= r < |G| ==> |G[r]| == |x|
    requires Reduced(G, pivots, |x|) && i < |pivots| && k <= |x|
    ensures DotTo(G[i], x, k) == (DotTo(G[i], FreePart(x, pivots), k) != (pivots[i] < k && x[pivots[i]]))
  {
    if k > 0 {
      PivotRowDotTo(G, pivots, i, x, k - 1);
      if k - 1 in pivots {
        assert UnitColumn(G, pivots[RowOf(pivots, k - 1)], RowOf(pivots, k - 1));
        assert UnitColumn(G, pivots[i], i);
      }
    }
  }

  /** In a pivot row the pivot appears alone beside the free columns. */
  lemma PivotRowDot(G: seq<Vec>, pivots: seq<nat>, i: nat, x: Vec)
    requires forall r :: 0 <= r < |G| ==> |G[r]| == |x|
    requires Reduced(G, pivots, |x|) && i < |pivots|
    ensures Dot(G[i], x) == (x[pivots[i]] != Dot(G[i], FreePart(x, pivots)))
  {
    PivotRowDotTo(G, pivots, i, x, |x|);
  }

  /** A vector solves a reduced system exactly when no row reads 0 = 1 and it completes its own free part. */
  lemma SolvesIffComplete(G: seq<Vec>, b: Vec, pivots: seq<nat>, x: Vec)
    requires Shape(G, b, |x|) && Reduced(G, pivots, |x|)
    ensures Sat(G, b, x) <==> NoContradiction(b, |pivots|) && x == Complete(G, b, pivots, x)
  {
    forall r | |pivots| <= r < |G| ensures !Dot(G[r], x) {
      assert LeadingZeros(G[r], |x|);
      DotZeroTo(G[r], x, |x|);
    }
    forall i | 0 <= i < |pivots|
      ensures Dot(G[i], x) == b[i] <==> x[pivots[i]] == Complete(G, b, pivots, x)[pivots[i]]
    {
      PivotRowDot(G, pivots, i, x);
    }
    if NoContradiction(b, |pivots|) && x == Complete(G, b, pivots, x) {
      forall i | 0 <= i < |G| ensures Dot(G[i], x) == b[i] {
        if i < |pivots| {
          assert x[pivots[i]] == Complete(G, b, pivots, x)[pivots[i]];
        }
      }
    }
    if Sat(G, b, x) {
      forall r | |pivots| <= r < |b| ensures !b[r] {
        assert Dot(G[r], x) == b[r];
      }
      forall j | 0 <= j < |x| ensures x[j] == Complete(G, b, pivots, x)[j] {
        if j in pivots {
          assert Dot(G[RowOf(pivots, j)], x) == b[RowOf(pivots, j)];
        }
      }
    }
  }

  /** Every choice of the free columns extends to a solution. */
  lemma CompleteSolves(G: seq<Vec>, b: Vec, pivots: seq<nat>, x: Vec)
    requires Shape(G, b, |x|) && Reduced(G, pivots, |x|) && NoContradiction(b, |pivots|)
    ensures Sat(G, b, Complete(G, b, pivots, x))
  {
    var y := Complete(G, b, pivots, x);
    assert FreePart(y, pivots) == FreePart(x, pivots);
    forall j | 0 <= j < |y| ensures y[j] == Complete(G, b, pivots, y)[j] {
      if j in pivots {
        var i := RowOf(pivots, j);
        assert y[pivots[i]] == Complete(G, b, pivots, y)[pivots[i]];
      }
    }
    assert y == Complete(G, b, pivots, y);
    SolvesIffComplete(G, b, pivots, y);
  }

  /** Two solutions with the same free columns are equal. */
  lemma FreeColumnsDecide(G: seq<Vec>, b: Vec, pivots: seq<nat>, x: Vec, y: Vec)
    requires |x| == |y| && Shape(G, b, |x|) && Reduced(G, pivots, |x|)
    requires Sat(G, b, x) && Sat(G, b, y)
    requires forall j :: 0 <= j < |x| && j !in pivots ==> x[j] == y[j]
    ensures x == y
  {
    SolvesIffComplete(G, b, pivots, x);
    SolvesIffComplete(G, b, pivots, y);
    assert FreePart(x, pivots) == FreePart(y, pivots);
    forall j | 0 <= j < |x| ensures x[j] == y[j] {
      if j in pivots {
        assert x[pivots[RowOf(pivots, j)]] == y[pivots[RowOf(pivots, j)]];
      }
    }
  }

  // ---- cells determined by the system alone ----

  ghost predicate DependsOnFree(a: Vec, frees: seq<nat>) {
    exists j :: j in frees && j < |a| && a[j]
  }

  /** Pivots whose row has no free column, with the value of their row. */
  method ExtractDetermined(G: array<Vec>, b: array<bool>, pivots: seq<nat>, frees: seq<nat>)
      returns (det: map<nat, bool>)
    requires |pivots| <= G.Length == b.Length
    requires Increasing(pivots)
    requires forall i, e :: 0 <= i < |pivots| && 0 <= e < |frees| ==> frees[e] < |G[i]|
    ensures DeterminedBy(det, G[..], b[..], pivots, frees)
  {
    det := map[];
    for i := 0 to |pivots|
      invariant forall j :: j in det ==> j in pivots[..i]
      invariant forall k :: 0 <= k < i ==> (pivots[k] in det <==> !DependsOnFree(G[k], frees))
      invariant forall k :: 0 <= k < i && pivots[k] in det ==> det[pivots[k]] == b[k]
    {
      var hasFreeDep := false;
      for f := 0 to |frees|
        invariant hasFreeDep <==> exists e :: 0 <= e < f && G[i][frees[e]]
      {
        if G[i][frees[f]] {
          hasFreeDep := true;
          break;
        }
      }
      if !hasFreeDep {
        det := det[pivots[i] := b[i]];
      }
    }
  }

  ghost predicate DeterminedBy(det: map<nat, bool>, G: seq<Vec>, b: Vec, pivots: seq<nat>, frees: seq<nat>)
    requires |pivots| <= |G| == |b|
  {
    && (forall j :: j in det ==> j in pivots)
    && (forall i :: 0 <= i < |pivots| ==> (pivots[i] in det <==> !DependsOnFree(G[i], frees)))
    && (forall i :: 0 <= i < |pivots| && pivots[i] in det ==> det[pivots[i]] == b[i])
  }

  /** All solutions agree on column `j`. */
  ghost predicate ConstantAt(G: seq<Vec>, b: Vec, n: nat, j: nat)
    requires Shape(G, b, n) && j < n
  {
    forall x: Vec, y: Vec :: |x| == |y| == n && Sat(G, b, x) && Sat(G, b, y) ==> x[j] == y[j]
  }

  /** A determined value holds in every solution, consistent system or not. */
  lemma DeterminedIsSound(G: seq<Vec>, b: Vec, pivots: seq<nat>, det: map<nat, bool>, x: Vec)
    requires Shape(G, b, |x|) && Reduced(G, pivots, |x|)
    requires DeterminedBy(det, G, b, pivots, FreeCols(pivots, |x|))
    requires Sat(G, b, x)
    ensures forall j :: j in det ==> j < |x| && x[j] == det[j]
  {
    FreeColsSpec(pivots, |x|);
    SolvesIffComplete(G, b, pivots, x);
    forall j | j in det ensures j < |x| && x[j] == det[j] {
      var i := RowOf(pivots, j);
      assert pivots[i] in det;
      DotZeroTo(G[i], FreePart(x, pivots), |x|);
      assert x[pivots[i]] == b[i];
    }
  }

  /** Flipping a free column of a solution moves exactly the pivots that depend on it. */
  lemma FlipFree(G: seq<Vec>, b: Vec, pivots: seq<nat>, x: Vec, f: nat) returns (y: Vec)
    requires Shape(G, b, |x|) && Reduced(G, pivots, |x|) && Sat(G, b, x)
    requires f < |x| && f !in pivots
    ensures |y| == |x| && Sat(G, b, y) && y[f] != x[f]
    ensures forall i :: 0 <= i < |pivots| ==> (y[pivots[i]] != x[pivots[i]] <==> G[i][f])
  {
    SolvesIffComplete(G, b, pivots, x);
    var z := x[f := !x[f]];
    y := Complete(G, b, pivots, z);
    CompleteSolves(G, b, pivots, z);
    var e := Zero(|x|)[f := true];
    assert FreePart(z, pivots) == Xor(FreePart(x, pivots), e);
    forall i | 0 <= i < |pivots|
      ensures y[pivots[i]] != x[pivots[i]] <==> G[i][f]
    {
      DotXorRight(G[i], FreePart(x, pivots), e);
      DotUnit(G[i], f);
      assert x[pivots[i]] == Complete(G, b, pivots, x)[pivots[i]];
    }
  }

  lemma DotUnit(a: Vec, f: nat)
    requires f < |a|
    ensures Dot(a, Zero(|a|)[f := true]) == a[f]
  {
    var e := Zero(|a|)[f := true];
    DotSymmetricTo(a, e, |a|);
    DotClearTo(e, a, f, |a|);
    assert e[f := false] == Zero(|a|);
    DotZeroTo(Zero(|a|), a, |a|);
  }

  /** For a solvable reduced system, a column is constant over all solutions exactly when it is reported. */
  lemma DeterminedIsExact(G: seq<Vec>, b: Vec, n: nat, pivots: seq<nat>, det: map<nat, bool>, x: Vec, j: nat)
    requires Shape(G, b, n) && Reduced(G, pivots, n) && j < n
    requires DeterminedBy(det, G, b, pivots, FreeCols(pivots, n))
    requires |x| == n && Sat(G, b, x)
    ensures j in det <==> ConstantAt(G, b, n, j)
  {
    FreeColsSpec(pivots, n);
    if j in det {
      forall y: Vec | |y| == n && Sat(G, b, y) ensures y[j] == det[j] {
        DeterminedIsSound(G, b, pivots, det, y);
      }
    } else if j in pivots {
      var i := RowOf(pivots, j);
      assert pivots[i] !in det;
      var f :| f in FreeCols(pivots, n) && f < |G[i]| && G[i][f];
      var y := FlipFree(G, b, pivots, x, f);
      assert y[pivots[i]] != x[pivots[i]];
    } else {
      var y := FlipFree(G, b, pivots, x, j);
    }
  }
}
