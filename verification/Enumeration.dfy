/** All solutions of a reduced system, one for each value of a counter over the free columns. */
module Enumeration {
  import opened Gf2
  import opened Elimination
  import opened SolutionSpace

  function Pow2(n: nat): (p: nat)
    ensures p > 0
  {
    if n == 0 then 1 else 2 * Pow2(n - 1)
  }

  /** The number whose bits, least significant first, are `w`. */
  ghost function ValueOf(w: Vec): nat {
    if w == [] then 0 else BitToInt(w[0]) + 2 * ValueOf(w[1..])
  }

  lemma {:induction false} ValueBounded(w: Vec)
    ensures ValueOf(w) < Pow2(|w|)
  {
    if w != [] {
      ValueBounded(w[1..]);
    }
  }

  lemma {:induction false} BitsOfValue(w: Vec)
    ensures BitsOf(ValueOf(w), |w|) == w
  {
    if w != [] {
      BitsOfValue(w[1..]);
      assert ValueOf(w) / 2 == ValueOf(w[1..]);
      assert w == [w[0]] + w[1..];
    }
  }

  lemma {:induction false} ValueOfBits(k: nat, n: nat)
    requires k < Pow2(n)
    ensures ValueOf(BitsOf(k, n)) == k
  {
    if n > 0 {
      ValueOfBits(k / 2, n - 1);
      assert BitsOf(k, n)[1..] == BitsOf(k / 2, n - 1);
    }
  }

  /** The vector of length `n` with `w` on the listed columns and zero elsewhere. */
  method Scatter(w: Vec, frees: seq<nat>, n: nat) returns (z: Vec)
    requires |w| == |frees| && Increasing(frees) && forall t :: 0 <= t < |frees| ==> frees[t] < n
    ensures IsScatter(z, w, frees, n)
  {
    z := Zero(n);
    for t := 0 to |frees|
      invariant |z| == n
      invariant forall s :: 0 <= s < |frees| ==> z[frees[s]] == (s < t && w[s])
      invariant forall j :: 0 <= j < n && j !in frees ==> !z[j]
    {
      z := z[frees[t] := w[t]];
    }
  }

  ghost predicate IsScatter(z: Vec, w: Vec, frees: seq<nat>, n: nat) {
    && |z| == n && |w| == |frees|
    && (forall t :: 0 <= t < |frees| ==> frees[t] < n && z[frees[t]] == w[t])
    && (forall j :: 0 <= j < n && j !in frees ==> !z[j])
  }

  /** Back-substitution: each pivot takes the value its row leaves it. */
  method BackSubstitute(G: seq<Vec>, b: Vec, pivots: seq<nat>, z: Vec) returns (v: Vec)
    requires Shape(G, b, |z|) && Reduced(G, pivots, |z|)
    requires forall i :: 0 <= i < |pivots| ==> !z[pivots[i]]
    ensures v == Complete(G, b, pivots, z)
  {
    assert FreePart(z, pivots) == z;
    v := z;
    for i := 0 to |pivots|
      invariant |v| == |z|
      invariant forall k :: 0 <= k < i ==> v[pivots[k]] == (b[k] != Dot(G[k], z))
      invariant forall j :: 0 <= j < |z| && j !in pivots ==> v[j] == z[j]
    {
      assert Increasing(pivots);
      v := v[pivots[i] := b[i] != Dot(G[i], z)];
    }
    forall j | 0 <= j < |z| ensures v[j] == Complete(G, b, pivots, z)[j] {
      if j in pivots {
        assert v[pivots[RowOf(pivots, j)]] == Complete(G, b, pivots, z)[pivots[RowOf(pivots, j)]];
      }
    }
  }

  /** Entry `k` is the solution whose free columns spell the number `k`. */
  ghost predicate Spells(v: Vec, G: seq<Vec>, b: Vec, pivots: seq<nat>, frees: seq<nat>, n: nat, k: nat)
    requires Shape(G, b, n)
  {
    && |v| == n && Sat(G, b, v)
    && forall t :: 0 <= t < |frees| && frees[t] < n ==> v[frees[t]] == BitsOf(k, |frees|)[t]
  }

  method SolutionFor(G: seq<Vec>, b: Vec, pivots: seq<nat>, frees: seq<nat>, n: nat, k: nat) returns (v: Vec)
    requires Shape(G, b, n) && Reduced(G, pivots, n) && NoContradiction(b, |pivots|)
    requires frees == FreeCols(pivots, n)
    ensures Spells(v, G, b, pivots, frees, n, k)
  {
    FreeColsSpec(pivots, n);
    assert forall t :: 0 <= t < |frees| ==> frees[t] in frees;
    var z := Scatter(BitsOf(k, |frees|), frees, n);
    v := BackSubstitute(G, b, pivots, z);
    CompleteSolves(G, b, pivots, z);
  }

  /** Counts through all values of the free columns: every solution appears exactly once. */
  method Enumerate(G: seq<Vec>, b: Vec, pivots: seq<nat>, frees: seq<nat>, n: nat) returns (all: seq<Vec>)
    requires Shape(G, b, n) && Reduced(G, pivots, n) && NoContradiction(b, |pivots|)
    requires frees == FreeCols(pivots, n)
    ensures |all| == Pow2(|frees|)
    ensures forall k :: 0 <= k < |all| ==> |all[k]| == n
    ensures forall k, l :: 0 <= k < l < |all| ==> all[k] != all[l]
    ensures forall v: Vec :: |v| == n ==> (v in all <==> Sat(G, b, v))
  {
    all := [];
    for k := 0 to Pow2(|frees|)
      invariant |all| == k
      invariant forall m :: 0 <= m < k ==> Spells(all[m], G, b, pivots, frees, n, m)
    {
      var v := SolutionFor(G, b, pivots, frees, n, k);
      all := all + [v];
    }
    forall k, l | 0 <= k < l < |all| ensures all[k] != all[l] {
      if all[k] == all[l] {
        SpelledOnce(all[k], G, b, pivots, frees, n, k, l);
      }
    }
    forall v: Vec | |v| == n ensures v in all <==> Sat(G, b, v) {
      if Sat(G, b, v) {
        var k := SpelledNumber(v, G, b, pivots, frees, n);
        SameSpelling(v, all[k], G, b, pivots, frees, n, k);
      }
    }
  }

  lemma SpelledOnce(v: Vec, G: seq<Vec>, b: Vec, pivots: seq<nat>, frees: seq<nat>, n: nat, k: nat, l: nat)
    requires Shape(G, b, n) && frees == FreeCols(pivots, n) && k < Pow2(|frees|) && l < Pow2(|frees|)
    requires Spells(v, G, b, pivots, frees, n, k) && Spells(v, G, b, pivots, frees, n, l)
    ensures k == l
  {
    FreeColsSpec(pivots, n);
    var f := |frees|;
    forall t | 0 <= t < f ensures BitsOf(k, f)[t] == BitsOf(l, f)[t] {
      assert frees[t] in frees;
    }
    assert BitsOf(k, f) == BitsOf(l, f);
    ValueOfBits(k, f);
    ValueOfBits(l, f);
  }

  lemma SpelledNumber(v: Vec, G: seq<Vec>, b: Vec, pivots: seq<nat>, frees: seq<nat>, n: nat) returns (k: nat)
    requires Shape(G, b, n) && frees == FreeCols(pivots, n) && |v| == n && Sat(G, b, v)
    ensures k < Pow2(|frees|) && Spells(v, G, b, pivots, frees, n, k)
  {
    FreeColsSpec(pivots, n);
    assert forall t :: 0 <= t < |frees| ==> frees[t] in frees;
    var w := seq(|frees|, t requires 0 <= t < |frees| => v[frees[t]]);
    k := ValueOf(w);
    ValueBounded(w);
    BitsOfValue(w);
  }

  lemma SameSpelling(v: Vec, w: Vec, G: seq<Vec>, b: Vec, pivots: seq<nat>, frees: seq<nat>, n: nat, k: nat)
    requires Shape(G, b, n) && Reduced(G, pivots, n) && frees == FreeCols(pivots, n)
    requires Spells(v, G, b, pivots, frees, n, k) && Spells(w, G, b, pivots, frees, n, k)
    ensures v == w
  {
    FreeColsSpec(pivots, n);
    forall j | 0 <= j < n && j !in pivots ensures v[j] == w[j] {
      assert j in frees;
      var t :| 0 <= t < |frees| && frees[t] == j;
    }
    FreeColumnsDecide(G, b, pivots, v, w);
  }
}
