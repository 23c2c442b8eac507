/** Vectors, inner products and linear systems over GF(2).
    A bit is a `bool`, exclusive or is `!=`. */
module Gf2 {

  type Vec = seq<bool>

  function BitToInt(b: bool): (k: nat)
    ensures k <= 1
  {
    if b then 1 else 0
  }

  function Zero(n: nat): (z: Vec)
    ensures |z| == n && forall j :: 0 <= j < n ==> !z[j]
  {
    seq(n, _ => false)
  }

  function Xor(x: Vec, y: Vec): (z: Vec)
    requires |x| == |y|
    ensures |z| == |x| && forall j :: 0 <= j < |x| ==> z[j] == (x[j] != y[j])
  {
    seq(|x|, j requires 0 <= j < |x| => x[j] != y[j])
  }

  /** The inner product of the first `k` coordinates. */
  function DotTo(a: Vec, x: Vec, k: nat): bool
    requires k <= |a| && k <= |x|
  {
    if k == 0 then false else DotTo(a, x, k - 1) != (a[k - 1] && x[k - 1])
  }

  function Dot(a: Vec, x: Vec): bool
    requires |a| == |x|
  {
    DotTo(a, x, |a|)
  }

  /** The low `n` bits of `v`. */
  function BitsOf(v: nat, n: nat): (w: Vec)
    ensures |w| == n
  {
    if n == 0 then [] else [v % 2 == 1] + BitsOf(v / 2, n - 1)
  }

  /** Number of ones among the first `k` coordinates. */
  function WeightTo(x: Vec, k: nat): (w: nat)
    requires k <= |x|
    ensures w <= k
  {
    if k == 0 then 0 else WeightTo(x, k - 1) + BitToInt(x[k - 1])
  }

  function Weight(x: Vec): (w: nat)
    ensures w <= |x|
  {
    WeightTo(x, |x|)
  }

  /** A matrix whose rows all have `n` columns. */
  ghost predicate Shape(G: seq<Vec>, b: Vec, n: nat) {
    |G| == |b| && forall i :: 0 <= i < |G| ==> |G[i]| == n
  }

  /** `x` satisfies every equation `G[i] . x = b[i]`. */
  ghost predicate Sat(G: seq<Vec>, b: Vec, x: Vec)
    requires Shape(G, b, |x|)
  {
    forall i :: 0 <= i < |G| ==> Dot(G[i], x) == b[i]
  }

  ghost predicate SameSolutions(G: seq<Vec>, b: Vec, H: seq<Vec>, c: Vec, n: nat)
    requires Shape(G, b, n) && Shape(H, c, n)
  {
    forall x: Vec :: |x| == n ==> (Sat(G, b, x) <==> Sat(H, c, x))
  }

  // ---- the inner product is bilinear ----

  lemma {:induction false} DotXorLeftTo(a: Vec, b: Vec, x: Vec, k: nat)
    requires |a| == |b| == |x| && k <= |x|
    ensures DotTo(Xor(a, b), x, k) == (DotTo(a, x, k) != DotTo(b, x, k))
  {
    if k > 0 {
      DotXorLeftTo(a, b, x, k - 1);
    }
  }

  lemma {:induction false} DotXorLeft(a: Vec, b: Vec, x: Vec)
    requires |a| == |b| == |x|
    ensures Dot(Xor(a, b), x) == (Dot(a, x) != Dot(b, x))
  {
    DotXorLeftTo(a, b, x, |x|);
  }

  lemma {:induction false} DotSymmetricTo(a: Vec, x: Vec, k: nat)
    requires |a| == |x| && k <= |x|
    ensures DotTo(a, x, k) == DotTo(x, a, k)
  {
    if k > 0 {
      DotSymmetricTo(a, x, k - 1);
    }
  }

  lemma {:induction false} DotXorRight(a: Vec, x: Vec, y: Vec)
    requires |a| == |x| == |y|
    ensures Dot(a, Xor(x, y)) == (Dot(a, x) != Dot(a, y))
  {
    DotSymmetricTo(a, Xor(x, y), |a|);
    DotSymmetricTo(a, x, |a|);
    DotSymmetricTo(a, y, |a|);
    DotXorLeft(x, y, a);
  }

  /** Two vectors that agree wherever `a` is one have the same product with `a`. */
  lemma {:induction false} DotAgreeTo(a: Vec, x: Vec, b: Vec, y: Vec, k: nat)
    requires k <= |a| && k <= |x| && k <= |b| && k <= |y|
    requires forall j :: 0 <= j < k ==> (a[j] && x[j]) == (b[j] && y[j])
    ensures DotTo(a, x, k) == DotTo(b, y, k)
  {
    if k > 0 {
      DotAgreeTo(a, x, b, y, k - 1);
    }
  }

  lemma {:induction false} DotZeroTo(a: Vec, x: Vec, k: nat)
    requires k <= |a| && k <= |x|
    requires forall j :: 0 <= j < k ==> !(a[j] && x[j])
    ensures !DotTo(a, x, k)
  {
    if k > 0 {
      DotZeroTo(a, x, k - 1);
    }
  }

  /** Clearing one coefficient removes exactly its term. */
  lemma {:induction false} DotClearTo(a: Vec, x: Vec, j: nat, k: nat)
    requires |a| == |x| && j < |a| && k <= |a|
    ensures DotTo(a[j := false], x, k) == (DotTo(a, x, k) != (j < k && a[j] && x[j]))
  {
    if k > 0 {
      DotClearTo(a, x, j, k - 1);
    }
  }

  // ---- elementary row operations keep the solution set ----

  lemma {:induction false} SwapKeepsSolutions(G: seq<Vec>, b: Vec, n: nat, p: nat, q: nat)
    requires Shape(G, b, n) && p < |G| && q < |G|
    ensures Shape(G[p := G[q]][q := G[p]], b[p := b[q]][q := b[p]], n)
    ensures SameSolutions(G, b, G[p := G[q]][q := G[p]], b[p := b[q]][q := b[p]], n)
  {
    var H, c := G[p := G[q]][q := G[p]], b[p := b[q]][q := b[p]];
    forall x: Vec | |x| == n
      ensures Sat(G, b, x) <==> Sat(H, c, x)
    {
      if Sat(H, c, x) {
        assert Dot(H[p], x) == c[p] && Dot(H[q], x) == c[q];
        forall i | 0 <= i < |G| ensures Dot(G[i], x) == b[i] {
          assert Dot(H[i], x) == c[i];
        }
      }
    }
  }
}
