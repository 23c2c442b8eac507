/** Quotients, remainders, the position `l * s + p` of slot `p` in line `l`, and sizes of finite sets. */
module Arithmetic {

  // ---- congruence modulo s ----

  lemma QuotientUnique(s: int, q: int, r: int, l: int, p: int)
    requires 0 <= r < s && 0 <= p < s && q * s + r == l * s + p
    ensures q == l && r == p
  {
    if q > l {
      MultipleAtLeast(q - l, s);
    } else if q < l {
      MultipleAtLeast(l - q, s);
    }
  }

  lemma MultipleAtLeast(k: int, s: int)
    requires k > 0 && s > 0
    ensures k * s >= s
  {
  }

  /** Adding a multiple of `s` does not change the remainder. */
  lemma AddMultiple(a: int, z: int, s: int)
    requires s > 0
    ensures (a + z * s) % s == a % s
  {
    var b := a + z * s;
    assert (b / s) * s + b % s == b && (a / s) * s + a % s == a;
    assert (a / s + z) * s == (a / s) * s + z * s;
    QuotientUnique(s, b / s, b % s, a / s + z, a % s);
  }

  /** Equal remainders mean a difference that is a multiple of `s`. */
  lemma DifferenceIsMultiple(a: int, b: int, s: int) returns (z: int)
    requires s > 0 && a % s == b % s
    ensures a == b + z * s
  {
    z := a / s - b / s;
    assert (a / s) * s + a % s == a && (b / s) * s + b % s == b;
    assert (a / s - b / s) * s == (a / s) * s - (b / s) * s;
  }

  lemma SmallRemainder(a: int, s: int)
    requires 0 <= a < s
    ensures a % s == a
  {
  }

  // ---- positions: slot `p` of line `l` ----

  lemma ProductGrows(k: nat, l: nat, s: nat)
    requires k <= l
    ensures k * s <= l * s
  {
    assert (l - k) * s >= 0;
    assert l * s == (l - k) * s + k * s;
  }

  lemma SlotDivides(s: nat, l: nat, p: nat)
    requires p < s
    ensures (l * s + p) / s == l && (l * s + p) % s == p
  {
    var v := l * s + p;
    assert v / s * s + v % s == v;
    QuotientUnique(s, v / s, v % s, l, p);
  }

  lemma SlotBelow(s: nat, l: nat, p: nat)
    requires l < s && p < s
    ensures l * s + p < s * s
  {
    LineBelow(s, l);
  }

  lemma SlotFits(s: nat, l: nat, p: nat)
    requires l < s && p < s
    ensures l * s + p < s * s
    ensures (l * s + p) / s == l && (l * s + p) % s == p
  {
    SlotBelow(s, l, p);
    SlotDivides(s, l, p);
  }

  lemma SlotOf(s: nat, q: nat)
    requires q < s * s
    ensures s > 0 && q / s < s && q % s < s && (q / s) * s + q % s == q
  {
    assert s > 0;
    var l := q / s;
    assert l * s <= q;
    if l >= s {
      ProductGrows(s, l, s);
    }
  }

  lemma LineBelow(s: nat, l: nat)
    requires l < s
    ensures l * s + s <= s * s
  {
    ProductGrows(l + 1, s, s);
    assert (l + 1) * s == l * s + s;
  }

  function Abs(d: int): nat {
    if d < 0 then -d else d
  }

  // ---- sizes ----

  lemma SubsetSize<T>(a: set<T>, b: set<T>)
    requires a <= b
    ensures |a| <= |b| && (|a| == |b| ==> a == b)
  {
    assert b == a + (b - a);
    if |a| == |b| {
      assert |b - a| == 0;
    }
  }
}
