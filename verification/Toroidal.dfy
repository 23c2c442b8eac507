/** Toroidal lines: line `k` of slope `p` has the cell (t, (k + p t) mod s) in every row t. */
module Toroidal {
  import opened Arithmetic

  // ---- greatest common divisor ----

  function Gcd(a: nat, b: nat): nat
    decreases b
  {
    if b == 0 then a else Gcd(b, a % b)
  }

  lemma {:induction false} Bezout(a: nat, b: nat) returns (u: int, v: int)
    ensures a * u + b * v == Gcd(a, b)
    decreases b
  {
    if b == 0 {
      u, v := 1, 0;
    } else {
      var x, y := Bezout(b, a % b);
      u, v := y, x - (a / b) * y;
      calc {
        a * u + b * v;
        == { Distribute(b, x, (a / b) * y); }
        a * y + b * x - b * ((a / b) * y);
        == { Associate(b, a / b, y); }
        b * x + (a - (a / b) * b) * y;
        == { assert a - (a / b) * b == a % b; }
        b * x + (a % b) * y;
      }
    }
  }

  lemma Distribute(b: int, x: int, z: int)
    ensures b * (x - z) == b * x - b * z
  {
  }

  lemma Associate(b: int, k: int, y: int)
    ensures b * (k * y) == (k * b) * y
  {
  }

  lemma {:induction false} GcdDivides(a: nat, b: nat) returns (x: nat, y: nat)
    requires a > 0 || b > 0
    ensures Gcd(a, b) > 0 && a == Gcd(a, b) * x && b == Gcd(a, b) * y
    decreases b
  {
    if b == 0 {
      x, y := 1, 0;
    } else {
      var m, n := GcdDivides(b, a % b);
      var g := Gcd(a, b);
      y := m;
      x := (a / b) * m + n;
      calc {
        a;
        == (a / b) * b + a % b;
        == (a / b) * (g * m) + g * n;
        == { Gather(a / b, g, m, n); }
        g * x;
      }
    }
  }

  lemma Gather(k: int, g: int, m: int, n: int)
    ensures k * (g * m) + g * n == g * (k * m + n)
  {
    Associate(g, k, m);
    assert g * (k * m) == (k * g) * m;
    assert k * (g * m) == (k * g) * m;
  }

  // ---- the line index ----

  /** Remainder truncated towards zero, as the language of the header has it. */
  function TruncatedMod(a: int, b: int): int
    requires b > 0
  {
    if a >= 0 then a % b else -((-a) % b)
  }

  /** The largest 32-bit signed integer. */
  const INT32_MAX: int := 0x7fff_ffff

  /** The product of slope and row has to fit the 32-bit arithmetic of the header. */
  function SlopeLineIndex(r: nat, c: nat, slope: nat, s: nat): (k: int)
    requires s > 0 && slope * r <= INT32_MAX
  {
    var val := c - slope * r;
    TruncatedMod(TruncatedMod(val, s) + s, s)
  }

  lemma IndexIsRemainder(r: nat, c: nat, slope: nat, s: nat)
    requires s > 0 && slope * r <= INT32_MAX
    ensures SlopeLineIndex(r, c, slope, s) == (c - slope * r) % s
  {
    var val := c - slope * r;
    if val >= 0 {
      AddMultiple(val % s, 1, s);
      SmallRemainder(val % s, s);
    } else {
      var w := (-val) % s;
      var z := DifferenceIsMultiple(-val, w, s) by { SmallRemainder(w, s); }
      assert val == -w + (-z) * s;
      AddMultiple(-w, -z, s);
      AddMultiple(-w, 1, s);
    }
  }

  // ---- lines partition the grid ----

  /** The column of line `k` of slope `p` in row `t`. */
  function LineCell(k: int, p: int, t: int, s: nat): (c: nat)
    requires s > 0
    ensures c < s
  {
    (k + p * t) % s
  }

  /** Cell (r, c) lies on line `k` exactly when `k` is its line index: every cell is on one line of each slope. */
  lemma OnLineIffIndex(r: nat, c: nat, p: nat, k: nat, s: nat)
    requires c < s && k < s && p * r <= INT32_MAX
    ensures LineCell(k, p, r, s) == c <==> k == SlopeLineIndex(r, c, p, s)
  {
    IndexIsRemainder(r, c, p, s);
    SmallRemainder(c, s);
    SmallRemainder(k, s);
    if LineCell(k, p, r, s) == c {
      var z := DifferenceIsMultiple(k + p * r, c, s);
      AddMultiple(c - p * r, z, s);
    }
    if k == (c - p * r) % s {
      var z := DifferenceIsMultiple(k, c - p * r, s);
      AddMultiple(c, z, s);
    }
  }

  ghost predicate IsLine(cells: seq<(nat, nat)>, k: int, p: int, s: nat)
    requires s > 0
  {
    |cells| == s && forall t: nat :: t < s ==> cells[t] == (t, LineCell(k, p, t, s))
  }

  /** The two families of the wrapped diagonals: slope 1, and slope s - 1 written as k - r. */
  method ToroidalFamily(s: nat, falling: bool) returns (members: seq<seq<(nat, nat)>>)
    requires s > 0
    ensures |members| == s
    ensures forall k :: 0 <= k < s ==> IsLine(members[k], k, if falling then s - 1 else 1, s)
  {
    members := [];
    for k := 0 to s
      invariant |members| == k
      invariant forall l :: 0 <= l < k ==> IsLine(members[l], l, if falling then s - 1 else 1, s)
    {
      var line: seq<(nat, nat)> := [];
      for r := 0 to s
        invariant |line| == r
        invariant forall t: nat :: t < r ==> line[t] == (t, LineCell(k, if falling then s - 1 else 1, t, s))
      {
        var c := if falling then (k - r) % s else (k + r) % s;
        FallingSlope(k, r, s);
        line := line + [(r, c)];
      }
      members := members + [line];
    }
  }

  /** Going down by one column a row is slope s - 1. */
  lemma FallingSlope(k: int, r: int, s: nat)
    requires s > 0
    ensures (k - r) % s == LineCell(k, s - 1, r, s) && (k + r) % s == LineCell(k, 1, r, s)
  {
    AddMultiple(k - r, r, s);
    assert k + (s - 1) * r == k - r + r * s;
    assert 1 * r == r;
  }

  // ---- two lines of different slope ----

  ghost predicate Meet(k: int, p: int, m: int, q: int, t: int, s: nat)
    requires s > 0
  {
    0 <= t < s && LineCell(k, p, t, s) == LineCell(m, q, t, s)
  }

  ghost predicate MeetOnce(k: int, p: int, m: int, q: int, s: nat)
    requires s > 0
  {
    exists t :: Meet(k, p, m, q, t, s) && forall w :: Meet(k, p, m, q, w, s) ==> w == t
  }

  /** In row `t` the two columns differ by (p - q) t - (m - k). */
  lemma MeetIffMultiple(k: int, p: int, m: int, q: int, t: int, s: nat) returns (z: int)
    requires s > 0 && Meet(k, p, m, q, t, s)
    ensures (p - q) * t == (m - k) + z * s
  {
    z := DifferenceIsMultiple(k + p * t, m + q * t, s);
    Distribute(t, p, q);
  }

  lemma MultipleMeets(k: int, p: int, m: int, q: int, t: int, s: nat, z: int)
    requires s > 0 && 0 <= t < s && (p - q) * t == (m - k) + z * s
    ensures Meet(k, p, m, q, t, s)
  {
    Distribute(t, p, q);
    AddMultiple(m + q * t, z, s);
  }

  /** When the slope difference is prime to `s`, it has an inverse modulo `s`. */
  lemma InverseOf(d: int, s: nat) returns (u: int, v: int)
    requires Gcd(Abs(d), s) == 1
    ensures d * u == 1 + v * s
  {
    var x, y := Bezout(Abs(d), s);
    u, v := if d < 0 then -x else x, -y;
    assert d * u == Abs(d) * x;
  }

  lemma Rearrange(d: int, u: int, v: int, s: int, e: int, z: int)
    requires d * u == 1 + v * s
    ensures d * (e * u - z * s) == e + (v * e - d * z) * s
  {
    calc {
      d * (e * u - z * s);
      == { Distribute(d, e * u, z * s); }
      d * (e * u) - d * (z * s);
      == { Associate(d, e, u); assert d * (e * u) == e * (d * u); }
      e * (1 + v * s) - d * (z * s);
      == { Associate(e, v, s); assert e * (v * s) == (v * e) * s; }
      e + (v * e) * s - d * (z * s);
      == { assert d * (z * s) == (d * z) * s; }
      e + (v * e) * s - (d * z) * s;
      == { assert (v * e - d * z) * s == (v * e) * s - (d * z) * s; }
      e + (v * e - d * z) * s;
    }
  }

  lemma CoprimeMeet(k: int, p: int, m: int, q: int, s: nat) returns (t: int)
    requires s > 0 && Gcd(Abs(p - q), s) == 1
    ensures Meet(k, p, m, q, t, s)
  {
    var d, e := p - q, m - k;
    var u, v := InverseOf(d, s);
    t := (e * u) % s;
    SmallRemainder(t, s);
    var z := DifferenceIsMultiple(e * u, t, s);
    Rearrange(d, u, v, s, e, z);
    MultipleMeets(k, p, m, q, t, s, v * e - d * z);
  }

  lemma MeetingUnique(k: int, p: int, m: int, q: int, s: nat, w: int, t: int)
    requires s > 0 && Gcd(Abs(p - q), s) == 1
    requires Meet(k, p, m, q, w, s) && Meet(k, p, m, q, t, s)
    ensures w == t
  {
    var u, v := InverseOf(p - q, s);
    var a := MeetIffMultiple(k, p, m, q, w, s);
    var b := MeetIffMultiple(k, p, m, q, t, s);
    assert (a - b) * s == a * s - b * s;
    Cancel(p - q, u, v, s, w, t, a - b);
  }

  lemma CoprimeMeetOnce(k: int, p: int, m: int, q: int, s: nat)
    requires s > 0 && Gcd(Abs(p - q), s) == 1
    ensures MeetOnce(k, p, m, q, s)
  {
    var t := CoprimeMeet(k, p, m, q, s);
    MeetOnlyAt(k, p, m, q, s, t);
    OnlyMeeting(k, p, m, q, s, t);
  }

  ghost predicate OnlyAt(k: int, p: int, m: int, q: int, s: nat, t: int)
    requires s > 0
  {
    forall w :: Meet(k, p, m, q, w, s) ==> w == t
  }

  lemma MeetOnlyAt(k: int, p: int, m: int, q: int, s: nat, t: int)
    requires s > 0 && Gcd(Abs(p - q), s) == 1 && Meet(k, p, m, q, t, s)
    ensures OnlyAt(k, p, m, q, s, t)
  {
    forall w | Meet(k, p, m, q, w, s) ensures w == t {
      MeetingUnique(k, p, m, q, s, w, t);
    }
  }

  lemma OnlyMeeting(k: int, p: int, m: int, q: int, s: nat, t: int)
    requires s > 0 && Meet(k, p, m, q, t, s) && OnlyAt(k, p, m, q, s, t)
    ensures MeetOnce(k, p, m, q, s)
  {
  }

  /** An invertible factor can be cancelled modulo `s`. */
  lemma Cancel(d: int, u: int, v: int, s: nat, w: int, t: int, a: int)
    requires s > 0 && d * u == 1 + v * s && 0 <= w < s && 0 <= t < s
    requires d * w - d * t == a * s
    ensures w == t
  {
    var x := w - t;
    Distribute(d, w, t);
    calc {
      (u * a) * s;
      == { Associate(u, a, s); }
      u * (d * x);
      == { Associate(u, d, x); assert (d * u) * x == u * (d * x); }
      (1 + v * s) * x;
      == { assert (v * s) * x == (v * x) * s; }
      x + (v * x) * s;
    }
    assert x == (u * a - v * x) * s by {
      assert (u * a - v * x) * s == (u * a) * s - (v * x) * s;
    }
    SmallMultiple(x, u * a - v * x, s);
  }

  lemma SmallMultiple(x: int, k: int, s: int)
    requires s > 0 && x == k * s && -s < x < s
    ensures x == 0
  {
    if k > 0 {
      MultipleAtLeast(k, s);
    } else if k < 0 {
      MultipleAtLeast(-k, s);
    }
  }

  lemma ProperDivisor(g: nat, y: nat)
    requires g > 1 && y > 0
    ensures y < g * y
  {
    MultipleAtLeast(g - 1, y);
    assert g * y == (g - 1) * y + y;
  }

  /** With a common factor g > 1 the slopes differ by a multiple of `s` over s / g rows. */
  lemma SecondRow(d: int, s: nat) returns (y: nat, z: int)
    requires s > 0 && Gcd(Abs(d), s) != 1
    ensures 0 < y < s && d * y == z * s
  {
    var g := Gcd(Abs(d), s);
    var x: int;
    x, y := GcdDivides(Abs(d), s);
    ProperDivisor(g, y);
    z := if d < 0 then -x else x;
    CrossMultiply(d, g, x, y, s, z);
  }

  lemma CrossMultiply(d: int, g: int, x: int, y: int, s: int, z: int)
    requires Abs(d) == g * x && s == g * y && z == if d < 0 then -x else x
    ensures d * y == z * s
  {
    Associate(y, g, x);
    assert Abs(d) * y == (g * x) * y == x * (g * y);
    if d < 0 {
      assert d * y == -(Abs(d) * y);
      assert z * s == -(x * s);
    }
  }

  lemma TwoMeetings(k: int, p: int, m: int, q: int, s: nat, t: int, w: int)
    requires s > 0 && Meet(k, p, m, q, t, s) && Meet(k, p, m, q, w, s) && t != w
    ensures !MeetOnce(k, p, m, q, s)
  {
  }

  /** With a common factor g > 1, line 0 of both slopes meets itself again in row s / g. */
  lemma CommonFactorMeetsTwice(p: int, q: int, s: nat)
    requires s > 0 && Gcd(Abs(p - q), s) != 1
    ensures !MeetOnce(0, p, 0, q, s)
  {
    var y, z := SecondRow(p - q, s);
    ZeroMeets(p, q, s);
    MultipleMeets(0, p, 0, q, y, s, z);
    TwoMeetings(0, p, 0, q, s, 0, y);
  }

  lemma ZeroMeets(p: int, q: int, s: nat)
    requires s > 0
    ensures Meet(0, p, 0, q, 0, s)
  {
    assert p * 0 == 0 && q * 0 == 0;
  }

  /** Lines of slopes `p` and `q` always meet in exactly one cell if and only if p - q is prime to s. */
  lemma MeetOnceIffCoprime(p: int, q: int, s: nat)
    requires s > 0
    ensures (forall k, m :: 0 <= k < s && 0 <= m < s ==> MeetOnce(k, p, m, q, s)) <==> Gcd(Abs(p - q), s) == 1
  {
    if Gcd(Abs(p - q), s) == 1 {
      forall k, m | 0 <= k < s && 0 <= m < s ensures MeetOnce(k, p, m, q, s) {
        CoprimeMeetOnce(k, p, m, q, s);
      }
    } else {
      CommonFactorMeetsTwice(p, q, s);
    }
  }
}
