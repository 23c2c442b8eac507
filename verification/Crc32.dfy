/** CRC-32 as defined in section 8 of RFC 1952, and the affine map it induces on the bits of a row.
    Words and bytes are bit vectors, least significant bit first. */
module Crc32 {
  import opened Gf2

  type Word = w: Vec | |w| == 32 witness Zero(32)
  type Byte = b: Vec | |b| == 8 witness Zero(8)

  const POLYNOMIAL: Word := BitsOf(0xedb88320, 32)
  const ALL_ONES: Word := BitsOf(0xffffffff, 32)

  function ShiftRight(c: Word, k: nat): Word
    requires k <= 32
  {
    c[k..] + Zero(k)
  }

  function Widen(b: Byte): Word {
    b + Zero(24)
  }

  function LowByte(c: Word): Word {
    c[..8] + Zero(24)
  }

  function Shift(c: Word): Word {
    if c[0] then Xor(POLYNOMIAL, ShiftRight(c, 1)) else ShiftRight(c, 1)
  }

  function ShiftMany(c: Word, k: nat): Word {
    if k == 0 then c else Shift(ShiftMany(c, k - 1))
  }

  /** Entry `c` of the CRC table. */
  function Table(c: Word): Word {
    ShiftMany(c, 8)
  }

  function Step(c: Word, b: Byte): Word {
    Xor(Table(LowByte(Xor(c, Widen(b)))), ShiftRight(c, 8))
  }

  function Raw(c: Word, msg: seq<Byte>): Word {
    if msg == [] then c else Step(Raw(c, msg[..|msg| - 1]), msg[|msg| - 1])
  }

  function Crc(msg: seq<Byte>): Word {
    Xor(Raw(ALL_ONES, msg), ALL_ONES)
  }

  // ---- linearity ----

  function XorBytes(x: seq<Byte>, y: seq<Byte>): (z: seq<Byte>)
    requires |x| == |y|
    ensures |z| == |x| && forall k :: 0 <= k < |x| ==> z[k] == Xor(x[k], y[k])
  {
    seq(|x|, k requires 0 <= k < |x| => Xor(x[k], y[k]))
  }

  lemma XorSwap(a: Vec, b: Vec, c: Vec, d: Vec)
    requires |a| == |b| == |c| == |d|
    ensures Xor(Xor(a, b), Xor(c, d)) == Xor(Xor(a, c), Xor(b, d))
  {
  }

  lemma ShiftRightLinear(a: Word, b: Word, k: nat)
    requires k <= 32
    ensures ShiftRight(Xor(a, b), k) == Xor(ShiftRight(a, k), ShiftRight(b, k))
  {
  }

  lemma ShiftLinear(a: Word, b: Word)
    ensures Shift(Xor(a, b)) == Xor(Shift(a), Shift(b))
  {
    ShiftRightLinear(a, b, 1);
  }

  lemma {:induction false} ShiftManyLinear(a: Word, b: Word, k: nat)
    ensures ShiftMany(Xor(a, b), k) == Xor(ShiftMany(a, k), ShiftMany(b, k))
  {
    if k > 0 {
      ShiftManyLinear(a, b, k - 1);
      ShiftLinear(ShiftMany(a, k - 1), ShiftMany(b, k - 1));
    }
  }

  lemma StepLinear(c: Word, d: Word, x: Byte, y: Byte)
    ensures Step(Xor(c, d), Xor(x, y)) == Xor(Step(c, x), Step(d, y))
  {
    var s, t := LowByte(Xor(c, Widen(x))), LowByte(Xor(d, Widen(y)));
    assert LowByte(Xor(Xor(c, d), Widen(Xor(x, y)))) == Xor(s, t);
    ShiftManyLinear(s, t, 8);
    ShiftRightLinear(c, d, 8);
    XorSwap(Table(s), Table(t), ShiftRight(c, 8), ShiftRight(d, 8));
  }

  lemma {:induction false} RawLinear(c: Word, d: Word, x: seq<Byte>, y: seq<Byte>)
    requires |x| == |y|
    ensures Raw(Xor(c, d), XorBytes(x, y)) == Xor(Raw(c, x), Raw(d, y))
  {
    if x != [] {
      var k := |x| - 1;
      assert XorBytes(x, y)[..k] == XorBytes(x[..k], y[..k]);
      RawLinear(c, d, x[..k], y[..k]);
      StepLinear(Raw(c, x[..k]), Raw(d, y[..k]), x[k], y[k]);
    } else {
      assert XorBytes(x, y) == [];
    }
  }

  /** CRC-32 is affine: for messages of one length, crc(x + y) = crc(x) + crc(y) + crc(0). */
  lemma CrcAffine(x: seq<Byte>, y: seq<Byte>, z: seq<Byte>)
    requires |x| == |y| == |z| && forall k :: 0 <= k < |z| ==> z[k] == Zero(8)
    ensures Crc(XorBytes(x, y)) == Xor(Xor(Crc(x), Crc(y)), Crc(z))
  {
    var m := XorBytes(x, y);
    forall k | 0 <= k < |y| ensures XorBytes(y, z)[k] == y[k] {
      assert Xor(y[k], z[k]) == y[k];
    }
    assert XorBytes(y, z) == y;
    var e: Word := Zero(32);
    RawLinear(ALL_ONES, e, x, y);
    assert Xor(ALL_ONES, e) == ALL_ONES;
    RawLinear(e, ALL_ONES, y, z);
    assert Xor(e, ALL_ONES) == ALL_ONES;
    var rx, ry, rz, ey := Raw(ALL_ONES, x), Raw(ALL_ONES, y), Raw(ALL_ONES, z), Raw(e, y);
    assert Raw(ALL_ONES, m) == Xor(rx, ey) && ry == Xor(ey, rz);
    forall i | 0 <= i < 32 ensures Crc(m)[i] == Xor(Xor(Crc(x), Crc(y)), Crc(z))[i] {
    }
  }

  // ---- rows as messages ----

  /** Bit `7 - c % 8` of byte `c / 8` holds column `c`. */
  ghost predicate Packs(msg: seq<Byte>, bits: Vec) {
    && |msg| == (|bits| + 8) / 8
    && forall k, p :: 0 <= k < |msg| && 0 <= p < 8 ==>
         msg[k][p] == (8 * k + 7 - p < |bits| && bits[8 * k + 7 - p])
  }

  function Pack(bits: Vec): (msg: seq<Byte>)
    ensures Packs(msg, bits)
  {
    seq((|bits| + 8) / 8, k requires 0 <= k => PackByte(bits, k))
  }

  function PackByte(bits: Vec, k: nat): (b: Byte)
    ensures forall p :: 0 <= p < 8 ==> b[p] == (8 * k + 7 - p < |bits| && bits[8 * k + 7 - p])
  {
    seq(8, p requires 0 <= p < 8 => 8 * k + 7 - p < |bits| && bits[8 * k + 7 - p])
  }

  lemma PackUnique(m: seq<Byte>, bits: Vec)
    requires Packs(m, bits)
    ensures m == Pack(bits)
  {
    forall k | 0 <= k < |m| ensures m[k] == Pack(bits)[k] {
    }
  }

  /** Writes the ones of a row into a zeroed message, column by column. */
  method PackRow(bits: Vec) returns (msg: array<Byte>)
    ensures fresh(msg) && msg[..] == Pack(bits)
  {
    msg := new Byte[(|bits| + 8) / 8](_ => Zero(8));
    for c := 0 to |bits|
      invariant forall k, p :: 0 <= k < msg.Length && 0 <= p < 8 ==>
        msg[k][p] == (8 * k + 7 - p < c && bits[8 * k + 7 - p])
    {
      if bits[c] {
        msg[c / 8] := msg[c / 8][7 - c % 8 := true];
      }
    }
    PackUnique(msg[..], bits);
  }

  /** The CRC of a row of bits, most significant bit first, as the equations read it. */
  function RowCrc(x: Vec): (h: Vec)
    ensures |h| == 32
  {
    Reversed(Crc(Pack(x)))
  }

  /** The bits of a word, most significant first. */
  function Reversed(w: Word): (h: Vec)
    ensures |h| == 32
  {
    seq(32, i requires 0 <= i < 32 => w[31 - i])
  }

  // ---- affine maps, determined by probing ----

  function Unit(n: nat, c: nat): (x: Vec)
    requires c < n
    ensures |x| == n && forall j :: 0 <= j < n ==> (x[j] <==> j == c)
  {
    Zero(n)[c := true]
  }

  /** On rows of length `n`, `f` yields 32 bits and f(x + y) = f(x) + f(y) + f(0). */
  ghost predicate AffineOn(f: Vec -> Vec, n: nat) {
    && (forall x: Vec :: |x| == n ==> |f(x)| == 32)
    && forall x: Vec, y: Vec {:trigger f(Xor(x, y))} ::
         |x| == n && |y| == n ==> f(Xor(x, y)) == Xor(Xor(f(x), f(y)), f(Zero(n)))
  }

  /** `G[i][c]` is bit `i` of `f` at the unit row `c` against that at the zero row. */
  ghost predicate IsGenerator(f: Vec -> Vec, G: seq<Vec>, n: nat) {
    && |G| == 32
    && (forall i :: 0 <= i < 32 ==> |G[i]| == n)
    && (forall x: Vec :: |x| == n ==> |f(x)| == 32)
    && forall i, c :: 0 <= i < 32 && 0 <= c < n ==> G[i][c] == (f(Unit(n, c))[i] != f(Zero(n))[i])
  }

  /** Generator matrix and constant, found by probing the zero row and every unit row. */
  method BuildGenerator(f: Vec -> Vec, n: nat) returns (G: seq<Vec>, c0: Vec)
    requires forall x: Vec :: |x| == n ==> |f(x)| == 32
    ensures IsGenerator(f, G, n) && c0 == f(Zero(n))
  {
    c0 := f(Zero(n));
    G := seq(32, _ => Zero(n));
    for col := 0 to n
      invariant |G| == 32 && forall i :: 0 <= i < 32 ==> |G[i]| == n
      invariant forall i, c :: 0 <= i < 32 && 0 <= c < col ==> G[i][c] == (f(Unit(n, c))[i] != c0[i])
    {
      var one := f(Unit(n, col));
      G := seq(32, i requires 0 <= i < 32 => G[i][col := one[i] != c0[i]]);
    }
  }

  /** The first `k` columns of a row, the rest cleared. */
  function Prefix(x: Vec, k: nat): (y: Vec)
    requires k <= |x|
    ensures |y| == |x| && forall j :: 0 <= j < |x| ==> y[j] == (j < k && x[j])
  {
    seq(|x|, j requires 0 <= j < |x| => j < k && x[j])
  }

  lemma {:induction false} PrefixMap(f: Vec -> Vec, G: seq<Vec>, x: Vec, k: nat)
    requires AffineOn(f, |x|) && IsGenerator(f, G, |x|) && k <= |x|
    ensures forall i :: 0 <= i < 32 ==> f(Prefix(x, k))[i] == (DotTo(G[i], x, k) != f(Zero(|x|))[i])
  {
    if k == 0 {
      assert Prefix(x, 0) == Zero(|x|);
    } else {
      PrefixMap(f, G, x, k - 1);
      if x[k - 1] {
        assert Prefix(x, k) == Xor(Prefix(x, k - 1), Unit(|x|, k - 1));
      } else {
        assert Prefix(x, k) == Prefix(x, k - 1);
      }
    }
  }

  /** An affine map is `G . x + c`, with `G` and `c` found by probing. */
  lemma AffineMap(f: Vec -> Vec, G: seq<Vec>, x: Vec)
    requires AffineOn(f, |x|) && IsGenerator(f, G, |x|)
    ensures forall i :: 0 <= i < 32 ==> f(x)[i] == (Dot(G[i], x) != f(Zero(|x|))[i])
  {
    PrefixMap(f, G, x, |x|);
    assert Prefix(x, |x|) == x;
  }

  /** A row meets its 32 equations exactly when its check value is the stored one. */
  lemma EquationsIffEqual(f: Vec -> Vec, G: seq<Vec>, x: Vec, h: Vec)
    requires AffineOn(f, |x|) && IsGenerator(f, G, |x|) && |h| == 32
    ensures f(x) == h <==> forall i :: 0 <= i < 32 ==> Dot(G[i], x) == (h[i] != f(Zero(|x|))[i])
  {
    AffineMap(f, G, x);
    if forall i :: 0 <= i < 32 ==> Dot(G[i], x) == (h[i] != f(Zero(|x|))[i]) {
      assert f(x) == h;
    }
  }

  // ---- the CRC of a row ----

  lemma RowCrcXor(x: Vec, y: Vec)
    requires |x| == |y|
    ensures RowCrc(Xor(x, y)) == Xor(Xor(RowCrc(x), RowCrc(y)), RowCrc(Zero(|x|)))
  {
    var z := Zero(|x|);
    forall k | 0 <= k < |Pack(z)| ensures Pack(z)[k] == Zero(8) {
    }
    forall k | 0 <= k < |Pack(x)| ensures Pack(Xor(x, y))[k] == XorBytes(Pack(x), Pack(y))[k] {
    }
    assert Pack(Xor(x, y)) == XorBytes(Pack(x), Pack(y));
    CrcAffine(Pack(x), Pack(y), Pack(z));
  }

  /** The CRC-32 of rows of any fixed length is affine. */
  lemma RowCrcIsAffine(n: nat)
    ensures AffineOn(RowCrc, n)
  {
    forall x: Vec, y: Vec | |x| == n && |y| == n
      ensures RowCrc(Xor(x, y)) == Xor(Xor(RowCrc(x), RowCrc(y)), RowCrc(Zero(n)))
    {
      RowCrcXor(x, y);
    }
  }

  /** A row meets the 32 probed equations exactly when its CRC-32 is the stored one. */
  lemma CrcEquations(G: seq<Vec>, x: Vec, h: Vec)
    requires IsGenerator(RowCrc, G, |x|) && |h| == 32
    ensures RowCrc(x) == h <==> forall i :: 0 <= i < 32 ==> Dot(G[i], x) == (h[i] != RowCrc(Zero(|x|))[i])
  {
    RowCrcIsAffine(|x|);
    EquationsIffEqual(RowCrc, G, x, h);
  }

  // ---- the first columns of short rows ----

  lemma {:induction false} ShiftsDown(m: nat, k: nat)
    requires k <= m < 32
    ensures ShiftMany(Unit(32, m), k) == Unit(32, m - k)
  {
    if k > 0 {
      ShiftsDown(m, k - 1);
      ShiftUnit(m - k + 1);
    }
  }

  lemma ShiftUnit(m: nat)
    requires 0 < m < 32
    ensures Shift(Unit(32, m)) == Unit(32, m - 1)
  {
  }

  /** In a row of one byte, setting column `c` changes the CRC by the table entry of its bit. */
  lemma FirstByteColumn(n: nat, c: nat, bit: Word)
    requires c < n < 8 && bit == Unit(32, 7 - c)
    ensures forall i :: 0 <= i < 32 ==> (RowCrc(Unit(n, c))[i] != RowCrc(Zero(n))[i]) == Reversed(Table(bit))[i]
  {
    var zero, one: Byte := Zero(8), Unit(8, 7 - c);
    OnePacked(n, c, zero, one);
    assert Widen(one) == bit;
    OneByte(ALL_ONES, zero, one);
    ReversedDifference(Crc([zero]), Crc([one]), Table(bit));
  }

  lemma ReversedDifference(a: Word, b: Word, d: Word)
    requires b == Xor(a, d)
    ensures forall i :: 0 <= i < 32 ==> (Reversed(b)[i] != Reversed(a)[i]) == Reversed(d)[i]
  {
  }

  lemma OnePacked(n: nat, c: nat, zero: Byte, one: Byte)
    requires c < n < 8 && zero == Zero(8) && one == Unit(8, 7 - c)
    ensures Pack(Zero(n)) == [zero] && Pack(Unit(n, c)) == [one]
  {
    PackUnique([zero], Zero(n));
    PackUnique([one], Unit(n, c));
  }

  lemma OneByte(ones: Word, zero: Byte, b: Byte)
    requires ones == ALL_ONES && zero == Zero(8)
    ensures Crc([b]) == Xor(Crc([zero]), Table(Widen(b)))
  {
    var e: Word := Zero(32);
    StepLinear(ones, e, zero, b);
    StepFromZero(e, b);
    assert Xor(ones, e) == ones && Xor(zero, b) == b;
    OneStep(ones, b);
    OneStep(ones, zero);
    assert Step(ones, b) == Xor(Step(ones, zero), Table(Widen(b)));
  }

  lemma StepFromZero(e: Word, b: Byte)
    requires e == Zero(32)
    ensures Step(e, b) == Table(Widen(b))
  {
    assert LowByte(Xor(e, Widen(b))) == Widen(b) && ShiftRight(e, 8) == e;
    var t := Table(Widen(b));
    assert Xor(t, e) == t;
  }

  lemma OneStep(ones: Word, b: Byte)
    requires ones == ALL_ONES
    ensures Crc([b]) == Xor(Step(ones, b), ones)
  {
    RawOne(ones, [b]);
  }

  lemma RawOne(c: Word, msg: seq<Byte>)
    requires |msg| == 1
    ensures Raw(c, msg) == Step(c, msg[0])
  {
    assert Raw(c, msg[..0]) == c;
  }

  function Halved(v: nat, k: nat): nat {
    if k == 0 then v else Halved(v / 2, k - 1)
  }

  lemma {:induction false} BitAt(v: nat, n: nat, k: nat)
    requires k < n
    ensures BitsOf(v, n)[k] <==> Halved(v, k) % 2 == 1
  {
    if k > 0 {
      BitAt(v / 2, n - 1, k - 1);
    }
  }

  lemma HalvedEight(v: nat, k: nat)
    ensures Halved(v, k + 8) == Halved(v / 256, k)
  {
    assert Halved(v, k + 8) == Halved(v / 2, k + 7) == Halved(v / 4, k + 6) == Halved(v / 8, k + 5);
    assert Halved(v / 8, k + 5) == Halved(v / 16, k + 4) == Halved(v / 32, k + 3) == Halved(v / 64, k + 2);
    assert Halved(v / 64, k + 2) == Halved(v / 128, k + 1) == Halved(v / 256, k);
  }

  lemma LowBit(v: nat, poly: Word)
    requires v == 0xedb88320 && poly == BitsOf(v, 32)
    ensures !poly[0]
  {
    BitAt(v, 32, 0);
  }

  lemma HighBit(v: nat, poly: Word, k: nat)
    requires v == 0xedb88320 && poly == BitsOf(v, 32) && 30 <= k < 32
    ensures poly[k]
  {
    BitAt(v, 32, k);
    HalvedEight(v, k - 8);
    HalvedEight(v / 256, k - 16);
    HalvedEight(v / 256 / 256, k - 24);
    HighByte(v / 256 / 256 / 256, k - 24);
  }

  lemma HighByte(b: nat, k: nat)
    requires b == 0xed && 6 <= k < 8
    ensures Halved(b, k) % 2 == 1
  {
    assert Halved(b, k) == Halved(b / 2, k - 1) == Halved(b / 4, k - 2) == Halved(b / 8, k - 3);
    assert Halved(b / 8, k - 3) == Halved(b / 16, k - 4) == Halved(b / 32, k - 5) == Halved(b / 64, k - 6);
  }

  /** The table entries of bits 7 and 6. */
  lemma HighEntries(poly: Word, c: Word, m: nat)
    requires poly == POLYNOMIAL && !poly[0] && 6 <= m < 8 && c == Unit(32, m)
    ensures Table(c) == if m == 7 then poly else ShiftRight(poly, 1)
  {
    ShiftsDown(m, m);
    ShiftLowest(poly, Unit(32, 0));
    assert ShiftMany(c, m + 1) == poly;
    if m == 6 {
      assert ShiftMany(c, 8) == Shift(poly);
    }
  }

  lemma ShiftLowest(poly: Word, low: Word)
    requires poly == POLYNOMIAL && low == Unit(32, 0)
    ensures Shift(low) == poly
  {
    assert ShiftRight(low, 1) == Zero(32);
    assert Xor(poly, Zero(32)) == poly;
  }

  lemma PolynomialBits(v: nat, poly: Word)
    requires v == 0xedb88320 && poly == BitsOf(v, 32)
    ensures !poly[0] && poly[30] && poly[31] && poly == POLYNOMIAL
  {
    LowBit(v, poly);
    HighBit(v, poly, 30);
    HighBit(v, poly, 31);
  }

  /** The two highest bits of the table entry of a first column. */
  lemma EntryBits(t: Word, first: bool, poly: Word)
    requires poly[30] && poly[31] && t == if first then poly else ShiftRight(poly, 1)
    ensures Reversed(t)[1] && (Reversed(t)[0] <==> first)
  {
    assert !first ==> t[30] == poly[31];
  }

  /** The first two bits that the first two columns of a row of one byte change. */
  lemma FirstColumns(n: nat, c: nat, v: nat)
    requires c < n < 8 && c < 2 && v == 0xedb88320
    ensures RowCrc(Unit(n, c))[1] != RowCrc(Zero(n))[1]
    ensures RowCrc(Unit(n, c))[0] != RowCrc(Zero(n))[0] <==> c == 0
  {
    var bit: Word, poly: Word := Unit(32, 7 - c), BitsOf(v, 32);
    PolynomialBits(v, poly);
    HighEntries(poly, bit, 7 - c);
    EntryBits(Table(bit), c == 0, poly);
    FirstByteColumn(n, c, bit);
  }
}
