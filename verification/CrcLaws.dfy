/** What makes the table-driven check a CRC: its byte step is eight single-bit steps, it sees every change confined to
    32 consecutive bits, and a message followed by its own check value leaves one constant register. */
module CrcLaws {
  import opened Gf2
  import opened Crc32

  // ---- single-bit steps ----

  /** Clocks one message bit into the register. */
  function BitStep(c: Word, b: bool): Word {
    Shift(c[0 := c[0] != b])
  }

  /** Clocks message bits in, first bit first. */
  function ClockIn(c: Word, bits: Vec): Word {
    if bits == [] then c else BitStep(ClockIn(c, bits[..|bits| - 1]), bits[|bits| - 1])
  }

  function Pad(bits: Vec): Word
    requires |bits| <= 32
  {
    bits + Zero(32 - |bits|)
  }

  lemma ShiftZero(z: Word)
    requires z == Zero(32)
    ensures Shift(z) == z
  {
  }

  lemma {:induction false} ShiftManyZero(z: Word, k: nat)
    requires z == Zero(32)
    ensures ShiftMany(z, k) == z
  {
    if k > 0 {
      ShiftManyZero(z, k - 1);
      ShiftZero(z);
    }
  }

  /** A bit at place `k` arrives at the end of the register after `k` shifts. */
  lemma BitArrives(b: bool, k: nat, e: Word)
    requires k < 32 && e == (if b then Unit(32, k) else Zero(32))
    ensures ShiftMany(e, k) == if b then Unit(32, 0) else Zero(32)
  {
    if b {
      ShiftsDown(k, k);
    } else {
      ShiftManyZero(e, k);
    }
  }

  lemma BitStepXor(c: Word, b: bool)
    ensures BitStep(c, b) == Shift(Xor(c, if b then Unit(32, 0) else Zero(32)))
  {
    assert c[0 := c[0] != b] == Xor(c, if b then Unit(32, 0) else Zero(32));
  }

  /** Up to 32 bits can be added to the register at once and then shifted out. */
  lemma {:induction false} ClockInIsShifts(c: Word, bits: Vec)
    requires |bits| <= 32
    ensures ClockIn(c, bits) == ShiftMany(Xor(c, Pad(bits)), |bits|)
  {
    if bits == [] {
      assert Xor(c, Pad(bits)) == c;
    } else {
      var k := |bits| - 1;
      var front, b := bits[..k], bits[k];
      var e: Word := if b then Unit(32, k) else Zero(32);
      ClockInIsShifts(c, front);
      assert Xor(c, Pad(bits)) == Xor(Xor(c, Pad(front)), e);
      ShiftManyLinear(Xor(c, Pad(front)), e, k);
      BitArrives(b, k, e);
      BitStepXor(ClockIn(c, front), b);
    }
  }

  lemma OneMoreShift(c: Word, k: nat)
    requires k < 32 && !c[k]
    ensures Shift(ShiftRight(c, k)) == ShiftRight(c, k + 1)
  {
    var d := ShiftRight(c, k);
    assert !d[0];
    assert ShiftRight(d, 1) == ShiftRight(c, k + 1);
  }

  /** Bits above the low `k` are only moved by `k` shifts. */
  lemma {:induction false} HighShift(c: Word, k: nat)
    requires k <= 32 && forall p :: 0 <= p < k ==> !c[p]
    ensures ShiftMany(c, k) == ShiftRight(c, k)
  {
    if k == 0 {
      assert ShiftRight(c, 0) == c;
    } else {
      HighShift(c, k - 1);
      OneMoreShift(c, k - 1);
    }
  }

  /** The table step of a byte is eight single-bit steps. */
  lemma StepIsEightShifts(c: Word, b: Byte)
    ensures Step(c, b) == ShiftMany(Xor(c, Widen(b)), 8)
  {
    StepIsShifts(c, b, 8);
  }

  lemma StepIsShifts(c: Word, b: Byte, k: nat)
    requires k == 8
    ensures Step(c, b) == ShiftMany(Xor(c, Widen(b)), k)
  {
    var x := Xor(c, Widen(b));
    var high: Word := Zero(8) + x[8..];
    assert x == Xor(LowByte(x), high);
    ShiftManyLinear(LowByte(x), high, k);
    HighShift(high, k);
    assert ShiftRight(high, 8) == ShiftRight(c, 8);
  }

  lemma StepClocksIn(c: Word, b: Byte)
    ensures Step(c, b) == ClockIn(c, b)
  {
    StepIsShifts(c, b, |b|);
    ClockInIsShifts(c, b);
    assert Pad(b) == Widen(b);
  }

  // ---- messages as bits ----

  /** Byte after byte, least significant bit first. */
  function MessageBits(msg: seq<Byte>): (bits: Vec)
    ensures |bits| == 8 * |msg|
  {
    if msg == [] then [] else MessageBits(msg[..|msg| - 1]) + msg[|msg| - 1]
  }

  lemma {:induction false} BitAtPlace(msg: seq<Byte>, k: nat, p: nat)
    requires k < |msg| && p < 8
    ensures MessageBits(msg)[8 * k + p] == msg[k][p]
  {
    if k < |msg| - 1 {
      BitAtPlace(msg[..|msg| - 1], k, p);
    }
  }

  lemma {:induction false} ClockInJoin(c: Word, v: Vec, w: Vec)
    ensures ClockIn(c, v + w) == ClockIn(ClockIn(c, v), w)
  {
    if w == [] {
      assert v + w == v;
    } else {
      assert (v + w)[..|v + w| - 1] == v + w[..|w| - 1];
      ClockInJoin(c, v, w[..|w| - 1]);
    }
  }

  /** The register after a message is that after its bits. */
  lemma {:induction false} RawClocksIn(c: Word, msg: seq<Byte>)
    ensures Raw(c, msg) == ClockIn(c, MessageBits(msg))
  {
    if msg != [] {
      var front, last := msg[..|msg| - 1], msg[|msg| - 1];
      RawClocksIn(c, front);
      StepClocksIn(Raw(c, front), last);
      ClockInJoin(c, MessageBits(front), last);
    }
  }

  // ---- changes within 32 bits ----

  /** The highest bit of the polynomial is set, so no register but zero shifts to zero. */
  lemma ShiftKeepsNonzero(c: Word, poly: Word, zero: Word)
    requires poly == POLYNOMIAL && poly[31] && zero == Zero(32) && c != zero
    ensures Shift(c) != zero
  {
    if c[0] {
      assert Xor(poly, ShiftRight(c, 1))[31];
    } else {
      var p :| 0 <= p < 32 && c[p];
      assert ShiftRight(c, 1)[p - 1];
    }
  }

  ghost predicate ShiftsKeepNonzero(zero: Word) {
    forall c: Word :: c != zero ==> Shift(c) != zero
  }

  lemma AllShiftsKeepNonzero(v: nat, zero: Word)
    requires v == 0xedb88320 && zero == Zero(32)
    ensures ShiftsKeepNonzero(zero)
  {
    var poly: Word := BitsOf(v, 32);
    PolynomialBits(v, poly);
    forall c: Word | c != zero ensures Shift(c) != zero {
      ShiftKeepsNonzero(c, poly, zero);
    }
  }

  lemma {:induction false} ShiftManyKeepsNonzero(c: Word, k: nat, zero: Word)
    requires ShiftsKeepNonzero(zero) && c != zero
    ensures ShiftMany(c, k) != zero
  {
    if k > 0 {
      ShiftManyKeepsNonzero(c, k - 1, zero);
    }
  }

  lemma {:induction false} ClockInZeros(c: Word, k: nat)
    ensures ClockIn(c, Zero(k)) == ShiftMany(c, k)
  {
    if k > 0 {
      assert Zero(k)[..k - 1] == Zero(k - 1);
      ClockInZeros(c, k - 1);
      var d := ClockIn(c, Zero(k - 1));
      assert d[0 := d[0] != false] == d;
    }
  }

  lemma BitStepLinear(c: Word, d: Word, a: bool, b: bool)
    ensures BitStep(Xor(c, d), a != b) == Xor(BitStep(c, a), BitStep(d, b))
  {
    assert Xor(c, d)[0 := Xor(c, d)[0] != (a != b)] == Xor(c[0 := c[0] != a], d[0 := d[0] != b]);
    ShiftLinear(c[0 := c[0] != a], d[0 := d[0] != b]);
  }

  lemma {:induction false} ClockInLinear(c: Word, d: Word, v: Vec, w: Vec)
    requires |v| == |w|
    ensures ClockIn(Xor(c, d), Xor(v, w)) == Xor(ClockIn(c, v), ClockIn(d, w))
  {
    if v != [] {
      var k := |v| - 1;
      assert Xor(v, w)[..k] == Xor(v[..k], w[..k]);
      ClockInLinear(c, d, v[..k], w[..k]);
      BitStepLinear(ClockIn(c, v[..k]), ClockIn(d, w[..k]), v[k], w[k]);
    }
  }

  /** A burst of at most 32 bits among zeros leaves a register that is not zero. */
  lemma BurstIsSeen(z: Word, before: nat, burst: Vec, after: nat)
    requires z == Zero(32) && |burst| <= 32 && burst != Zero(|burst|) && ShiftsKeepNonzero(z)
    ensures ClockIn(z, Zero(before) + burst + Zero(after)) != z
  {
    ClockInJoin(z, Zero(before) + burst, Zero(after));
    ClockInJoin(z, Zero(before), burst);
    ClockInZeros(z, before);
    ShiftManyZero(z, before);
    ClockInIsShifts(z, burst);
    assert Xor(z, Pad(burst)) == Pad(burst);
    PadNonzero(burst, z);
    ShiftManyKeepsNonzero(Pad(burst), |burst|, z);
    ClockInZeros(ClockIn(z, burst), after);
    ShiftManyKeepsNonzero(ClockIn(z, burst), after, z);
  }

  lemma PadNonzero(burst: Vec, z: Word)
    requires |burst| <= 32 && burst != Zero(|burst|) && z == Zero(32)
    ensures Pad(burst) != z
  {
    var p :| 0 <= p < |burst| && burst[p];
    assert Pad(burst)[p];
  }

  /** The places where two bit strings differ lie in `t` to `t + 31`. */
  ghost predicate WithinBurst(v: Vec, w: Vec, t: nat)
    requires |v| == |w|
  {
    forall q :: 0 <= q < |v| && !(t <= q < t + 32) ==> v[q] == w[q]
  }

  lemma SplitBurst(d: Vec, t: nat, q: nat) returns (burst: Vec, after: nat)
    requires t <= q < |d| && d[q] && forall p :: 0 <= p < |d| && !(t <= p < t + 32) ==> !d[p]
    ensures |burst| <= 32 && burst != Zero(|burst|) && d == Zero(t) + burst + Zero(after)
  {
    var end := if t + 32 < |d| then t + 32 else |d|;
    burst, after := d[t..end], |d| - end;
    assert burst[q - t];
  }

  lemma DifferentRegisters(c: Word, v: Vec, w: Vec, t: nat, z: Word)
    requires |v| == |w| && v != w && WithinBurst(v, w, t) && z == Zero(32) && ShiftsKeepNonzero(z)
    ensures ClockIn(c, v) != ClockIn(c, w)
  {
    var d := Xor(v, w);
    var q :| 0 <= q < |v| && v[q] != w[q];
    var burst, after := SplitBurst(d, t, q);
    BurstIsSeen(z, t, burst, after);
    ClockInLinear(c, c, v, w);
    assert Xor(c, c) == z;
    var r := ClockIn(c, v);
    assert Xor(r, r) == z;
  }

  lemma {:induction false} BitsDecide(x: seq<Byte>, y: seq<Byte>)
    requires |x| == |y| && MessageBits(x) == MessageBits(y)
    ensures x == y
  {
    forall k | 0 <= k < |x| ensures x[k] == y[k] {
      forall p | 0 <= p < 8 ensures x[k][p] == y[k][p] {
        BitAtPlace(x, k, p);
        BitAtPlace(y, k, p);
      }
    }
  }

  /** Two messages of one length that differ only within 32 consecutive bits have different CRCs. */
  lemma BurstsAreDetected(x: seq<Byte>, y: seq<Byte>, t: nat)
    requires |x| == |y| && x != y && WithinBurst(MessageBits(x), MessageBits(y), t)
    ensures Crc(x) != Crc(y)
  {
    AllShiftsKeepNonzero(0xedb88320, Zero(32));
    if MessageBits(x) == MessageBits(y) {
      BitsDecide(x, y);
    }
    RegistersDecide(ALL_ONES, x, y, t, Zero(32));
  }

  lemma RegistersDecide(ones: Word, x: seq<Byte>, y: seq<Byte>, t: nat, z: Word)
    requires |x| == |y| && MessageBits(x) != MessageBits(y) && WithinBurst(MessageBits(x), MessageBits(y), t)
    requires z == Zero(32) && ShiftsKeepNonzero(z)
    ensures Xor(Raw(ones, x), ones) != Xor(Raw(ones, y), ones)
  {
    RawClocksIn(ones, x);
    RawClocksIn(ones, y);
    DifferentRegisters(ones, MessageBits(x), MessageBits(y), t, z);
    XorCancels(Raw(ones, x), Raw(ones, y), ones);
  }

  lemma XorCancels(a: Word, b: Word, c: Word)
    requires a != b
    ensures Xor(a, c) != Xor(b, c)
  {
    var p :| 0 <= p < 32 && a[p] != b[p];
    assert Xor(a, c)[p] != Xor(b, c)[p];
  }

  // ---- rows ----

  lemma PackedBit(x: Vec, q: nat)
    requires q < 8 * |Pack(x)|
    ensures MessageBits(Pack(x))[q] == (8 * (q / 8) + 7 - q % 8 < |x| && x[8 * (q / 8) + 7 - q % 8])
  {
    BitAtPlace(Pack(x), q / 8, q % 8);
    assert 8 * (q / 8) + q % 8 == q;
  }

  lemma PackedDiffer(x: Vec, y: Vec)
    requires |x| == |y| && x != y
    ensures Pack(x) != Pack(y)
  {
    var c :| 0 <= c < |x| && x[c] != y[c];
    var k, p := c / 8, 7 - c % 8;
    assert 8 * k + 7 - p == c;
    assert Pack(x)[k][p] == x[c] && Pack(y)[k][p] == y[c];
  }

  /** Rows of at most 32 cells are told apart by their check values. */
  lemma RowCrcIsInjective(x: Vec, y: Vec)
    requires |x| == |y| <= 32 && x != y
    ensures RowCrc(x) != RowCrc(y)
  {
    forall q | 0 <= q < |MessageBits(Pack(x))| && !(0 <= q < 0 + 32)
      ensures MessageBits(Pack(x))[q] == MessageBits(Pack(y))[q]
    {
      PackedBit(x, q);
      PackedBit(y, q);
    }
    PackedDiffer(x, y);
    BurstsAreDetected(Pack(x), Pack(y), 0);
    ReversedDecides(Crc(Pack(x)), Crc(Pack(y)));
  }

  lemma ReversedDecides(a: Word, b: Word)
    requires a != b
    ensures Reversed(a) != Reversed(b)
  {
    var p :| 0 <= p < 32 && a[p] != b[p];
    assert Reversed(a)[31 - p] == a[p] && Reversed(b)[31 - p] == b[p];
  }

  // ---- the residue ----

  /** The four bytes of a word, lowest first. */
  function WordBytes(w: Word): seq<Byte> {
    [w[..8], w[8..16], w[16..24], w[24..]]
  }

  lemma WordBits(w: Word, m: seq<Byte>)
    requires m == WordBytes(w)
    ensures MessageBits(m) == w
  {
    assert m[..3][..2] == m[..2] && m[..2][..1] == m[..1] && m[..1][..0] == [];
    assert MessageBits(m[..1]) == w[..8];
    assert MessageBits(m[..2]) == w[..8] + w[8..16];
    assert MessageBits(m[..3]) == w[..8] + w[8..16] + w[16..24];
    assert MessageBits(m) == w[..8] + w[8..16] + w[16..24] + w[24..];
  }

  lemma {:induction false} BitsJoin(x: seq<Byte>, y: seq<Byte>)
    ensures MessageBits(x + y) == MessageBits(x) + MessageBits(y)
  {
    if y == [] {
      assert x + y == x;
    } else {
      assert (x + y)[..|x + y| - 1] == x + y[..|y| - 1];
      BitsJoin(x, y[..|y| - 1]);
    }
  }

  /** Clocking in the register's own difference to `ones` leaves what shifting `ones` leaves. */
  lemma OwnDifference(r: Word, ones: Word, w: Word)
    requires w == Xor(r, ones)
    ensures ClockIn(r, w) == ShiftMany(ones, |w|)
  {
    ClockInIsShifts(r, w);
    assert Pad(w) == w;
    assert Xor(r, w) == ones;
  }

  lemma AfterOwnCrc(msg: seq<Byte>, ones: Word, w: Word)
    requires w == Xor(Raw(ones, msg), ones)
    ensures Raw(ones, msg + WordBytes(w)) == ShiftMany(ones, |w|)
  {
    RawClocksIn(ones, msg + WordBytes(w));
    BitsJoin(msg, WordBytes(w));
    WordBits(w, WordBytes(w));
    ClockInJoin(ones, MessageBits(msg), w);
    RawClocksIn(ones, msg);
    OwnDifference(Raw(ones, msg), ones, w);
  }

  /** Every message followed by the four bytes of its CRC leaves the same register. */
  lemma ResidueIsConstant(x: seq<Byte>, y: seq<Byte>)
    ensures Raw(ALL_ONES, x + WordBytes(Crc(x))) == Raw(ALL_ONES, y + WordBytes(Crc(y)))
  {
    AfterOwnCrc(x, ALL_ONES, Crc(x));
    AfterOwnCrc(y, ALL_ONES, Crc(y));
  }
}
