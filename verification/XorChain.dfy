/** Parity constraints as clauses: each equation becomes a chain of auxiliary variables. */
module XorChain {

  type Literal = int
  type Clause = seq<Literal>
  type Assignment = int -> bool

  predicate Holds(a: Assignment, l: Literal) {
    if l >= 0 then a(l) else !a(-l)
  }

  ghost predicate ClauseHolds(a: Assignment, c: Clause) {
    exists k :: 0 <= k < |c| && Holds(a, c[k])
  }

  ghost predicate AllHold(a: Assignment, clauses: seq<Clause>) {
    forall k :: 0 <= k < |clauses| ==> ClauseHolds(a, clauses[k])
  }

  /** The exclusive or of the first `k` literals. */
  ghost function XorTo(a: Assignment, lits: seq<Literal>, k: nat): bool
    requires k <= |lits|
  {
    if k == 0 then false else XorTo(a, lits, k - 1) != Holds(a, lits[k - 1])
  }

  ghost function XorOf(a: Assignment, lits: seq<Literal>): bool {
    XorTo(a, lits, |lits|)
  }

  /** Positive literals below `top`. */
  ghost predicate Variables(lits: seq<Literal>, top: int) {
    forall k :: 0 <= k < |lits| ==> 0 < lits[k] < top
  }

  /** The assignments give the same values to the variables below `top`. */
  ghost predicate SameBelow(a: Assignment, b: Assignment, top: int) {
    forall v: int :: 0 < v < top ==> a(v) == b(v)
  }

  // ---- the clauses of one step ----

  function LastStep(x: Literal, y: Literal, parity: bool): seq<Clause> {
    if parity then [[x, y], [-x, -y]] else [[x, -y], [-x, y]]
  }

  function MiddleStep(x: Literal, y: Literal, t: Literal): seq<Clause> {
    [[-x, -y, -t], [-x, y, t], [x, -y, t], [x, y, -t]]
  }

  lemma PairHolds(a: Assignment, x: Literal, y: Literal)
    ensures ClauseHolds(a, [x, y]) <==> Holds(a, x) || Holds(a, y)
  {
    var c := [x, y];
    assert c[0] == x && c[1] == y;
  }

  lemma TripleHolds(a: Assignment, x: Literal, y: Literal, z: Literal)
    ensures ClauseHolds(a, [x, y, z]) <==> Holds(a, x) || Holds(a, y) || Holds(a, z)
  {
    var c := [x, y, z];
    assert c[0] == x && c[1] == y && c[2] == z;
  }

  lemma LastStepMeans(a: Assignment, x: Literal, y: Literal, parity: bool)
    requires x > 0 && y > 0
    ensures AllHold(a, LastStep(x, y, parity)) <==> (a(x) != a(y)) == parity
  {
    var cs := LastStep(x, y, parity);
    PairHolds(a, x, y);
    PairHolds(a, -x, -y);
    PairHolds(a, x, -y);
    PairHolds(a, -x, y);
    assert AllHold(a, cs) <==> ClauseHolds(a, cs[0]) && ClauseHolds(a, cs[1]);
  }

  lemma MiddleStepMeans(a: Assignment, x: Literal, y: Literal, t: Literal)
    requires x > 0 && y > 0 && t > 0
    ensures AllHold(a, MiddleStep(x, y, t)) <==> a(t) == (a(x) != a(y))
  {
    var cs := MiddleStep(x, y, t);
    TripleHolds(a, -x, -y, -t);
    TripleHolds(a, -x, y, t);
    TripleHolds(a, x, -y, t);
    TripleHolds(a, x, y, -t);
    assert AllHold(a, cs) <==>
      ClauseHolds(a, cs[0]) && ClauseHolds(a, cs[1]) && ClauseHolds(a, cs[2]) && ClauseHolds(a, cs[3]);
  }

  lemma AllHoldConcat(a: Assignment, cs: seq<Clause>, ds: seq<Clause>)
    ensures AllHold(a, cs + ds) <==> AllHold(a, cs) && AllHold(a, ds)
  {
    if AllHold(a, cs + ds) {
      forall k | 0 <= k < |cs| ensures ClauseHolds(a, cs[k]) {
        assert (cs + ds)[k] == cs[k];
      }
      forall k | 0 <= k < |ds| ensures ClauseHolds(a, ds[k]) {
        assert (cs + ds)[|cs| + k] == ds[k];
      }
    }
  }

  // ---- the chain ----

  /** How many auxiliary variables a chain of `n` literals uses. */
  function AuxCount(n: nat): nat {
    if n <= 2 then 0 else n - 2
  }

  /** Auxiliary `top + k` is the exclusive or of the first `k + 2` literals. */
  ghost predicate AuxValue(a: Assignment, lits: seq<Literal>, top: int, k: nat)
    requires k + 2 <= |lits|
  {
    a(top + k) == XorTo(a, lits, k + 2)
  }

  ghost predicate ChainValues(a: Assignment, lits: seq<Literal>, top: int, count: nat)
    requires count == 0 || count + 1 <= |lits|
  {
    forall k :: 0 <= k < count ==> AuxValue(a, lits, top, k)
  }

  /** The auxiliaries carry the prefix parities and the whole parity is right. */
  ghost predicate ChainHolds(a: Assignment, lits: seq<Literal>, parity: bool, top: int) {
    ChainValues(a, lits, top, AuxCount(|lits|)) && XorOf(a, lits) == parity
  }

  /** Clauses for XOR(lits) = parity, with auxiliary variables from `top` on. They hold exactly when every
      auxiliary is the parity of its prefix and the whole parity is right. */
  method EncodeXor(lits: seq<Literal>, parity: bool, top: int) returns (clauses: seq<Clause>)
    requires |lits| >= 1 && Variables(lits, top)
    ensures forall a: Assignment :: AllHold(a, clauses) <==> ChainHolds(a, lits, parity, top)
  {
    if |lits| == 1 {
      clauses := if parity then [[lits[0]]] else [[-lits[0]]];
      forall a: Assignment ensures AllHold(a, clauses) <==> ChainHolds(a, lits, parity, top) {
        SingleMeans(a, lits[0], parity);
        assert XorTo(a, lits, 1) == (XorTo(a, lits, 0) != Holds(a, lits[0]));
      }
      return;
    }
    if |lits| == 2 {
      clauses := LastStep(lits[0], lits[1], parity);
      forall a: Assignment ensures AllHold(a, clauses) <==> ChainHolds(a, lits, parity, top) {
        LastStepMeans(a, lits[0], lits[1], parity);
        PairXor(a, lits);
      }
      return;
    }
    clauses := [];
    var aux, prev := top, lits[0];
    for i := 1 to |lits| - 1
      invariant aux == top + i - 1 && prev == PrefixVariable(lits, top, i - 1)
      invariant forall a: Assignment :: AllHold(a, clauses) <==> ChainValues(a, lits, top, i - 1)
    {
      var step := MiddleStep(prev, lits[i], aux);
      forall a: Assignment ensures AllHold(a, clauses + step) <==> ChainValues(a, lits, top, i) {
        AllHoldConcat(a, clauses, step);
        ChainGrows(a, lits, top, i);
      }
      clauses := clauses + step;
      prev := aux;
      aux := aux + 1;
    }
    var last := LastStep(prev, lits[|lits| - 1], parity);
    forall a: Assignment ensures AllHold(a, clauses + last) <==> ChainHolds(a, lits, parity, top) {
      AllHoldConcat(a, clauses, last);
      ChainEnds(a, lits, top, parity);
    }
    clauses := clauses + last;
  }

  /** The variable that carries the parity of the first `k + 1` literals. */
  function PrefixVariable(lits: seq<Literal>, top: int, k: nat): Literal
    requires |lits| >= 1
  {
    if k == 0 then lits[0] else top + k - 1
  }

  lemma SingleMeans(a: Assignment, l: Literal, parity: bool)
    requires l > 0
    ensures AllHold(a, if parity then [[l]] else [[-l]]) <==> a(l) == parity
  {
    var c: Clause := [if parity then l else -l];
    var cs := [c];
    assert c[0] == (if parity then l else -l);
    assert AllHold(a, cs) <==> ClauseHolds(a, cs[0]);
  }

  lemma PairXor(a: Assignment, lits: seq<Literal>)
    requires |lits| >= 2 && lits[0] > 0 && lits[1] > 0
    ensures XorTo(a, lits, 2) == (a(lits[0]) != a(lits[1]))
  {
    assert XorTo(a, lits, 1) == (XorTo(a, lits, 0) != Holds(a, lits[0]));
  }

  /** Given the earlier auxiliaries, the prefix variable carries its parity. */
  lemma PrefixCarries(a: Assignment, lits: seq<Literal>, top: int, k: nat)
    requires Variables(lits, top) && k < |lits| && ChainValues(a, lits, top, k)
    ensures a(PrefixVariable(lits, top, k)) == XorTo(a, lits, k + 1)
  {
    if k == 0 {
      assert XorTo(a, lits, 1) == (XorTo(a, lits, 0) != Holds(a, lits[0]));
    } else {
      assert AuxValue(a, lits, top, k - 1);
    }
  }

  lemma ChainGrows(a: Assignment, lits: seq<Literal>, top: int, i: nat)
    requires Variables(lits, top) && 1 <= i < |lits|
    ensures ChainValues(a, lits, top, i - 1)
        && AllHold(a, MiddleStep(PrefixVariable(lits, top, i - 1), lits[i], top + i - 1))
      <==> ChainValues(a, lits, top, i)
  {
    MiddleStepMeans(a, PrefixVariable(lits, top, i - 1), lits[i], top + i - 1);
    if ChainValues(a, lits, top, i - 1) {
      PrefixCarries(a, lits, top, i - 1);
      assert AuxValue(a, lits, top, i - 1) <==> a(top + i - 1) == (XorTo(a, lits, i) != a(lits[i]));
    }
  }

  lemma ChainEnds(a: Assignment, lits: seq<Literal>, top: int, parity: bool)
    requires Variables(lits, top) && |lits| >= 3
    ensures ChainValues(a, lits, top, |lits| - 2)
        && AllHold(a, LastStep(PrefixVariable(lits, top, |lits| - 2), lits[|lits| - 1], parity))
      <==> ChainHolds(a, lits, parity, top)
  {
    var n := |lits|;
    LastStepMeans(a, PrefixVariable(lits, top, n - 2), lits[n - 1], parity);
    if ChainValues(a, lits, top, n - 2) {
      PrefixCarries(a, lits, top, n - 2);
    }
  }

  // ---- extending an assignment of the literals ----

  lemma {:induction false} XorSame(a: Assignment, b: Assignment, lits: seq<Literal>, top: int, k: nat)
    requires Variables(lits, top) && SameBelow(a, b, top) && k <= |lits|
    ensures XorTo(a, lits, k) == XorTo(b, lits, k)
  {
    if k > 0 {
      XorSame(a, b, lits, top, k - 1);
    }
  }

  /** The assignment that adds the prefix parities from `top` on. */
  ghost function Extend(a: Assignment, lits: seq<Literal>, top: int): Assignment {
    (v: int) => if top <= v < top + AuxCount(|lits|) then XorTo(a, lits, v - top + 2) else a(v)
  }

  /** An assignment extends to the auxiliaries exactly when its exclusive or is the parity. */
  lemma ExtensionExists(a: Assignment, lits: seq<Literal>, parity: bool, top: int)
    requires |lits| >= 1 && Variables(lits, top)
    ensures (exists b: Assignment :: SameBelow(a, b, top) && ChainHolds(b, lits, parity, top)) <==>
      XorOf(a, lits) == parity
  {
    if XorOf(a, lits) == parity {
      ExtendHolds(a, lits, parity, top);
    }
    forall b: Assignment | SameBelow(a, b, top) && ChainHolds(b, lits, parity, top) ensures XorOf(a, lits) == parity {
      XorSame(a, b, lits, top, |lits|);
    }
  }

  /** The extension is unique: the clauses fix every auxiliary. */
  lemma ExtensionUnique(a: Assignment, b: Assignment, lits: seq<Literal>, parity: bool, top: int, v: int)
    requires |lits| >= 1 && Variables(lits, top) && SameBelow(a, b, top)
    requires ChainHolds(a, lits, parity, top) && ChainHolds(b, lits, parity, top)
    requires top <= v < top + AuxCount(|lits|)
    ensures a(v) == b(v)
  {
    XorSame(a, b, lits, top, v - top + 2);
    assert AuxValue(a, lits, top, v - top) && AuxValue(b, lits, top, v - top);
  }

  // ---- all equations of a block ----

  datatype Equation = Equation(lits: seq<Literal>, parity: bool)

  /** Longer equations are left out of the encoding. */
  const MAX_LENGTH: nat := 12

  ghost predicate Satisfied(a: Assignment, e: Equation) {
    |e.lits| <= MAX_LENGTH ==> XorOf(a, e.lits) == e.parity
  }

  ghost predicate SatisfiesAll(a: Assignment, eqs: seq<Equation>) {
    forall i :: 0 <= i < |eqs| ==> Satisfied(a, eqs[i])
  }

  ghost predicate Meets(a: Assignment, e: Equation) {
    XorOf(a, e.lits) == e.parity
  }

  ghost predicate MeetsAll(a: Assignment, eqs: seq<Equation>) {
    forall i :: 0 <= i < |eqs| ==> Meets(a, eqs[i])
  }

  predicate AllShort(eqs: seq<Equation>) {
    forall i :: 0 <= i < |eqs| ==> |eqs[i].lits| <= MAX_LENGTH
  }

  /** Some assignment with the values of `a` below `first` satisfies all clauses. */
  ghost predicate Extendable(a: Assignment, clauses: seq<Clause>, first: int) {
    exists b: Assignment :: SameBelow(a, b, first) && AllHold(b, clauses)
  }

  /** What the clauses of one equation say, with its auxiliaries from `top` on. */
  ghost predicate Encoded(a: Assignment, e: Equation, top: int) {
    if |e.lits| == 0 then !e.parity
    else if |e.lits| <= MAX_LENGTH then ChainHolds(a, e.lits, e.parity, top)
    else true
  }

  ghost predicate AllEncoded(a: Assignment, eqs: seq<Equation>, tops: seq<int>, k: nat)
    requires k <= |eqs| && k <= |tops|
  {
    forall i :: 0 <= i < k ==> Encoded(a, eqs[i], tops[i])
  }

  function AuxUsed(e: Equation): nat {
    if |e.lits| <= MAX_LENGTH then AuxCount(|e.lits|) else 0
  }

  ghost predicate OverVariables(eqs: seq<Equation>, first: int) {
    forall i :: 0 <= i < |eqs| ==> Variables(eqs[i].lits, first)
  }

  /** Clauses of one equation; an equation without literals becomes the empty clause or nothing. */
  method EncodeEquation(e: Equation, next0: int) returns (clauses: seq<Clause>, next: int)
    requires Variables(e.lits, next0)
    ensures forall a: Assignment :: AllHold(a, clauses) <==> Encoded(a, e, next0)
    ensures next0 + AuxUsed(e) <= next
    ensures next == if 0 < |e.lits| <= MAX_LENGTH then next0 + |e.lits| else next0
  {
    clauses, next := [], next0;
    if |e.lits| == 0 {
      if e.parity {
        clauses := [[]];
        forall a: Assignment ensures !AllHold(a, clauses) {
          assert !ClauseHolds(a, clauses[0]);
        }
      }
      return;
    }
    if |e.lits| <= MAX_LENGTH {
      clauses := EncodeXor(e.lits, e.parity, next0);
      next := next0 + |e.lits|;
    }
  }

  /** Encodes all equations one after the other. An assignment of the original variables extends to the
      auxiliaries so that all clauses hold exactly when it satisfies every equation not left out. */
  method EncodeAll(eqs: seq<Equation>, first: int) returns (clauses: seq<Clause>, next: int)
    requires OverVariables(eqs, first)
    ensures first <= next
    ensures forall a: Assignment :: Extendable(a, clauses, first) <==> SatisfiesAll(a, eqs)
    ensures AllShort(eqs) ==> forall a: Assignment :: Extendable(a, clauses, first) <==> MeetsAll(a, eqs)
  {
    clauses, next := [], first;
    ghost var tops: seq<int> := [];
    for i := 0 to |eqs|
      invariant |tops| == i && Allocated(eqs, tops, first, next, i)
      invariant forall a: Assignment :: AllHold(a, clauses) <==> AllEncoded(a, eqs, tops, i)
    {
      assert Variables(eqs[i].lits, next);
      var block, next' := EncodeEquation(eqs[i], next);
      forall a: Assignment ensures AllHold(a, clauses + block) <==> AllEncoded(a, eqs, tops + [next], i + 1) {
        AllHoldConcat(a, clauses, block);
        assert forall k :: 0 <= k < i ==> (tops + [next])[k] == tops[k];
        AllEncodedNext(a, eqs, tops, next, i);
      }
      clauses, tops, next := clauses + block, tops + [next], next';
    }
    forall a: Assignment ensures Extendable(a, clauses, first) <==> SatisfiesAll(a, eqs) {
      forall b: Assignment | SameBelow(a, b, first) && AllHold(b, clauses) ensures SatisfiesAll(a, eqs) {
        EncodedSatisfies(a, b, eqs, tops, first);
      }
      if SatisfiesAll(a, eqs) {
        var b := ExtendAll(a, eqs, tops, first, next, |eqs|);
      }
    }
    if AllShort(eqs) {
      forall a: Assignment ensures SatisfiesAll(a, eqs) <==> MeetsAll(a, eqs) {
        ShortLosesNothing(a, eqs);
      }
    }
  }

  lemma ShortLosesNothing(a: Assignment, eqs: seq<Equation>)
    requires AllShort(eqs)
    ensures SatisfiesAll(a, eqs) <==> MeetsAll(a, eqs)
  {
    if SatisfiesAll(a, eqs) {
      forall i | 0 <= i < |eqs| ensures Meets(a, eqs[i]) {
        assert Satisfied(a, eqs[i]);
      }
    } else {
      var i :| 0 <= i < |eqs| && !Satisfied(a, eqs[i]);
      assert !Meets(a, eqs[i]);
    }
  }

  // ---- what leaving out a long equation loses ----

  ghost predicate DistinctVariables(lits: seq<Literal>) {
    && (forall k :: 0 <= k < |lits| ==> lits[k] > 0)
    && forall i, k :: 0 <= i < k < |lits| ==> lits[i] != lits[k]
  }

  /** `a` with the value of variable `v` flipped. */
  ghost function Flip(a: Assignment, v: int): Assignment {
    (w: int) => if w == v then !a(w) else a(w)
  }

  lemma {:induction false} FlipFirst(a: Assignment, lits: seq<Literal>, k: nat)
    requires 0 < |lits| && DistinctVariables(lits) && k <= |lits|
    ensures XorTo(Flip(a, lits[0]), lits, k) == (XorTo(a, lits, k) != (k > 0))
  {
    if k > 0 {
      FlipFirst(a, lits, k - 1);
    }
  }

  /** Over distinct variables the encoding says what one equation says if and only if the equation is short. */
  lemma LongIsLost(e: Equation)
    requires DistinctVariables(e.lits)
    ensures (forall a: Assignment :: Satisfied(a, e) <==> Meets(a, e)) <==> |e.lits| <= MAX_LENGTH
  {
    if |e.lits| > MAX_LENGTH {
      var a: Assignment := (v: int) => false;
      FlipFirst(a, e.lits, |e.lits|);
      assert !Meets(a, e) || !Meets(Flip(a, e.lits[0]), e);
    }
  }

  ghost function NoneTrue(): Assignment {
    (v: int) => false
  }

  lemma {:induction false} NoneTrueIsEven(lits: seq<Literal>, k: nat)
    requires DistinctVariables(lits) && k <= |lits|
    ensures !XorTo(NoneTrue(), lits, k)
  {
    if k > 0 {
      NoneTrueIsEven(lits, k - 1);
    }
  }

  /** The sum of thirteen variables is odd. */
  const THIRTEEN := Equation([1, 2, 3, 4, 5, 6, 7, 8, 9, 10, 11, 12, 13], true)

  /** Whatever clauses an encoder with the contract of `EncodeAll` gives for it, they admit thirteen zeros. */
  lemma ThirteenIsLost(clauses: seq<Clause>)
    requires forall a: Assignment :: Extendable(a, clauses, 14) <==> SatisfiesAll(a, [THIRTEEN])
    ensures Extendable(NoneTrue(), clauses, 14) && !MeetsAll(NoneTrue(), [THIRTEEN])
  {
    NoneTrueIsEven(THIRTEEN.lits, |THIRTEEN.lits|);
    assert SatisfiesAll(NoneTrue(), [THIRTEEN]) && !Meets(NoneTrue(), [THIRTEEN][0]);
  }

  lemma AllEncodedNext(a: Assignment, eqs: seq<Equation>, tops: seq<int>, top: int, i: nat)
    requires i < |eqs| && |tops| == i
    ensures AllEncoded(a, eqs, tops + [top], i + 1) <==> AllEncoded(a, eqs, tops, i) && Encoded(a, eqs[i], top)
  {
    if AllEncoded(a, eqs, tops + [top], i + 1) {
      forall k | 0 <= k < i ensures Encoded(a, eqs[k], tops[k]) {
        assert Encoded(a, eqs[k], (tops + [top])[k]);
      }
      assert Encoded(a, eqs[i], (tops + [top])[i]);
    }
  }

  /** Blocks start at or above `first`, follow one another without overlap and end by `next`. */
  ghost predicate Allocated(eqs: seq<Equation>, tops: seq<int>, first: int, next: int, k: nat)
    requires k <= |eqs| && k <= |tops|
  {
    && first <= next
    && (forall i :: 0 <= i < k ==> first <= tops[i] && tops[i] + AuxUsed(eqs[i]) <= next)
    && (forall i, j :: 0 <= i < j < k ==> tops[i] + AuxUsed(eqs[i]) <= tops[j])
  }

  lemma EncodedSatisfies(a: Assignment, b: Assignment, eqs: seq<Equation>, tops: seq<int>, first: int)
    requires OverVariables(eqs, first) && |tops| == |eqs|
    requires SameBelow(a, b, first) && AllEncoded(b, eqs, tops, |eqs|)
    ensures SatisfiesAll(a, eqs)
  {
    forall i | 0 <= i < |eqs| ensures Satisfied(a, eqs[i]) {
      assert Encoded(b, eqs[i], tops[i]);
      XorSame(a, b, eqs[i].lits, first, |eqs[i].lits|);
    }
  }

  /** An equation's clauses read only variables below the end of its block. */
  lemma EncodedFrame(a: Assignment, b: Assignment, e: Equation, top: int, first: int)
    requires Variables(e.lits, first) && first <= top && SameBelow(a, b, top + AuxUsed(e)) && 0 < top
    ensures Encoded(a, e, top) <==> Encoded(b, e, top)
  {
    if 0 < |e.lits| <= MAX_LENGTH {
      XorSame(a, b, e.lits, top, |e.lits|);
      forall k | 0 <= k < AuxCount(|e.lits|)
        ensures AuxValue(a, e.lits, top, k) <==> AuxValue(b, e.lits, top, k)
      {
        XorSame(a, b, e.lits, top, k + 2);
      }
    }
  }

  lemma {:induction false} ExtendAll(a: Assignment, eqs: seq<Equation>, tops: seq<int>, first: int, next: int, k: nat)
      returns (b: Assignment)
    requires OverVariables(eqs, first) && k <= |eqs| && k <= |tops| && Allocated(eqs, tops, first, next, k)
    requires SatisfiesAll(a, eqs)
    ensures SameBelow(a, b, first) && AllEncoded(b, eqs, tops, k)
  {
    if k == 0 {
      return a;
    }
    var c := ExtendAll(a, eqs, tops, first, next, k - 1);
    var e, top := eqs[k - 1], tops[k - 1];
    if |e.lits| == 0 || |e.lits| > MAX_LENGTH {
      assert Satisfied(a, e);
      return c;
    }
    b := Extend(c, e.lits, top);
    XorSame(a, c, e.lits, first, |e.lits|);
    ExtendHolds(c, e.lits, e.parity, top);
    forall i | 0 <= i < k - 1 ensures Encoded(b, eqs[i], tops[i]) {
      assert Encoded(c, eqs[i], tops[i]);
      assert Variables(e.lits, first) && e.lits[0] < first;
      EncodedFrame(c, b, eqs[i], tops[i], first);
    }
  }

  lemma ExtendHolds(a: Assignment, lits: seq<Literal>, parity: bool, top: int)
    requires |lits| >= 1 && Variables(lits, top) && XorOf(a, lits) == parity
    ensures ChainHolds(Extend(a, lits, top), lits, parity, top)
    ensures SameBelow(a, Extend(a, lits, top), top)
  {
    var e := Extend(a, lits, top);
    XorSame(a, e, lits, top, |lits|);
    forall k | 0 <= k < AuxCount(|lits|) ensures AuxValue(e, lits, top, k) {
      XorSame(a, e, lits, top, k + 2);
    }
  }
}
