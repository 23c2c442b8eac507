/** Depth-first extension of a swap until every line sum of every family is zero. */
module SwapSearch {
  import opened GeometricSwap
  import opened Arithmetic
  import opened Clocks

  const MAX_BRANCH: nat := 20

  // ---- the index from lines to cells ----

  function CellsOn(g: Grid, key: Key, n: nat): seq<nat>
    requires g.Wf()
  {
    if n == 0 then [] else CellsOn(g, key, n - 1) + if g.On(n - 1, key) then [n - 1] else []
  }

  lemma {:induction false} CellsOnSpec(g: Grid, key: Key, n: nat, flat: nat)
    requires g.Wf()
    ensures flat in CellsOn(g, key, n) <==> flat < n && g.On(flat, key)
  {
    if n > 0 {
      CellsOnSpec(g, key, n - 1, flat);
    }
  }

  type LineIndex = map<Key, seq<nat>>

  function Lookup(ltc: LineIndex, key: Key): seq<nat> {
    if key in ltc then ltc[key] else []
  }

  ghost predicate IsLineIndex(g: Grid, ltc: LineIndex)
    requires g.Wf()
  {
    forall key: Key :: Lookup(ltc, key) == CellsOn(g, key, g.Size())
  }

  method AppendCell(g: Grid, ltc: LineIndex, flat: nat) returns (next: LineIndex)
    requires g.Wf() && flat < g.Size()
    ensures forall key: Key :: Lookup(next, key) == Lookup(ltc, key) + if g.On(flat, key) then [flat] else []
  {
    next := ltc;
    for fam: nat := 0 to g.Families()
      invariant forall key: Key ::
        Lookup(next, key) == Lookup(ltc, key) + if key.0 < fam && g.On(flat, key) then [flat] else []
    {
      var key := (fam, g.LineOf(fam, flat));
      next := next[key := Lookup(next, key) + [flat]];
    }
  }

  method BuildLineToCells(g: Grid) returns (ltc: LineIndex)
    requires g.Wf()
    ensures IsLineIndex(g, ltc)
  {
    ltc := map[];
    for flat: nat := 0 to g.Size()
      invariant forall key: Key :: Lookup(ltc, key) == CellsOn(g, key, flat)
    {
      ltc := AppendCell(g, ltc, flat);
    }
  }

  // ---- the lower bound ----

  ghost predicate Extends(ext: Swap, cells: Swap) {
    forall f :: f in cells ==> f in ext && ext[f] == cells[f]
  }

  lemma {:induction false} UntouchedSum(g: Grid, cells: Swap, ext: Swap, key: Key, n: nat)
    requires g.Wf() && Extends(ext, cells)
    requires forall f :: f in ext && f !in cells ==> !g.On(f, key)
    ensures g.ExcessTo(ext, key, n) == g.ExcessTo(cells, key, n)
  {
    if n > 0 {
      UntouchedSum(g, cells, ext, key, n - 1);
    }
  }

  /** The lines of one cell, one in each of the first `n` families. */
  function KeysOf(g: Grid, flat: nat, n: nat): (keys: set<Key>)
    requires g.Wf() && flat < g.Size() && n <= g.Families()
  {
    if n == 0 then {} else KeysOf(g, flat, n - 1) + {(n - 1, g.LineOf(n - 1, flat))}
  }

  lemma {:induction false} KeysOfSpec(g: Grid, flat: nat, n: nat, key: Key)
    requires g.Wf() && flat < g.Size() && n <= g.Families()
    ensures |KeysOf(g, flat, n)| <= n
    ensures key.0 < n && g.On(flat, key) ==> key in KeysOf(g, flat, n)
  {
    if n > 0 {
      KeysOfSpec(g, flat, n - 1, key);
    }
  }

  ghost predicate Touched(g: Grid, added: set<nat>, key: Key)
    requires g.Wf()
  {
    exists f :: f in added && g.On(f, key)
  }

  lemma NoneTouched(g: Grid, key: Key)
    requires g.Wf()
    ensures !Touched(g, {}, key)
  {
  }

  /** Each added cell is on one line of each family, so it touches at most `Families()` lines. */
  lemma {:induction false} TouchedCount(g: Grid, added: set<nat>, lines: set<Key>)
    requires g.Wf() && forall f :: f in added ==> f < g.Size()
    requires forall key :: key in lines ==> Touched(g, added, key)
    ensures |lines| <= |added| * g.Families()
    decreases |added|
  {
    if added == {} {
      forall key ensures key !in lines {
        NoneTouched(g, key);
      }
      assert lines == {};
    } else {
      var f :| f in added;
      var keys := KeysOf(g, f, g.Families());
      var others := lines - keys;
      forall key | key in others ensures Touched(g, added - {f}, key) {
        KeysOfSpec(g, f, g.Families(), key);
        var h :| h in added && g.On(h, key);
        assert h in added - {f};
      }
      TouchedCount(g, added - {f}, others);
      KeysOfSpec(g, f, g.Families(), (0, 0));
      CoverSize(lines, keys);
      assert (|added| - 1) * g.Families() == |added| * g.Families() - g.Families();
    }
  }

  lemma CoverSize(lines: set<Key>, keys: set<Key>)
    ensures |lines| <= |lines - keys| + |keys|
  {
    assert lines == (lines - keys) + (lines * keys);
    SubsetSize(lines * keys, keys);
  }

  function LowerBound(g: Grid, viol: map<Key, int>): nat {
    (|viol.Keys| + g.Families() - 1) / g.Families()
  }

  lemma ViolationIsTouched(g: Grid, cells: Swap, viol: map<Key, int>, ext: Swap, key: Key)
    requires g.Wf() && IsViolations(g, cells, viol) && key in viol
    requires Extends(ext, cells) && g.Balanced(ext)
    ensures Touched(g, ext.Keys - cells.Keys, key)
  {
    assert Get(viol, key) == g.Excess(cells, key);
    assert g.Excess(ext, key) == 0;
    if !Touched(g, ext.Keys - cells.Keys, key) {
      forall f | f in ext && f !in cells ensures !g.On(f, key) {
        assert f in ext.Keys - cells.Keys;
      }
      UntouchedSum(g, cells, ext, key, g.Size());
    }
  }

  lemma ExtensionSize(cells: Swap, ext: Swap)
    requires Extends(ext, cells)
    ensures |ext| == |cells| + |ext.Keys - cells.Keys|
  {
    assert ext.Keys == cells.Keys + (ext.Keys - cells.Keys);
    assert |ext| == |ext.Keys| && |cells| == |cells.Keys|;
  }

  lemma BoundFits(g: Grid, viol: map<Key, int>, added: nat)
    requires |viol.Keys| <= added * g.Families()
    ensures LowerBound(g, viol) <= added
  {
    DivideUp(|viol.Keys|, added, g.Families());
  }

  /** Any balanced extension has at least that many more cells. */
  lemma LowerBoundAdmissible(g: Grid, cells: Swap, viol: map<Key, int>, ext: Swap)
    requires g.Wf() && IsViolations(g, cells, viol)
    requires Extends(ext, cells) && InGrid(g, ext) && g.Balanced(ext)
    ensures |ext| >= |cells| + LowerBound(g, viol)
  {
    var added := ext.Keys - cells.Keys;
    forall key | key in viol.Keys ensures Touched(g, added, key) {
      ViolationIsTouched(g, cells, viol, ext, key);
    }
    TouchedCount(g, added, viol.Keys);
    BoundFits(g, viol, |added|);
    ExtensionSize(cells, ext);
  }

  lemma DivideUp(v: nat, a: nat, f: nat)
    requires f > 0 && v <= a * f
    ensures (v + f - 1) / f <= a
  {
    var q := (v + f - 1) / f;
    assert q * f <= v + f - 1;
    assert (a + 1) * f == a * f + f;
    if a + 1 <= q {
      ProductGrows(a + 1, q, f);
    }
  }

  /** A state whose bound reaches the best size has no balanced extension below it: pruning loses nothing. */
  lemma PruningIsSafe(g: Grid, cells: Swap, viol: map<Key, int>, bestK: nat)
    requires g.Wf() && IsViolations(g, cells, viol) && |cells| + LowerBound(g, viol) >= bestK
    ensures NoneSmaller(g, cells, bestK)
  {
    forall ext: Swap | Extends(ext, cells) && IsSwap(g, ext) && g.Balanced(ext) ensures |ext| >= bestK {
      LowerBoundAdmissible(g, cells, viol, ext);
    }
  }

  /** Every balanced extension has at least `k` cells. */
  ghost predicate NoneSmaller(g: Grid, cells: Swap, k: nat)
    requires g.Wf()
  {
    forall ext: Swap :: Extends(ext, cells) && IsSwap(g, ext) && g.Balanced(ext) ==> |ext| >= k
  }

  /** Every balanced extension within the budget has at least `k` cells. */
  ghost predicate NoneWithin(g: Grid, cells: Swap, budget: nat, k: nat)
    requires g.Wf()
  {
    forall ext: Swap :: Extends(ext, cells) && IsSwap(g, ext) && g.Balanced(ext) && |ext| <= budget ==> |ext| >= k
  }

  // ---- branching ----

  function SignOf(excess: int): int {
    if excess > 0 then -1 else 1
  }

  /** A branch moves the sum of its target line one step towards zero. */
  lemma BranchRepairs(g: Grid, cells: Swap, viol: map<Key, int>, key: Key, flat: nat)
    requires g.Wf() && IsViolations(g, cells, viol) && key in viol
    requires g.On(flat, key) && flat !in cells
    ensures Abs(g.Excess(cells[flat := SignOf(viol[key])], key)) == Abs(g.Excess(cells, key)) - 1
  {
    assert Get(viol, key) == g.Excess(cells, key);
    ExcessInsert(g, cells, flat, SignOf(viol[key]), key, g.Size());
  }

  /** Added cells of the sign of a sum only move it further from zero. */
  lemma {:induction false} SameSignGrows(g: Grid, cells: Swap, ext: Swap, key: Key, sign: int, n: nat)
    requires g.Wf() && Extends(ext, cells) && (sign == 1 || sign == -1)
    requires forall f: nat :: f in ext && f !in cells && g.On(f, key) ==> ext[f] == -sign
    ensures sign * g.ExcessTo(ext, key, n) <= sign * g.ExcessTo(cells, key, n)
  {
    if n > 0 {
      SameSignGrows(g, cells, ext, key, sign, n - 1);
    }
  }

  /** A balanced extension has a cell of the needed sign on every violated line. */
  lemma RepairingCell(g: Grid, cells: Swap, viol: map<Key, int>, ext: Swap, key: Key) returns (flat: nat)
    requires g.Wf() && IsViolations(g, cells, viol) && key in viol
    requires Extends(ext, cells) && IsSwap(g, ext) && g.Balanced(ext)
    ensures flat in ext && flat !in cells && g.On(flat, key) && ext[flat] == SignOf(viol[key])
  {
    var sign := SignOf(viol[key]);
    assert Get(viol, key) == g.Excess(cells, key) && g.Excess(ext, key) == 0;
    if forall f: nat :: f in ext && f !in cells && g.On(f, key) ==> ext[f] == -sign {
      SameSignGrows(g, cells, ext, key, sign, g.Size());
      assert false;
    }
    flat :| flat in ext && flat !in cells && g.On(flat, key) && ext[flat] != -sign;
  }

  /** How well a cell fits: rewards for sums brought to or towards zero, penalties for new or larger ones. */
  function ScoreTo(g: Grid, viol: map<Key, int>, sign: int, flat: nat, n: nat): int
    requires g.Wf() && flat < g.Size() && n <= g.Families()
  {
    if n == 0 then 0 else
      var cur := Get(viol, (n - 1, g.LineOf(n - 1, flat)));
      var next := cur + sign;
      ScoreTo(g, viol, sign, flat, n - 1) + (
        if cur != 0 && next == 0 then 10
        else if cur != 0 && Abs(next) < Abs(cur) then 3
        else if cur == 0 then -2
        else -5)
  }

  function Score(g: Grid, viol: map<Key, int>, sign: int, flat: nat): int
  {
    if g.Wf() && flat < g.Size() then ScoreTo(g, viol, sign, flat, g.Families()) else 0
  }

  function ScoreOf(g: Grid, viol: map<Key, int>, sign: int): nat -> int {
    (flat: nat) => Score(g, viol, sign, flat)
  }

  // ---- what the score measures ----

  /** What adding a cell does to the sum of a line. */
  datatype Effect = Removes | Reduces | Creates | Worsens | Keeps

  ghost function EffectOf(before: int, after: int): Effect {
    if after == before then Keeps
    else if before == 0 then Creates
    else if after == 0 then Removes
    else if Abs(after) < Abs(before) then Reduces
    else Worsens
  }

  ghost function EffectOn(g: Grid, cells: Swap, flat: nat, sign: int, key: Key): Effect
    requires g.Wf()
  {
    EffectOf(g.Excess(cells, key), g.Excess(cells[flat := sign], key))
  }

  /** The lines through a cell in the first `n` families on which adding it has the effect. */
  ghost function Affected(g: Grid, cells: Swap, flat: nat, sign: int, n: nat, e: Effect): set<Key>
    requires g.Wf() && flat < g.Size() && n <= g.Families()
  {
    set key | key in KeysOf(g, flat, n) && EffectOn(g, cells, flat, sign, key) == e
  }

  lemma {:induction false} KeysAreLow(g: Grid, flat: nat, n: nat, key: Key)
    requires g.Wf() && flat < g.Size() && n <= g.Families() && key in KeysOf(g, flat, n)
    ensures key.0 < n && g.On(flat, key)
  {
    if key.0 != n - 1 || key.1 != g.LineOf(n - 1, flat) {
      KeysAreLow(g, flat, n - 1, key);
    }
  }

  lemma AffectedNext(g: Grid, cells: Swap, flat: nat, sign: int, n: nat, e: Effect)
    requires g.Wf() && flat < g.Size() && n < g.Families()
    ensures |Affected(g, cells, flat, sign, n + 1, e)| == |Affected(g, cells, flat, sign, n, e)|
      + if EffectOn(g, cells, flat, sign, (n, g.LineOf(n, flat))) == e then 1 else 0
  {
    var key := (n, g.LineOf(n, flat));
    var few, more := Affected(g, cells, flat, sign, n, e), Affected(g, cells, flat, sign, n + 1, e);
    if key in KeysOf(g, flat, n) {
      KeysAreLow(g, flat, n, key);
    }
    if EffectOn(g, cells, flat, sign, key) == e {
      assert more == few + {key};
    } else {
      assert more == few;
    }
  }

  /** The lines on which adding the cell has an effect are lines through it. */
  lemma AffectedIsAll(g: Grid, cells: Swap, flat: nat, sign: int, e: Effect, key: Key)
    requires g.Wf() && flat < g.Size() && flat !in cells && sign != 0 && e != Keeps
    ensures key in Affected(g, cells, flat, sign, g.Families(), e) <==> EffectOn(g, cells, flat, sign, key) == e
  {
    ExcessInsert(g, cells, flat, sign, key, g.Size());
    KeysOfSpec(g, flat, g.Families(), key);
  }

  ghost function Points(e: Effect): int {
    match e
    case Removes => 10
    case Reduces => 3
    case Creates => -2
    case Worsens => -5
    case Keeps => 0
  }

  /** The points of the effects on the lines through a cell, family by family. */
  ghost function PointsTo(g: Grid, cells: Swap, flat: nat, sign: int, n: nat): int
    requires g.Wf() && flat < g.Size() && n <= g.Families()
  {
    if n == 0 then 0
    else
      PointsTo(g, cells, flat, sign, n - 1) + Points(EffectOn(g, cells, flat, sign, (n - 1, g.LineOf(n - 1, flat))))
  }

  lemma {:induction false} ScoreIsPoints(g: Grid, cells: Swap, viol: map<Key, int>, sign: int, flat: nat, n: nat)
    requires g.Wf() && IsViolations(g, cells, viol) && (sign == 1 || sign == -1)
    requires flat < g.Size() && flat !in cells && n <= g.Families()
    ensures ScoreTo(g, viol, sign, flat, n) == PointsTo(g, cells, flat, sign, n)
  {
    if n > 0 {
      ScoreIsPoints(g, cells, viol, sign, flat, n - 1);
      var key := (n - 1, g.LineOf(n - 1, flat));
      ExcessInsert(g, cells, flat, sign, key, g.Size());
      assert Get(viol, key) == g.Excess(cells, key);
    }
  }

  ghost function AffectedCount(g: Grid, cells: Swap, flat: nat, sign: int, n: nat, e: Effect): nat
    requires g.Wf() && flat < g.Size() && n <= g.Families()
  {
    if n == 0 then 0
    else
      var here := EffectOn(g, cells, flat, sign, (n - 1, g.LineOf(n - 1, flat)));
      AffectedCount(g, cells, flat, sign, n - 1, e) + if here == e then 1 else 0
  }

  lemma {:induction false} CountIsAffected(g: Grid, cells: Swap, flat: nat, sign: int, n: nat, e: Effect)
    requires g.Wf() && flat < g.Size() && n <= g.Families()
    ensures AffectedCount(g, cells, flat, sign, n, e) == |Affected(g, cells, flat, sign, n, e)|
  {
    if n == 0 {
      assert Affected(g, cells, flat, sign, 0, e) == {};
    } else {
      CountIsAffected(g, cells, flat, sign, n - 1, e);
      AffectedNext(g, cells, flat, sign, n - 1, e);
    }
  }

  lemma {:induction false} PointsAddUp(g: Grid, cells: Swap, flat: nat, sign: int, n: nat)
    requires g.Wf() && flat < g.Size() && n <= g.Families()
    ensures PointsTo(g, cells, flat, sign, n) ==
      10 * AffectedCount(g, cells, flat, sign, n, Removes) + 3 * AffectedCount(g, cells, flat, sign, n, Reduces)
      - 2 * AffectedCount(g, cells, flat, sign, n, Creates) - 5 * AffectedCount(g, cells, flat, sign, n, Worsens)
  {
    if n > 0 {
      PointsAddUp(g, cells, flat, sign, n - 1);
    }
  }

  /** The score of a cell counts the violations that adding it removes, reduces, creates and makes worse. */
  lemma ScoreCounts(g: Grid, cells: Swap, viol: map<Key, int>, sign: int, flat: nat)
    requires g.Wf() && IsViolations(g, cells, viol) && (sign == 1 || sign == -1)
    requires flat < g.Size() && flat !in cells
    ensures Score(g, viol, sign, flat) ==
      10 * |Affected(g, cells, flat, sign, g.Families(), Removes)|
      + 3 * |Affected(g, cells, flat, sign, g.Families(), Reduces)|
      - 2 * |Affected(g, cells, flat, sign, g.Families(), Creates)|
      - 5 * |Affected(g, cells, flat, sign, g.Families(), Worsens)|
  {
    var n := g.Families();
    ScoreIsPoints(g, cells, viol, sign, flat, n);
    PointsAddUp(g, cells, flat, sign, n);
    CountIsAffected(g, cells, flat, sign, n, Removes);
    CountIsAffected(g, cells, flat, sign, n, Reduces);
    CountIsAffected(g, cells, flat, sign, n, Creates);
    CountIsAffected(g, cells, flat, sign, n, Worsens);
  }

  predicate Descending(score: nat -> int, cands: seq<nat>) {
    forall j, k :: 0 <= j < k < |cands| ==> score(cands[j]) >= score(cands[k])
  }

  function Available(line: seq<nat>, cells: Swap): (c: seq<nat>)
    ensures forall f :: f in c <==> f in line && f !in cells
  {
    if line == [] then []
    else Available(line[..|line| - 1], cells) + if line[|line| - 1] in cells then [] else [line[|line| - 1]]
  }

  lemma DescendingConcat(score: nat -> int, a: seq<nat>, b: seq<nat>)
    requires Descending(score, a) && Descending(score, b)
    requires forall i, j :: 0 <= i < |a| && 0 <= j < |b| ==> score(a[i]) >= score(b[j])
    ensures Descending(score, a + b)
  {
  }

  lemma InsertRanked(score: nat -> int, before: seq<nat>, flat: nat, after: seq<nat>)
    requires Descending(score, before + after)
    requires |before| > 0 ==> score(before[|before| - 1]) >= score(flat)
    requires forall k :: 0 <= k < |after| ==> score(after[k]) < score(flat)
    ensures Descending(score, before + [flat] + after)
  {
    var all := before + after;
    forall i | 0 <= i < |before| ensures score(before[i]) >= score(flat) {
      assert all[i] == before[i] && all[|before| - 1] == before[|before| - 1];
    }
    forall i, j | 0 <= i < j < |before| ensures score(before[i]) >= score(before[j]) {
      assert all[i] == before[i] && all[j] == before[j];
    }
    forall i, j | 0 <= i < j < |after| ensures score(after[i]) >= score(after[j]) {
      assert all[|before| + i] == after[i] && all[|before| + j] == after[j];
    }
    DescendingConcat(score, before, [flat]);
    DescendingConcat(score, before + [flat], after);
  }

  lemma InsertKeeps(before: seq<nat>, flat: nat, after: seq<nat>)
    ensures multiset(before + [flat] + after) == multiset(before + after) + multiset{flat}
  {
  }

  /** The cells of score `v`, in their order. */
  function WithScore(score: nat -> int, cands: seq<nat>, v: int): seq<nat> {
    if cands == [] then []
    else
      var last := cands[|cands| - 1];
      WithScore(score, cands[..|cands| - 1], v) + if score(last) == v then [last] else []
  }

  lemma {:induction false} WithScoreConcat(score: nat -> int, a: seq<nat>, b: seq<nat>, v: int)
    ensures WithScore(score, a + b, v) == WithScore(score, a, v) + WithScore(score, b, v)
  {
    if b == [] {
      assert a + b == a;
    } else {
      assert (a + b)[..|a + b| - 1] == a + b[..|b| - 1];
      WithScoreConcat(score, a, b[..|b| - 1], v);
    }
  }

  lemma {:induction false} WithScoreNone(score: nat -> int, cands: seq<nat>, v: int)
    requires forall k :: 0 <= k < |cands| ==> score(cands[k]) != v
    ensures WithScore(score, cands, v) == []
  {
    if cands != [] {
      WithScoreNone(score, cands[..|cands| - 1], v);
    }
  }

  /** Inserting behind all cells of the same score keeps ties in order. */
  lemma InsertStable(score: nat -> int, before: seq<nat>, flat: nat, after: seq<nat>, v: int)
    requires forall k :: 0 <= k < |after| ==> score(after[k]) < score(flat)
    ensures WithScore(score, before + [flat] + after, v) == WithScore(score, before + after + [flat], v)
  {
    WithScoreConcat(score, before + [flat], after, v);
    WithScoreConcat(score, before, [flat], v);
    WithScoreConcat(score, before + after, [flat], v);
    WithScoreConcat(score, before, after, v);
    if score(flat) == v {
      WithScoreNone(score, after, v);
    } else {
      WithScoreNone(score, [flat], v);
    }
  }

  /** Cells of equal score come in the same order. */
  ghost predicate SameTies(score: nat -> int, a: seq<nat>, b: seq<nat>) {
    forall v: int :: WithScore(score, a, v) == WithScore(score, b, v)
  }

  method Insert(score: nat -> int, scored: seq<nat>, flat: nat) returns (next: seq<nat>)
    requires Descending(score, scored)
    ensures Descending(score, next) && multiset(next) == multiset(scored) + multiset{flat}
    ensures SameTies(score, next, scored + [flat])
  {
    var at := |scored|;
    while at > 0 && score(scored[at - 1]) < score(flat)
      invariant 0 <= at <= |scored|
      invariant forall k :: at <= k < |scored| ==> score(scored[k]) < score(flat)
    {
      at := at - 1;
    }
    var before, after := scored[..at], scored[at..];
    assert scored == before + after;
    InsertRanked(score, before, flat, after);
    InsertKeeps(before, flat, after);
    next := before + [flat] + after;
    forall v: int ensures WithScore(score, next, v) == WithScore(score, scored + [flat], v) {
      InsertStable(score, before, flat, after, v);
    }
  }

  lemma TiesNext(score: nat -> int, scored: seq<nat>, next: seq<nat>, cands: seq<nat>, flat: nat)
    requires SameTies(score, scored, cands) && SameTies(score, next, scored + [flat])
    ensures SameTies(score, next, cands + [flat])
  {
    forall v: int ensures WithScore(score, next, v) == WithScore(score, cands + [flat], v) {
      WithScoreConcat(score, scored, [flat], v);
      WithScoreConcat(score, cands, [flat], v);
    }
  }

  /** The candidates by falling score, ties in their old order. */
  method Rank(score: nat -> int, cands: seq<nat>) returns (scored: seq<nat>)
    ensures multiset(scored) == multiset(cands) && Descending(score, scored)
    ensures SameTies(score, scored, cands)
  {
    scored := [];
    for i := 0 to |cands|
      invariant multiset(scored) == multiset(cands[..i]) && Descending(score, scored)
      invariant SameTies(score, scored, cands[..i])
    {
      var next := Insert(score, scored, cands[i]);
      TiesNext(score, scored, next, cands[..i], cands[i]);
      scored := next;
      assert cands[..i + 1] == cands[..i] + [cands[i]];
    }
    assert cands[..|cands|] == cands;
  }

  lemma AddAndRemove(cells: Swap, flat: nat, sign: int)
    requires flat !in cells
    ensures |cells[flat := sign]| == |cells| + 1 && cells[flat := sign] - {flat} == cells
    ensures Extends(cells[flat := sign], cells)
  {
    assert cells[flat := sign].Keys == cells.Keys + {flat};
  }

  // ---- what an exhaustive search leaves out ----

  /** No line has more cells than branches are tried. */
  ghost predicate Narrow(g: Grid)
    requires g.Wf()
  {
    forall key: Key :: |CellsOn(g, key, g.Size())| <= MAX_BRANCH
  }

  lemma {:induction false} AvailableSize(line: seq<nat>, cells: Swap)
    ensures |Available(line, cells)| <= |line|
  {
    if line != [] {
      AvailableSize(line[..|line| - 1], cells);
    }
  }

  lemma LeafIsLeast(g: Grid, cells: Swap, k: nat)
    requires g.Wf() && k <= |cells|
    ensures NoneSmaller(g, cells, k)
  {
    forall ext: Swap | Extends(ext, cells) && IsSwap(g, ext) && g.Balanced(ext) ensures |ext| >= k {
      ExtensionSize(cells, ext);
    }
  }

  lemma BudgetEnds(g: Grid, cells: Swap, budget: nat, k: nat)
    requires g.Wf() && !g.Balanced(cells) && |cells| >= budget
    ensures NoneWithin(g, cells, budget, k)
  {
    forall ext: Swap | Extends(ext, cells) && IsSwap(g, ext) && g.Balanced(ext) ensures |ext| > budget {
      ExtensionSize(cells, ext);
      assert ext.Keys == cells.Keys + (ext.Keys - cells.Keys);
      assert ext.Keys == cells.Keys ==> ext == cells;
    }
  }

  /** With every free cell of a violated line tried, nothing is left out. */
  lemma BranchesCover(g: Grid, cells: Swap, viol: map<Key, int>, key: Key, scored: seq<nat>, budget: nat, k: nat)
    requires g.Wf() && IsViolations(g, cells, viol) && key in viol
    requires forall f: nat :: g.On(f, key) && f !in cells ==> f in scored
    requires forall m :: 0 <= m < |scored| ==> NoneWithin(g, cells[scored[m] := SignOf(viol[key])], budget, k)
    ensures NoneWithin(g, cells, budget, k)
  {
    var sign := SignOf(viol[key]);
    forall ext: Swap | Extends(ext, cells) && IsSwap(g, ext) && g.Balanced(ext) && |ext| <= budget ensures |ext| >= k {
      var flat := RepairingCell(g, cells, viol, ext, key);
      var m :| 0 <= m < |scored| && scored[m] == flat;
      assert NoneWithin(g, cells[scored[m] := sign], budget, k);
      assert Extends(ext, cells[flat := sign]);
    }
  }

  // ---- where the search looks ----

  /** The free cells of a line. */
  function FreeOn(g: Grid, cells: Swap, key: Key): seq<nat>
    requires g.Wf()
  {
    Available(CellsOn(g, key, g.Size()), cells)
  }

  /** By falling score, ties in their old order. */
  ghost predicate Ranked(score: nat -> int, cands: seq<nat>, ranked: seq<nat>) {
    multiset(ranked) == multiset(cands) && Descending(score, ranked) && SameTies(score, ranked, cands)
  }

  /** No violated line has fewer free cells. */
  ghost predicate FewestFree(g: Grid, cells: Swap, viol: map<Key, int>, key: Key)
    requires g.Wf()
  {
    key in viol && forall other :: other in viol ==> |FreeOn(g, cells, key)| <= |FreeOn(g, cells, other)|
  }

  /** A violated line with fewest free cells, and these ranked. */
  ghost predicate Branching(g: Grid, cells: Swap, viol: map<Key, int>, key: Key, ranked: seq<nat>)
    requires g.Wf()
  {
    && IsViolations(g, cells, viol) && FewestFree(g, cells, viol, key)
    && Ranked(ScoreOf(g, viol, SignOf(viol[key])), FreeOn(g, cells, key), ranked)
  }

  /** The branches that are tried. */
  function Foremost(ranked: seq<nat>): (tried: seq<nat>)
    ensures |tried| <= MAX_BRANCH && tried <= ranked
  {
    if |ranked| > MAX_BRANCH then ranked[..MAX_BRANCH] else ranked
  }

  ghost predicate Prunes(g: Grid, cells: Swap, viol: map<Key, int>, k: nat)
    requires g.Wf()
  {
    IsViolations(g, cells, viol) && |cells| + LowerBound(g, viol) >= k
  }

  ghost predicate BranchIn(cells: Swap, tried: seq<nat>, sign: int, m: nat, visited: set<Swap>)
    requires m < |tried|
  {
    cells[tried[m] := sign] in visited
  }

  ghost predicate BranchesIn(cells: Swap, tried: seq<nat>, sign: int, n: nat, visited: set<Swap>)
    requires n <= |tried|
  {
    forall m :: 0 <= m < n ==> BranchIn(cells, tried, sign, m, visited)
  }

  datatype Plan = Plan(viol: map<Key, int>, key: Key, ranked: seq<nat>)

  /** The best ranked cells of a violated line with fewest free ones lead to visited swaps. */
  ghost predicate GoesOn(g: Grid, cells: Swap, p: Plan, visited: set<Swap>)
    requires g.Wf()
  {
    && Branching(g, cells, p.viol, p.key, p.ranked)
    && BranchesIn(cells, Foremost(p.ranked), SignOf(p.viol[p.key]), |Foremost(p.ranked)|, visited)
  }

  /** A visited swap is balanced and has `k` cells or more; or it is not, and its cells have spent the budget, its bound
      reaches `k`, or the search goes on from it. */
  ghost predicate Settled(g: Grid, cells: Swap, visited: set<Swap>, budget: nat, k: nat)
    requires g.Wf()
  {
    if g.Balanced(cells) then k <= |cells|
    else
      || |cells| >= budget
      || (exists viol: map<Key, int> :: Prunes(g, cells, viol, k))
      || exists p: Plan :: GoesOn(g, cells, p, visited)
  }

  ghost predicate AllSettled(g: Grid, visited: set<Swap>, budget: nat, k: nat)
    requires g.Wf()
  {
    forall cells: Swap :: cells in visited ==> Settled(g, cells, visited, budget, k)
  }

  /** The sets of swaps that a search may have visited when it leaves `k` as the best size. */
  ghost function Explorations(g: Grid, budget: nat, k: nat): iset<set<Swap>>
    requires g.Wf()
  {
    iset visited: set<Swap> | AllSettled(g, visited, budget, k)
  }

  /** More visited swaps and a lower bound to beat leave a swap settled. */
  lemma SettledAmongMore(g: Grid, cells: Swap, visited: set<Swap>, more: set<Swap>, budget: nat, k: nat, next: nat)
    requires g.Wf() && Settled(g, cells, visited, budget, k) && visited <= more && next <= k
    ensures Settled(g, cells, more, budget, next)
  {
    if !g.Balanced(cells) && |cells| < budget {
      if viol: map<Key, int> :| Prunes(g, cells, viol, k) {
        assert Prunes(g, cells, viol, next);
      } else {
        var p: Plan :| GoesOn(g, cells, p, visited);
        BranchesAmongMore(cells, Foremost(p.ranked), SignOf(p.viol[p.key]), |Foremost(p.ranked)|, visited, more);
        assert GoesOn(g, cells, p, more);
      }
    }
  }

  lemma BranchesAmongMore(cells: Swap, tried: seq<nat>, sign: int, n: nat, visited: set<Swap>, more: set<Swap>)
    requires n <= |tried| && BranchesIn(cells, tried, sign, n, visited) && visited <= more
    ensures BranchesIn(cells, tried, sign, n, more)
  {
    forall m | 0 <= m < n ensures BranchIn(cells, tried, sign, m, more) {
      assert BranchIn(cells, tried, sign, m, visited);
    }
  }

  lemma OneSettled(g: Grid, cells: Swap, budget: nat, k: nat)
    requires g.Wf() && Settled(g, cells, {}, budget, k)
    ensures {cells} in Explorations(g, budget, k)
  {
    SettledAmongMore(g, cells, {}, {cells}, budget, k, k);
  }

  lemma NothingVisited(g: Grid, budget: nat, k: nat)
    requires g.Wf()
    ensures {} in Explorations(g, budget, k)
  {
  }

  lemma BothSettled(g: Grid, a: set<Swap>, b: set<Swap>, budget: nat, k: nat, next: nat)
    requires g.Wf() && a in Explorations(g, budget, k) && b in Explorations(g, budget, next) && next <= k
    ensures a + b in Explorations(g, budget, next)
  {
    forall cells: Swap | cells in a + b ensures Settled(g, cells, a + b, budget, next) {
      if cells in a {
        SettledAmongMore(g, cells, a, a + b, budget, k, next);
      } else {
        SettledAmongMore(g, cells, b, a + b, budget, next, next);
      }
    }
  }

  /** One more branch. */
  lemma BranchSettled(g: Grid, cells: Swap, tried: seq<nat>, sign: int, n: nat, visited: set<Swap>, below: set<Swap>,
                      budget: nat, k: nat, next: nat)
    requires g.Wf() && n < |tried| && next <= k
    requires visited in Explorations(g, budget, k) && BranchesIn(cells, tried, sign, n, visited)
    requires below in Explorations(g, budget, next) && cells[tried[n] := sign] in below
    ensures visited + below in Explorations(g, budget, next)
    ensures BranchesIn(cells, tried, sign, n + 1, visited + below)
  {
    BothSettled(g, visited, below, budget, k, next);
    BranchesAmongMore(cells, tried, sign, n, visited, visited + below);
    assert BranchIn(cells, tried, sign, n, visited + below);
  }

  lemma OneMoreSettled(g: Grid, cells: Swap, visited: set<Swap>, budget: nat, k: nat)
    requires g.Wf() && visited in Explorations(g, budget, k) && Settled(g, cells, visited, budget, k)
    ensures {cells} + visited in Explorations(g, budget, k)
  {
    forall c: Swap | c in {cells} + visited ensures Settled(g, c, {cells} + visited, budget, k) {
      SettledAmongMore(g, c, visited, {cells} + visited, budget, k, k);
    }
  }

  /** The swap whose branches have been visited. */
  lemma ParentSettled(g: Grid, cells: Swap, p: Plan, visited: set<Swap>, budget: nat, k: nat)
    requires g.Wf() && !g.Balanced(cells) && visited in Explorations(g, budget, k) && GoesOn(g, cells, p, visited)
    ensures {cells} + visited in Explorations(g, budget, k)
  {
    OneMoreSettled(g, cells, visited, budget, k);
  }

  /** A violated line without free cells ends the search. */
  lemma NoBranches(g: Grid, cells: Swap, viol: map<Key, int>, key: Key, budget: nat, k: nat)
    requires g.Wf() && IsViolations(g, cells, viol) && FewestFree(g, cells, viol, key) && FreeOn(g, cells, key) == []
    ensures {cells} in Explorations(g, budget, k)
  {
    NoViolations(g, cells, viol);
    assert GoesOn(g, cells, Plan(viol, key, []), {});
    OneSettled(g, cells, budget, k);
  }

  /** On a narrow grid nothing is cut off: no balanced extension within the budget is smaller. */
  lemma {:induction false} NarrowIsExhaustive(g: Grid, cells: Swap, visited: set<Swap>, budget: nat, k: nat)
    requires g.Wf() && Narrow(g) && IsSwap(g, cells) && cells in visited && visited in Explorations(g, budget, k)
    ensures NoneWithin(g, cells, budget, k)
    decreases if |cells| < budget then budget - |cells| else 0, 1
  {
    assert Settled(g, cells, visited, budget, k);
    if g.Balanced(cells) {
      LeafIsLeast(g, cells, k);
    } else if |cells| >= budget {
      BudgetEnds(g, cells, budget, k);
    } else if viol: map<Key, int> :| Prunes(g, cells, viol, k) {
      PruningIsSafe(g, cells, viol, k);
    } else {
      var p: Plan :| GoesOn(g, cells, p, visited);
      RankedCells(g, cells, p.key, FreeOn(g, cells, p.key), p.ranked);
      NarrowBranches(g, cells, p.ranked, SignOf(p.viol[p.key]), visited, budget, k);
      BranchesCover(g, cells, p.viol, p.key, p.ranked, budget, k);
    }
  }

  lemma {:induction false} NarrowBranches(g: Grid, cells: Swap, ranked: seq<nat>, sign: int, visited: set<Swap>,
                                          budget: nat, k: nat)
    requires g.Wf() && Narrow(g) && IsSwap(g, cells) && visited in Explorations(g, budget, k) && |cells| < budget
    requires (sign == 1 || sign == -1) && BranchesIn(cells, ranked, sign, |ranked|, visited)
    requires forall m :: 0 <= m < |ranked| ==> ranked[m] < g.Size() && ranked[m] !in cells
    ensures forall m :: 0 <= m < |ranked| ==> NoneWithin(g, cells[ranked[m] := sign], budget, k)
    decreases budget - |cells|, 0
  {
    forall m | 0 <= m < |ranked| ensures NoneWithin(g, cells[ranked[m] := sign], budget, k) {
      AddAndRemove(cells, ranked[m], sign);
      assert BranchIn(cells, ranked, sign, m, visited);
      NarrowIsExhaustive(g, cells[ranked[m] := sign], visited, budget, k);
    }
  }

  /** The ranked candidates are the free cells of the line; on a narrow grid none is cut off. */
  lemma RankedCells(g: Grid, cells: Swap, key: Key, cands: seq<nat>, ranked: seq<nat>)
    requires g.Wf() && multiset(ranked) == multiset(cands) && cands == FreeOn(g, cells, key)
    ensures forall k :: 0 <= k < |ranked| ==> ranked[k] < g.Size() && ranked[k] !in cells
    ensures forall f: nat :: g.On(f, key) && f !in cells ==> f in ranked
    ensures Narrow(g) ==> Foremost(ranked) == ranked
  {
    var line := CellsOn(g, key, g.Size());
    forall f: nat ensures f in ranked <==> g.On(f, key) && f !in cells {
      assert f in ranked <==> f in multiset(ranked);
      assert f in cands <==> f in multiset(cands);
      CellsOnSpec(g, key, g.Size(), f);
    }
    forall k | 0 <= k < |ranked| ensures ranked[k] < g.Size() && ranked[k] !in cells {
      assert ranked[k] in ranked;
    }
    assert |ranked| == |multiset(ranked)| && |cands| == |multiset(cands)|;
    AvailableSize(line, cells);
  }

  class BtSearcher {
    const g: Grid
    const ltc: LineIndex
    var budget: nat
    var bestK: nat
    var nodesVisited: nat
    var cells: Swap

    ghost predicate Valid()
      reads this
    {
      g.Wf() && IsLineIndex(g, ltc) && IsSwap(g, cells)
    }

    constructor (g: Grid, ltc: LineIndex, budget: nat)
      requires g.Wf() && IsLineIndex(g, ltc)
      ensures Valid() && this.g == g && this.ltc == ltc && this.budget == budget && bestK == budget + 1
    {
      this.g, this.ltc, this.budget := g, ltc, budget;
      bestK, nodesVisited := budget + 1, 0;
      cells := map[];
    }

    /** The violated line with the fewest cells left to add. */
    method PickTargetLine(viol: map<Key, int>) returns (best: Option<Key>)
      ensures best.None? <==> viol == map[]
      ensures best.Some? ==> best.value in viol && forall key :: key in viol ==>
        |Available(Lookup(ltc, best.value), cells)| <= |Available(Lookup(ltc, key), cells)|
    {
      best := None;
      var rest := viol.Keys;
      while rest != {}
        invariant rest <= viol.Keys
        invariant best.None? <==> rest == viol.Keys
        invariant best.Some? ==> best.value in viol && forall key :: key in viol.Keys - rest ==>
          |Available(Lookup(ltc, best.value), cells)| <= |Available(Lookup(ltc, key), cells)|
        decreases rest
      {
        var key :| key in rest;
        var count := |Available(Lookup(ltc, key), cells)|;
        if best.None? || count < |Available(Lookup(ltc, best.value), cells)| {
          best := Some(key);
        }
        rest := rest - {key};
      }
    }

    /** `found` is a balanced extension of `start` with `k` cells, within the budget. */
    ghost predicate Witness(found: Option<Swap>, start: Swap, k: nat)
      requires g.Wf()
      reads this`budget
    {
      && found.Some? && Extends(found.value, start) && IsSwap(g, found.value) && g.Balanced(found.value)
      && |found.value| == k && (k <= budget || k == |start|)
    }

    /** What a search from the current cells has made of the best size `before`: if it was in time, `visited` are the
        swaps it has visited, none of them balanced and smaller. */
    ghost predicate Lowers(before: nat, inTime: bool, found: Option<Swap>, visited: set<Swap>)
      requires g.Wf()
      reads this
    {
      && bestK <= before
      && (bestK < before ==> Witness(found, cells, bestK))
      && (inTime ==> cells in visited && visited in Explorations(g, budget, bestK))
    }

    /** The recursive step: counts itself and reads the clock. `found` witnesses a lowered bound. */
    method Bt(viol: map<Key, int>, clock: Clock)
        returns (result: Option<Swap>, ghost found: Option<Swap>, ghost visited: set<Swap>)
      requires Valid() && IsViolations(g, cells, viol)
      modifies this`cells, this`bestK, this`nodesVisited
      ensures Valid() && cells == old(cells) && old(nodesVisited) < nodesVisited
      ensures Lowers(old(bestK), InTime(clock, old(nodesVisited), nodesVisited), found, visited)
      ensures result.Some? <==> !clock.Past(old(nodesVisited)) && viol == map[]
      ensures result.Some? ==> result.value == cells && bestK <= |cells|
      ensures clock.Past(old(nodesVisited)) ==> bestK == old(bestK) && nodesVisited == old(nodesVisited) + 1
      decreases if |cells| < budget then budget - |cells| else 0, 4
    {
      result, found, visited := None, None, {cells};
      nodesVisited := nodesVisited + 1;
      if clock.Past(nodesVisited - 1) {
        return;
      }
      NoViolations(g, cells, viol);
      if viol == map[] {
        result, found := Some(cells), Some(cells);
        if |cells| < bestK {
          bestK := |cells|;
        }
        OneSettled(g, cells, budget, bestK);
        return;
      }
      if |cells| >= budget {
        OneSettled(g, cells, budget, bestK);
        return;
      }
      if |cells| + LowerBound(g, viol) >= bestK {
        assert Prunes(g, cells, viol, bestK);
        OneSettled(g, cells, budget, bestK);
        return;
      }
      result, found, visited := TryLine(viol, clock);
    }

    /** Branches on the most constrained violated line. */
    method TryLine(viol: map<Key, int>, clock: Clock)
        returns (result: Option<Swap>, ghost found: Option<Swap>, ghost visited: set<Swap>)
      requires Valid() && IsViolations(g, cells, viol) && viol != map[] && |cells| < budget
      modifies this`cells, this`bestK, this`nodesVisited
      ensures Valid() && cells == old(cells)
      ensures old(nodesVisited) <= nodesVisited && result.None?
      ensures Lowers(old(bestK), InTime(clock, old(nodesVisited), nodesVisited), found, visited)
      decreases budget - |cells|, 3
    {
      var target := PickTargetLine(viol);
      FewestOnGrid(viol, target.value);
      result, found, visited := BranchOn(viol, target.value, clock);
    }

    /** The index gives the free cells of the lines. */
    lemma FewestOnGrid(viol: map<Key, int>, key: Key)
      requires Valid() && key in viol
      requires forall other :: other in viol ==>
        |Available(Lookup(ltc, key), cells)| <= |Available(Lookup(ltc, other), cells)|
      ensures FewestFree(g, cells, viol, key)
    {
      forall other | other in viol ensures |FreeOn(g, cells, key)| <= |FreeOn(g, cells, other)| {
        assert Lookup(ltc, other) == CellsOn(g, other, g.Size());
      }
    }

    /** Branches on the free cells of a line, the best ranked ones. */
    method BranchOn(viol: map<Key, int>, key: Key, clock: Clock)
        returns (result: Option<Swap>, ghost found: Option<Swap>, ghost visited: set<Swap>)
      requires Valid() && IsViolations(g, cells, viol) && FewestFree(g, cells, viol, key) && |cells| < budget
      modifies this`cells, this`bestK, this`nodesVisited
      ensures Valid() && cells == old(cells)
      ensures old(nodesVisited) <= nodesVisited && result.None?
      ensures Lowers(old(bestK), InTime(clock, old(nodesVisited), nodesVisited), found, visited)
      decreases budget - |cells|, 2
    {
      var sign := SignOf(viol[key]);
      var cands := Available(Lookup(ltc, key), cells);
      assert cands == FreeOn(g, cells, key);
      if cands == [] {
        NoBranches(g, cells, viol, key, budget, bestK);
        return None, None, {cells};
      }
      var scored := Rank(ScoreOf(g, viol, sign), cands);
      RankedCells(g, cells, key, cands, scored);
      ghost var plan, first := Plan(viol, key, scored), nodesVisited;
      assert Branching(g, cells, viol, key, scored);
      result, found, visited := Expand(Foremost(scored), sign, clock);
      if InTime(clock, first, nodesVisited) {
        NoViolations(g, cells, viol);
        ParentSettled(g, cells, plan, visited, budget, bestK);
      }
      visited := {cells} + visited;
    }

    /** Tries the branches in turn; none of them comes back with a swap below the bound. */
    method Expand(scored: seq<nat>, sign: int, clock: Clock)
        returns (result: Option<Swap>, ghost found: Option<Swap>, ghost visited: set<Swap>)
      requires Valid() && (sign == 1 || sign == -1) && |cells| < budget
      requires forall k :: 0 <= k < |scored| ==> scored[k] < g.Size() && scored[k] !in cells
      modifies this`cells, this`bestK, this`nodesVisited
      ensures Valid() && cells == old(cells)
      ensures bestK <= old(bestK)
      ensures bestK < old(bestK) ==> Witness(found, cells, bestK)
      ensures old(nodesVisited) <= nodesVisited
      ensures InTime(clock, old(nodesVisited), nodesVisited) ==>
        visited in Explorations(g, budget, bestK) && BranchesIn(cells, scored, sign, |scored|, visited)
      ensures result.None?
      decreases budget - |cells|, 1
    {
      result, found, visited := None, None, {};
      NothingVisited(g, budget, bestK);
      for i := 0 to |scored|
        invariant Valid() && cells == old(cells) && bestK <= old(bestK)
        invariant bestK < old(bestK) ==> Witness(found, cells, bestK)
        invariant old(nodesVisited) <= nodesVisited
        invariant InTime(clock, old(nodesVisited), nodesVisited) ==>
          visited in Explorations(g, budget, bestK) && BranchesIn(cells, scored, sign, i, visited)
        invariant result.None?
      {
        ghost var before := bestK;
        var child, found1, below := Branch(scored[i], sign, clock);
        if child.Some? && |child.value| < bestK {
          result := child;
        }
        if bestK < before {
          found := found1;
        }
        if InTime(clock, old(nodesVisited), nodesVisited) {
          BranchSettled(g, cells, scored, sign, i, visited, below, budget, before, bestK);
        }
        visited := visited + below;
      }
    }

    /** Adds one cell, searches on, and takes the cell out again. */
    method Branch(flat: nat, sign: int, clock: Clock)
        returns (child: Option<Swap>, ghost found: Option<Swap>, ghost visited: set<Swap>)
      requires Valid() && flat < g.Size() && flat !in cells && (sign == 1 || sign == -1) && |cells| < budget
      modifies this`cells, this`bestK, this`nodesVisited
      ensures Valid() && cells == old(cells)
      ensures bestK <= old(bestK)
      ensures bestK < old(bestK) ==> Witness(found, cells, bestK)
      ensures old(nodesVisited) < nodesVisited
      ensures InTime(clock, old(nodesVisited), nodesVisited) ==>
        cells[flat := sign] in visited && visited in Explorations(g, budget, bestK)
      ensures child.Some? ==> bestK <= |child.value|
      decreases budget - |cells|, 0
    {
      AddAndRemove(cells, flat, sign);
      cells := cells[flat := sign];
      var viol := ComputeViolations(g, cells);
      child, found, visited := Bt(viol, clock);
      cells := cells - {flat};
    }

    /** The search returns a swap only when the start is balanced already: then it returns the start, unless the first
        reading of the clock is past the limit. What it finds by adding cells shows in the lowered bound alone. With no
        reading past the limit, `visited` are the swaps it has visited, none of them balanced and below the bound; on a
        narrow grid no balanced extension within the budget is. */
    method Search(start: Swap, clock: Clock)
        returns (result: Option<Swap>, ghost found: Option<Swap>, ghost visited: set<Swap>)
      requires Valid() && IsSwap(g, start)
      modifies this`cells, this`bestK, this`nodesVisited
      ensures Valid() && cells == start && old(nodesVisited) < nodesVisited
      ensures result.Some? <==> !clock.Past(old(nodesVisited)) && g.Balanced(start)
      ensures result.Some? ==> result.value == start
      ensures bestK <= old(bestK) && (bestK < old(bestK) ==> Witness(found, start, bestK))
      ensures InTime(clock, old(nodesVisited), nodesVisited) ==>
        start in visited && visited in Explorations(g, budget, bestK)
      ensures InTime(clock, old(nodesVisited), nodesVisited) && Narrow(g) ==> NoneWithin(g, start, budget, bestK)
    {
      cells := start;
      var viol := ComputeViolations(g, cells);
      ghost var first := nodesVisited;
      result, found, visited := Bt(viol, clock);
      if InTime(clock, first, nodesVisited) && Narrow(g) {
        NarrowIsExhaustive(g, cells, visited, budget, bestK);
      }
    }
  }
}
