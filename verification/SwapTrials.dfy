/** The trials of the minimum swap program: geometric bases of several rectangles, each given to the search. */
module SwapTrials {
  import opened GeometricSwap
  import opened SwapSearch
  import opened Clocks
  import LtpTables

  datatype Rectangle = Rectangle(r1: nat, c1: nat, r2: nat, c2: nat) {
    predicate On(s: nat) {
      r1 < s && c1 < s && r2 < s && c2 < s
    }
  }

  /** The eight cells of the rectangle exist and happen to balance the tables too. */
  ghost predicate Perfect(g: Grid, rect: Rectangle)
    requires g.Wf() && rect.On(g.s)
  {
    && Repairable(g.s, rect.r1, rect.c1, rect.r2, rect.c2)
    && g.Balanced(EightCells(g.s, rect.r1, rect.c1, rect.r2, rect.c2))
  }

  /** What the program reports so far. */
  datatype Report = Report(k: nat, swap: Option<Swap>)

  /** Takes a swap over if it is smaller than what was found before. */
  function Smaller(report: Report, found: Option<Swap>): Report {
    if found.Some? && |found.value| < report.k then Report(|found.value|, found) else report
  }

  /** One trial. The search is asked only for bases that are not balanced, so the branch that would take over its
      result is never entered: the report changes to the base itself, if that is perfect and smaller, or not at all. */
  method TryRectangle(searcher: BtSearcher, rect: Rectangle, maxBudget: nat, report: Report, clock: Clock)
      returns (next: Report)
    requires searcher.Valid() && rect.On(searcher.g.s) && report.k > 0
    modifies searcher
    ensures searcher.Valid()
    ensures next == if Perfect(searcher.g, rect) && 8 < report.k
              then Report(8, Some(EightCells(searcher.g.s, rect.r1, rect.c1, rect.r2, rect.c2))) else report
  {
    next := report;
    var g := searcher.g;
    var base := MakeGeometricBase(g.s, rect.r1, rect.c1, rect.r2, rect.c2);
    if base.None? {
      return;
    }
    var ok := VerifyGeometric(g.s, base.value);
    if !ok {
      return;
    }
    BaseIsSwap(g, rect);
    var viol := ComputeViolations(g, base.value);
    if viol == map[] {
      next := Smaller(report, base);
      return;
    }
    searcher.budget := if maxBudget < report.k - 1 then maxBudget else report.k - 1;
    var result, _, _ := searcher.Search(base.value, clock);
    next := Smaller(report, result);
  }

  lemma BaseIsSwap(g: Grid, rect: Rectangle)
    requires g.Wf() && rect.On(g.s) && Repairable(g.s, rect.r1, rect.c1, rect.r2, rect.c2)
    ensures IsSwap(g, EightCells(g.s, rect.r1, rect.c1, rect.r2, rect.c2))
  {
    RepairableCells(g.s, rect.r1, rect.c1, rect.r2, rect.c2);
    PlaceIsTallied(g.s, Entries(rect.r1, rect.c1, rect.r2, rect.c2), 8);
  }

  /** All trials. Whatever the budget and the clock, the program reports an eight-cell base that is perfect, or nothing:
      it reports one exactly when a rectangle it tried is perfect and the budget admits eight cells. */
  method TryRectangles(searcher: BtSearcher, rects: seq<Rectangle>, maxBudget: nat, clocks: nat -> Clock)
      returns (report: Report)
    requires searcher.Valid() && forall i :: 0 <= i < |rects| ==> rects[i].On(searcher.g.s)
    modifies searcher
    ensures report.swap.Some? <==> 8 <= maxBudget && exists i :: 0 <= i < |rects| && Perfect(searcher.g, rects[i])
    ensures report.swap.Some? ==> report.k == 8 && |report.swap.value| == 8 && searcher.g.Balanced(report.swap.value)
    ensures report.swap.None? ==> report.k == maxBudget + 1
  {
    ghost var g := searcher.g;
    report := Report(maxBudget + 1, None);
    for i := 0 to |rects|
      invariant searcher.Valid()
      invariant report.swap.Some? <==> 8 <= maxBudget && exists j :: 0 <= j < i && Perfect(g, rects[j])
      invariant report.swap.Some? ==> report.k == 8 && |report.swap.value| == 8 && g.Balanced(report.swap.value)
      invariant report.swap.None? ==> report.k == maxBudget + 1
    {
      assert rects[i].On(g.s);
      if Perfect(g, rects[i]) {
        EightAreEight(g, rects[i]);
      }
      report := TryRectangle(searcher, rects[i], maxBudget, report, clocks(i));
    }
  }

  lemma EightAreEight(g: Grid, rect: Rectangle)
    requires g.Wf() && rect.On(g.s) && Repairable(g.s, rect.r1, rect.c1, rect.r2, rect.c2)
    ensures |EightCells(g.s, rect.r1, rect.c1, rect.r2, rect.c2)| == 8
  {
    RepairableCells(g.s, rect.r1, rect.c1, rect.r2, rect.c2);
    PlaceIsTallied(g.s, Entries(rect.r1, rect.c1, rect.r2, rect.c2), 8);
  }

  // ---- a base that the search cannot complete although a small completion exists ----

  /** What a cell adds to the sum of table line `l`. */
  function SignIf(table: seq<nat>, s: nat, e: Entry, l: int): int {
    if 0 <= e.Flat(s) < |table| && table[e.Flat(s)] == l then e.sign else 0
  }

  function TableSum(table: seq<nat>, s: nat, e: seq<Entry>, l: int, n: nat): int
    requires n <= |e|
  {
    if n == 0 then 0 else TableSum(table, s, e, l, n - 1) + SignIf(table, s, e[n - 1], l)
  }

  /** In the geometric families the tables make no difference. */
  lemma {:induction false} GeometricPart(g: Grid, cells: Swap, key: Key, n: nat)
    requires g.Wf() && key.0 < GEOMETRIC
    ensures g.ExcessTo(cells, key, n) == Grid(g.s, []).ExcessTo(cells, key, n)
  {
    if n > 0 {
      GeometricPart(g, cells, key, n - 1);
    }
  }

  lemma TableStep(g: Grid, e: seq<Entry>, l: int, n: nat, before: Swap, cells: Swap)
    requires g.Wf() && |g.tables| == 1 && n < |e| && e[n].Inside(g.s) && e[n].Flat(g.s) >= 0
    requires cells == before[e[n].Flat(g.s) := e[n].sign] && e[n].Flat(g.s) !in before
    requires g.Excess(before, (GEOMETRIC, l)) == TableSum(g.tables[0], g.s, e, l, n)
    ensures g.Excess(cells, (GEOMETRIC, l)) == TableSum(g.tables[0], g.s, e, l, n + 1)
  {
    EntryOnGrid(g.s, e[n]);
    ExcessInsert(g, before, e[n].Flat(g.s), e[n].sign, (GEOMETRIC, l), g.Size());
  }

  lemma {:induction false} TableStates(g: Grid, e: seq<Entry>, l: int, n: nat, states: seq<Swap>, k: nat)
    requires g.Wf() && |g.tables| == 1 && n <= |e| && DistinctCells(g.s, e, n) && Placing(g.s, e, n, states) && k <= n
    ensures g.Excess(states[k], (GEOMETRIC, l)) == TableSum(g.tables[0], g.s, e, l, k)
  {
    if k == 0 {
      ExcessOfNothing(g, (GEOMETRIC, l), g.Size());
    } else {
      TableStates(g, e, l, n, states, k - 1);
      PlacingIsMadeOf(g.s, e, n, states, k - 1);
      NextEntryIsNew(g.s, e, k - 1, states[k - 1]);
      assert NextPlace(g.s, e[k - 1], states[k - 1], states[k - 1 + 1]);
      TableStep(g, e, l, k - 1, states[k - 1], states[k]);
    }
  }

  lemma TablePart(g: Grid, e: seq<Entry>, l: int, n: nat)
    requires g.Wf() && |g.tables| == 1 && n <= |e| && DistinctCells(g.s, e, n)
    ensures g.Excess(Place(g.s, e, n), (GEOMETRIC, l)) == TableSum(g.tables[0], g.s, e, l, n)
  {
    var states := PlaceStates(g.s, e, n);
    TableStates(g, e, l, n, states, n);
  }

  lemma {:induction false} DisjointSums(g: Grid, a: Swap, b: Swap, key: Key, n: nat)
    requires g.Wf() && a.Keys !! b.Keys
    ensures g.ExcessTo(a + b, key, n) == g.ExcessTo(a, key, n) + g.ExcessTo(b, key, n)
  {
    if n > 0 {
      DisjointSums(g, a, b, key, n - 1);
    }
  }

  /** Two disjoint bases whose table sums cancel make a balanced swap. */
  lemma CancellingBases(g: Grid, a: Swap, b: Swap)
    requires g.Wf() && |g.tables| == 1 && IsSwap(g, a) && IsSwap(g, b) && a.Keys !! b.Keys
    requires Grid(g.s, []).Balanced(a) && Grid(g.s, []).Balanced(b)
    requires forall l: int :: g.Excess(a, (GEOMETRIC, l)) + g.Excess(b, (GEOMETRIC, l)) == 0
    ensures IsSwap(g, a + b) && g.Balanced(a + b) && Extends(a + b, a) && |a + b| == |a| + |b|
  {
    forall key: Key ensures g.Excess(a + b, key) == 0 {
      DisjointSums(g, a, b, key, g.Size());
      if key.0 < GEOMETRIC {
        GeometricPart(g, a, key, g.Size());
        GeometricPart(g, b, key, g.Size());
        assert Grid(g.s, []).Excess(a, key) == 0 && Grid(g.s, []).Excess(b, key) == 0;
      } else if key.0 == GEOMETRIC {
        assert key == (GEOMETRIC, key.1);
      } else {
        NoSuchFamily(g, a, key, g.Size());
        NoSuchFamily(g, b, key, g.Size());
      }
    }
    assert (a + b).Keys == a.Keys + b.Keys;
    assert |(a + b).Keys| == |a + b| && |a.Keys| == |a| && |b.Keys| == |b|;
  }

  lemma {:induction false} NoSuchFamily(g: Grid, cells: Swap, key: Key, n: nat)
    requires g.Wf() && key.0 >= g.Families()
    ensures g.ExcessTo(cells, key, n) == 0
  {
    if n > 0 {
      NoSuchFamily(g, cells, key, n - 1);
    }
  }

  lemma TableSumNext(table: seq<nat>, s: nat, e: seq<Entry>, l: int, n: nat)
    requires n < |e|
    ensures TableSum(table, s, e, l, n + 1) == TableSum(table, s, e, l, n) + SignIf(table, s, e[n], l)
  {
  }

  function SumOfEight(table: seq<nat>, s: nat, e: seq<Entry>, l: int): int
    requires |e| == 8
  {
    SignIf(table, s, e[0], l) + SignIf(table, s, e[1], l) + SignIf(table, s, e[2], l) + SignIf(table, s, e[3], l) +
    SignIf(table, s, e[4], l) + SignIf(table, s, e[5], l) + SignIf(table, s, e[6], l) + SignIf(table, s, e[7], l)
  }

  lemma TableSumOfEight(table: seq<nat>, s: nat, e: seq<Entry>, l: int)
    requires |e| == 8
    ensures TableSum(table, s, e, l, |e|) == SumOfEight(table, s, e, l)
  {
    assert TableSum(table, s, e, l, 0) == 0;
    TableSumNext(table, s, e, l, 0);
    TableSumNext(table, s, e, l, 1);
    TableSumNext(table, s, e, l, 2);
    TableSumNext(table, s, e, l, 3);
    TableSumNext(table, s, e, l, 4);
    TableSumNext(table, s, e, l, 5);
    TableSumNext(table, s, e, l, 6);
    TableSumNext(table, s, e, l, 7);
  }

  function RectEntries(rect: Rectangle): (e: seq<Entry>)
    ensures |e| == 8
  {
    Entries(rect.r1, rect.c1, rect.r2, rect.c2)
  }

  /** A rectangle of the grid whose repair cells exist. */
  predicate IsBase(g: Grid, rect: Rectangle) {
    rect.On(g.s) && Repairable(g.s, rect.r1, rect.c1, rect.r2, rect.c2)
  }

  ghost function Cells(g: Grid, rect: Rectangle): Swap
    requires IsBase(g, rect)
  {
    EightCells(g.s, rect.r1, rect.c1, rect.r2, rect.c2)
  }

  lemma BaseCells(g: Grid, rect: Rectangle)
    requires g.Wf() && IsBase(g, rect)
    ensures IsSwap(g, Cells(g, rect)) && Grid(g.s, []).Balanced(Cells(g, rect)) && |Cells(g, rect)| == 8
    ensures Holds(RectEntries(rect), g.s, 8, Cells(g, rect))
  {
    RepairableCells(g.s, rect.r1, rect.c1, rect.r2, rect.c2);
    PlaceIsTallied(g.s, RectEntries(rect), 8);
    TalliedIsBalanced(g.s, rect.r1, rect.c1, rect.r2, rect.c2, Cells(g, rect));
  }

  lemma BaseTableSum(g: Grid, rect: Rectangle, l: int)
    requires g.Wf() && |g.tables| == 1 && IsBase(g, rect)
    ensures g.Excess(Cells(g, rect), (GEOMETRIC, l)) == LineSum(g, rect, l)
  {
    var e := RectEntries(rect);
    RepairableCells(g.s, rect.r1, rect.c1, rect.r2, rect.c2);
    TablePart(g, e, l, |e|);
    TableSumOfEight(g.tables[0], g.s, e, l);
  }

  /** The table sums of the two bases are opposite. */
  ghost predicate Opposite(g: Grid, p: Rectangle, q: Rectangle, l: int)
    requires |g.tables| == 1
  {
    LineSum(g, p, l) + LineSum(g, q, l) == 0
  }

  /** What the eight cells add to table line `l`. */
  ghost function LineSum(g: Grid, rect: Rectangle, l: int): int
    requires |g.tables| == 1
  {
    SumOfEight(g.tables[0], g.s, RectEntries(rect), l)
  }

  ghost predicate Apart(p: Rectangle, q: Rectangle, j: nat, k: nat)
    requires j < 8 && k < 8
  {
    RectEntries(p)[j].r != RectEntries(q)[k].r || RectEntries(p)[j].c != RectEntries(q)[k].c
  }

  lemma BasesAreDisjoint(g: Grid, p: Rectangle, q: Rectangle)
    requires g.Wf() && IsBase(g, p) && IsBase(g, q)
    requires Holds(RectEntries(p), g.s, 8, Cells(g, p)) && Holds(RectEntries(q), g.s, 8, Cells(g, q))
    requires AllApart(p, q)
    ensures Cells(g, p).Keys !! Cells(g, q).Keys
  {
    var d, e := RectEntries(p), RectEntries(q);
    forall f: nat | f in Cells(g, p) ensures f !in Cells(g, q) {
      var j: nat :| j < 8 && d[j].Flat(g.s) == f;
      forall k: nat | k < 8 ensures e[k].Flat(g.s) != f {
        assert Apart(p, q, j, k);
        if e[k].Flat(g.s) == f {
          SameCell(g.s, d[j], e[k]);
        }
      }
    }
  }

  /** Two bases without a common cell whose table sums cancel but do not vanish on line `l0`. */
  ghost predicate Cancelling(g: Grid, p: Rectangle, q: Rectangle, l0: int) {
    && g.Wf() && |g.tables| == 1 && IsBase(g, p) && IsBase(g, q)
    && AllApart(p, q) && AllOpposite(g, p, q) && LineSum(g, p, l0) != 0
  }

  ghost predicate AllApart(p: Rectangle, q: Rectangle) {
    forall j: nat, k: nat :: j < 8 && k < 8 ==> Apart(p, q, j, k)
  }

  ghost predicate AllOpposite(g: Grid, p: Rectangle, q: Rectangle)
    requires |g.tables| == 1
  {
    forall l: int :: Opposite(g, p, q, l)
  }

  /** Neither of two such bases is perfect, so the trial of the first reports nothing whatever the budget and the time,
      yet the eight cells of the second complete it. */
  lemma MissedSwap(g: Grid, p: Rectangle, q: Rectangle, l0: int) returns (ext: Swap)
    requires Cancelling(g, p, q, l0)
    ensures !Perfect(g, p)
    ensures IsSwap(g, ext) && g.Balanced(ext) && Extends(ext, Cells(g, p)) && |ext| == 16
  {
    BaseCells(g, p);
    BaseCells(g, q);
    BasesAreDisjoint(g, p, q);
    BaseTableSum(g, p, l0);
    assert g.Excess(Cells(g, p), (GEOMETRIC, l0)) != 0;
    ext := Completed(g, p, q, Cells(g, p), Cells(g, q));
  }

  lemma Completed(g: Grid, p: Rectangle, q: Rectangle, a: Swap, b: Swap) returns (ext: Swap)
    requires g.Wf() && |g.tables| == 1 && IsBase(g, p) && IsBase(g, q) && a == Cells(g, p) && b == Cells(g, q)
    requires AllOpposite(g, p, q)
    requires IsSwap(g, a) && IsSwap(g, b) && a.Keys !! b.Keys && |a| == |b| == 8
    requires Grid(g.s, []).Balanced(a) && Grid(g.s, []).Balanced(b)
    ensures IsSwap(g, ext) && g.Balanced(ext) && Extends(ext, a) && |ext| == 16
  {
    forall l: int ensures g.Excess(a, (GEOMETRIC, l)) + g.Excess(b, (GEOMETRIC, l)) == 0 {
      assert Opposite(g, p, q, l);
      BaseTableSum(g, p, l);
      BaseTableSum(g, q, l);
    }
    CancellingBases(g, a, b);
    ext := a + b;
  }

  // ---- two rectangles of a table whose lines are the rows but for two exchanged cells ----

  /** The row of the cell, but for cells (d + 1, d) and (d + 5, d), which are exchanged. */
  function LineAt(d: nat, r: int, c: int): int {
    if c == d && r == d + 1 then d + 5 else if c == d && r == d + 5 then d + 1 else r
  }

  /** Slot `f` of the pool from which that table is cut. */
  function SlotCell(s: nat, d: nat, f: nat): nat {
    var x, y := Entry(d + 1, d, 1).Flat(s), Entry(d + 5, d, 1).Flat(s);
    if f == x then y else if f == y then x else f
  }

  ghost function ExchangedPool(s: nat, d: nat): (p: seq<nat>)
    ensures |p| == s * s
  {
    seq(s * s, f requires 0 <= f < s * s => SlotCell(s, d, f))
  }

  ghost function ExchangedTable(s: nat, d: nat): (table: seq<nat>)
    requires s > 0
    ensures |table| == s * s
  {
    seq(s * s, f requires 0 <= f < s * s => SlotCell(s, d, f) / s)
  }

  /** It puts exactly `s` cells on every line. */
  lemma ExchangedIsBalanced(s: nat, d: nat)
    requires s >= d + 8
    ensures LtpTables.Balanced(ExchangedTable(s, d), s)
  {
    var p := ExchangedPool(s, d);
    EntryOnGrid(s, Entry(d + 1, d, 1));
    EntryOnGrid(s, Entry(d + 5, d, 1));
    assert LtpTables.Inverse(p, p);
    LtpTables.CutIsBalanced(ExchangedTable(s, d), p, p, s);
  }

  ghost predicate IsTable(table: seq<nat>, s: nat, d: nat) {
    s >= d + 8 && table == ExchangedTable(s, d)
  }

  lemma TableAt(s: nat, d: nat, e: Entry)
    requires s >= d + 8 && e.Inside(s)
    ensures 0 <= e.Flat(s) < s * s && ExchangedTable(s, d)[e.Flat(s)] == LineAt(d, e.r, e.c)
  {
    var x, y := Entry(d + 1, d, 1), Entry(d + 5, d, 1);
    EntryOnGrid(s, e);
    EntryOnGrid(s, x);
    EntryOnGrid(s, y);
    if e.Flat(s) == x.Flat(s) {
      SameCell(s, e, x);
    } else if e.Flat(s) == y.Flat(s) {
      SameCell(s, e, y);
    }
  }

  lemma SignAt(table: seq<nat>, s: nat, d: nat, e: Entry, l: int)
    requires IsTable(table, s, d) && e.Inside(s)
    ensures SignIf(table, s, e, l) == if LineAt(d, e.r, e.c) == l then e.sign else 0
  {
    TableAt(s, d, e);
  }

  /** The cells of a rectangle of this shape, from row `r` and column `d` on. */
  function Shape(d: nat, r: int): seq<Entry> {
    [Entry(r + 1, d, 1), Entry(r + 1, d + 3, -1), Entry(r + 2, d, -1), Entry(r + 2, d + 3, 1),
     Entry(r + 3, d + 2, -1), Entry(r, d + 2, 1), Entry(r + 3, d + 1, 1), Entry(r, d + 1, -1)]
  }

  lemma SignsCancel(table: seq<nat>, s: nat, d: nat, e: Entry, f: Entry, l: int)
    requires IsTable(table, s, d) && e.Inside(s) && f.Inside(s)
    requires LineAt(d, e.r, e.c) == LineAt(d, f.r, f.c) && e.sign == -f.sign
    ensures SignIf(table, s, e, l) + SignIf(table, s, f, l) == 0
  {
    SignAt(table, s, d, e, l);
    SignAt(table, s, d, f, l);
  }

  /** Such a rectangle is balanced in the rows, so only an exchanged cell counts. */
  lemma ShapeSum(table: seq<nat>, s: nat, d: nat, r: int, e: seq<Entry>, l: int)
    requires IsTable(table, s, d) && (r == d || r == d + 4) && e == Shape(d, r)
    ensures SumOfEight(table, s, e, l) == (if LineAt(d, r + 1, d) == l then 1 else 0) - (if r + 1 == l then 1 else 0)
  {
    SignAt(table, s, d, e[0], l);
    SignAt(table, s, d, e[1], l);
    SignsCancel(table, s, d, e[2], e[3], l);
    SignsCancel(table, s, d, e[4], e[6], l);
    SignsCancel(table, s, d, e[5], e[7], l);
  }

  /** A rectangle of this shape and its twin four rows below. */
  function Upper(d: nat): Rectangle {
    Rectangle(d + 1, d, d + 2, d + 3)
  }

  function Lower(d: nat): Rectangle {
    Rectangle(d + 5, d, d + 6, d + 3)
  }

  /** Where the repair cells of such a rectangle are. */
  lemma ShapeEntries(r: nat, d: nat)
    ensures RectEntries(Rectangle(r + 1, d, r + 2, d + 3)) == Shape(d, r)
  {
    assert (r + 1 + (r + 2) + (d + 3) - d) / 2 == r + 3 && (r + 1 + (r + 2) + d - (d + 3)) / 2 == r;
    assert (r + 2 + d + (d + 3) - (r + 1)) / 2 == d + 2 && (r + 1 + d + (d + 3) - (r + 2)) / 2 == d + 1;
  }

  lemma ShapeIsBase(g: Grid, r: nat, d: nat)
    requires r + 4 <= g.s && d + 4 <= g.s
    ensures IsBase(g, Rectangle(r + 1, d, r + 2, d + 3))
  {
    ShapeEntries(r, d);
    ShapeInside(Shape(d, r), g.s, r, d);
    assert (r + 1 + (r + 2) + d + (d + 3)) % 2 == 0;
  }

  lemma ShapeInside(e: seq<Entry>, s: nat, r: nat, d: nat)
    requires e == Shape(d, r) && r + 4 <= s && d + 4 <= s
    ensures forall k :: 4 <= k < 8 ==> e[k].Inside(s)
  {
  }

  lemma HalvesAreOpposite(g: Grid, d: nat, upper: Rectangle, lower: Rectangle, l: int)
    requires |g.tables| == 1 && IsTable(g.tables[0], g.s, d)
    requires RectEntries(upper) == Shape(d, d) && RectEntries(lower) == Shape(d, d + 4)
    ensures Opposite(g, upper, lower, l)
    ensures l == d + 5 ==> LineSum(g, upper, l) == 1
  {
    ShapeSum(g.tables[0], g.s, d, d, RectEntries(upper), l);
    ShapeSum(g.tables[0], g.s, d, d + 4, RectEntries(lower), l);
  }

  lemma HalvesAreApart(d: nat, upper: Rectangle, lower: Rectangle, j: nat, k: nat)
    requires RectEntries(upper) == Shape(d, d) && RectEntries(lower) == Shape(d, d + 4) && j < 8 && k < 8
    ensures Apart(upper, lower, j, k)
  {
    assert Shape(d, d)[j].r < d + 4 <= Shape(d, d + 4)[k].r;
  }

  lemma HalvesSums(g: Grid, d: nat, upper: Rectangle, lower: Rectangle, l0: int)
    requires |g.tables| == 1 && IsTable(g.tables[0], g.s, d) && l0 == d + 5
    requires RectEntries(upper) == Shape(d, d) && RectEntries(lower) == Shape(d, d + 4)
    ensures AllOpposite(g, upper, lower) && LineSum(g, upper, l0) == 1
  {
    forall l: int ensures Opposite(g, upper, lower, l) {
      HalvesAreOpposite(g, d, upper, lower, l);
    }
    HalvesAreOpposite(g, d, upper, lower, l0);
  }

  lemma HalvesCells(d: nat, upper: Rectangle, lower: Rectangle)
    requires RectEntries(upper) == Shape(d, d) && RectEntries(lower) == Shape(d, d + 4)
    ensures AllApart(upper, lower)
  {
    forall j: nat, k: nat | j < 8 && k < 8 ensures Apart(upper, lower, j, k) {
      HalvesAreApart(d, upper, lower, j, k);
    }
  }

  /** The grid with that table, and the two rectangles. */
  ghost predicate Instance(g: Grid, d: nat, upper: Rectangle, lower: Rectangle) {
    |g.tables| == 1 && IsTable(g.tables[0], g.s, d) && upper == Upper(d) && lower == Lower(d)
  }

  lemma InstanceShapes(g: Grid, d: nat, upper: Rectangle, lower: Rectangle)
    requires Instance(g, d, upper, lower)
    ensures g.Wf() && IsBase(g, upper) && IsBase(g, lower)
    ensures RectEntries(upper) == Shape(d, d) && RectEntries(lower) == Shape(d, d + 4)
  {
    ShapeEntries(d, d);
    ShapeEntries(d + 4, d);
    ShapeIsBase(g, d, d);
    ShapeIsBase(g, d + 4, d);
  }

  lemma InstanceCancels(g: Grid, d: nat, upper: Rectangle, lower: Rectangle, l0: int)
    requires Instance(g, d, upper, lower) && l0 == d + 5
    ensures Cancelling(g, upper, lower, l0)
  {
    InstanceShapes(g, d, upper, lower);
    HalvesSums(g, d, upper, lower, l0);
    HalvesCells(d, upper, lower);
  }

  /** For every side and every offset there are a table with `s` cells on each line and a rectangle whose trial reports
      nothing though a swap of sixteen cells extends its base. */
  lemma SmallSwapIsMissed(s: nat, d: nat) returns (g: Grid, upper: Rectangle, ext: Swap)
    requires s >= d + 8
    ensures g.s == s && |g.tables| == 1 && LtpTables.Balanced(g.tables[0], s)
    ensures upper == Rectangle(d + 1, d, d + 2, d + 3) && g.Wf() && IsBase(g, upper) && !Perfect(g, upper)
    ensures IsSwap(g, ext) && g.Balanced(ext) && Extends(ext, Cells(g, upper)) && |ext| == 16
  {
    g := Grid(s, [ExchangedTable(s, d)]);
    upper := Upper(d);
    ExchangedIsBalanced(s, d);
    InstanceShapes(g, d, upper, Lower(d));
    InstanceCancels(g, d, upper, Lower(d), d + 5);
    ext := MissedSwap(g, upper, Lower(d), d + 5);
  }
}
