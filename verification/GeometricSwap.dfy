/** Swaps of matrix cells, the line sums they change, and the eight-cell swap that changes no row, column,
    diagonal or anti-diagonal sum. */
module GeometricSwap {
  import opened Arithmetic

  datatype Option<T> = None | Some(value: T)

  /** The cells to change: +1 sets a cell, -1 clears it. */
  type Swap = map<nat, int>

  /** A line: its family and its number in the family. */
  type Key = (nat, int)

  const GEOMETRIC: nat := 4

  /** The grid of side `s` with four geometric families and one family for each table. */
  datatype Grid = Grid(s: nat, tables: seq<seq<nat>>) {
    predicate Wf() {
      s > 0 && forall k :: 0 <= k < |tables| ==> |tables[k]| == Size()
    }

    function Size(): nat {
      s * s
    }

    function Families(): nat {
      GEOMETRIC + |tables|
    }

    function LineOf(fam: nat, flat: nat): int
      requires Wf() && fam < Families() && flat < Size()
    {
      var r, c := flat / s, flat % s;
      if fam == 0 then r
      else if fam == 1 then c
      else if fam == 2 then c - r + s - 1
      else if fam == 3 then r + c
      else tables[fam - GEOMETRIC][flat]
    }

    predicate On(flat: nat, key: Key)
      requires Wf()
    {
      flat < Size() && key.0 < Families() && LineOf(key.0, flat) == key.1
    }

    /** The sum of the signs of the cells below `n` on a line. */
    function ExcessTo(cells: Swap, key: Key, n: nat): int
      requires Wf()
    {
      if n == 0 then 0
      else ExcessTo(cells, key, n - 1) + if n - 1 in cells && On(n - 1, key) then cells[n - 1] else 0
    }

    function Excess(cells: Swap, key: Key): int
      requires Wf()
    {
      ExcessTo(cells, key, Size())
    }

    ghost predicate Balanced(cells: Swap)
      requires Wf()
    {
      forall key: Key :: Excess(cells, key) == 0
    }

    /** Number of ones below `n` on a line. */
    function OnesTo(x: seq<bool>, key: Key, n: nat): nat
      requires Wf() && n <= |x|
    {
      if n == 0 then 0
      else OnesTo(x, key, n - 1) + if x[n - 1] && On(n - 1, key) then 1 else 0
    }

    function Ones(x: seq<bool>, key: Key): nat
      requires Wf() && |x| == Size()
    {
      OnesTo(x, key, Size())
    }
  }

  // ---- what a swap does to the line sums ----

  /** Cells that the swap sets are 0 and cells that it clears are 1. */
  ghost predicate Applicable(x: seq<bool>, cells: Swap) {
    forall f :: f in cells ==> f < |x| && cells[f] == if x[f] then -1 else 1
  }

  function Apply(x: seq<bool>, cells: Swap): (y: seq<bool>)
    ensures |y| == |x|
  {
    seq(|x|, f requires 0 <= f < |x| => x[f] != (f in cells))
  }

  lemma {:induction false} ApplyAdds(g: Grid, x: seq<bool>, cells: Swap, key: Key, n: nat)
    requires g.Wf() && n <= |x| && Applicable(x, cells)
    ensures g.OnesTo(Apply(x, cells), key, n) == g.OnesTo(x, key, n) + g.ExcessTo(cells, key, n)
  {
    if n > 0 {
      ApplyAdds(g, x, cells, key, n - 1);
    }
  }

  /** A swap keeps every line sum of a matrix exactly when it is balanced. */
  lemma BalancedKeepsSums(g: Grid, x: seq<bool>, cells: Swap)
    requires g.Wf() && |x| == g.Size() && Applicable(x, cells)
    ensures g.Balanced(cells) <==> forall key: Key :: g.Ones(Apply(x, cells), key) == g.Ones(x, key)
  {
    forall key: Key ensures g.Ones(Apply(x, cells), key) == g.Ones(x, key) + g.Excess(cells, key) {
      ApplyAdds(g, x, cells, key, g.Size());
    }
  }

  // ---- violations ----

  lemma {:induction false} ExcessInsert(g: Grid, cells: Swap, flat: nat, sign: int, key: Key, n: nat)
    requires g.Wf() && flat !in cells
    ensures g.ExcessTo(cells[flat := sign], key, n) ==
      g.ExcessTo(cells, key, n) + if flat < n && g.On(flat, key) then sign else 0
  {
    if n > 0 {
      ExcessInsert(g, cells, flat, sign, key, n - 1);
    }
  }

  lemma {:induction false} ExcessOfNothing(g: Grid, key: Key, n: nat)
    requires g.Wf()
    ensures g.ExcessTo(map[], key, n) == 0
  {
    if n > 0 {
      ExcessOfNothing(g, key, n - 1);
    }
  }

  function Get(m: map<Key, int>, key: Key): int {
    if key in m then m[key] else 0
  }

  ghost predicate InGrid(g: Grid, cells: Swap) {
    forall f :: f in cells ==> f < g.Size()
  }

  function Restrict(cells: Swap, rest: set<nat>): Swap {
    map f | f in cells && f !in rest :: cells[f]
  }

  /** One cell adds its sign to its line in every family. */
  method AddCell(g: Grid, sums: map<Key, int>, flat: nat, sign: int) returns (next: map<Key, int>)
    requires g.Wf() && flat < g.Size()
    ensures forall key: Key :: Get(next, key) == Get(sums, key) + if g.On(flat, key) then sign else 0
  {
    next := sums;
    for fam: nat := 0 to g.Families()
      invariant forall key: Key ::
        Get(next, key) == Get(sums, key) + if key.0 < fam && g.On(flat, key) then sign else 0
    {
      var key := (fam, g.LineOf(fam, flat));
      next := next[key := Get(next, key) + sign];
    }
  }

  /** The sums of signs of all lines. */
  method SumLines(g: Grid, cells: Swap) returns (sums: map<Key, int>)
    requires g.Wf() && InGrid(g, cells)
    ensures forall key: Key :: Get(sums, key) == g.Excess(cells, key)
  {
    sums := map[];
    var rest := cells.Keys;
    forall key: Key ensures g.Excess(Restrict(cells, rest), key) == 0 {
      assert Restrict(cells, rest) == map[];
      ExcessOfNothing(g, key, g.Size());
    }
    while rest != {}
      invariant rest <= cells.Keys
      invariant forall key: Key :: Get(sums, key) == g.Excess(Restrict(cells, rest), key)
      decreases rest
    {
      var flat :| flat in rest;
      ghost var before := Restrict(cells, rest);
      sums := AddCell(g, sums, flat, cells[flat]);
      rest := rest - {flat};
      assert Restrict(cells, rest) == before[flat := cells[flat]];
      forall key: Key
        ensures g.Excess(Restrict(cells, rest), key) ==
          g.Excess(before, key) + if g.On(flat, key) then cells[flat] else 0
      {
        ExcessInsert(g, before, flat, cells[flat], key, g.Size());
      }
    }
    assert Restrict(cells, {}) == cells;
  }

  /** `viol` holds exactly the lines with a nonzero sum, with their sums. */
  ghost predicate IsViolations(g: Grid, cells: Swap, viol: map<Key, int>)
    requires g.Wf()
  {
    forall key: Key :: Get(viol, key) == g.Excess(cells, key) && (key in viol ==> viol[key] != 0)
  }

  method ComputeViolations(g: Grid, cells: Swap) returns (viol: map<Key, int>)
    requires g.Wf() && InGrid(g, cells)
    ensures IsViolations(g, cells, viol)
    ensures viol == map[] <==> g.Balanced(cells)
  {
    var sums := SumLines(g, cells);
    viol := map key | key in sums && sums[key] != 0 :: sums[key];
    NoViolations(g, cells, viol);
  }

  lemma NoViolations(g: Grid, cells: Swap, viol: map<Key, int>)
    requires g.Wf() && IsViolations(g, cells, viol)
    ensures viol == map[] <==> g.Balanced(cells)
  {
    if viol == map[] {
      forall key: Key ensures g.Excess(cells, key) == 0 {
        assert Get(viol, key) == 0;
      }
    }
    if g.Balanced(cells) {
      forall key: Key ensures key !in viol {
        assert g.Excess(cells, key) == 0 && Get(viol, key) == 0;
      }
    }
  }

  /** Whether all row, column, diagonal and anti-diagonal sums are zero. */
  method VerifyGeometric(s: nat, cells: Swap) returns (ok: bool)
    requires s > 0 && InGrid(Grid(s, []), cells)
    ensures ok <==> Grid(s, []).Balanced(cells)
  {
    var g := Grid(s, []);
    var sums := SumLines(g, cells);
    ok := forall key :: key in sums ==> sums[key] == 0;
    if ok {
      forall key: Key ensures g.Excess(cells, key) == 0 {
        assert Get(sums, key) == 0;
      }
    } else {
      var key :| key in sums && sums[key] != 0;
      assert g.Excess(cells, key) == Get(sums, key);
    }
  }

  // ---- the eight-cell swap ----

  datatype Entry = Entry(r: int, c: int, sign: int) {
    predicate Inside(s: nat) {
      0 <= r < s && 0 <= c < s
    }

    function Flat(s: nat): int {
      r * s + c
    }

    /** The line of the cell in a geometric family. */
    function Line(s: nat, fam: nat): int {
      if fam == 0 then r else if fam == 1 then c else if fam == 2 then c - r + s - 1 else r + c
    }
  }

  /** The corners of the rectangle and the four cells that repair its diagonals. */
  function Entries(r1: nat, c1: nat, r2: nat, c2: nat): (e: seq<Entry>)
    ensures |e| == 8
  {
    [Entry(r1, c1, 1), Entry(r1, c2, -1), Entry(r2, c1, -1), Entry(r2, c2, 1),
     Entry((r1 + r2 + c2 - c1) / 2, (r2 + c1 + c2 - r1) / 2, -1),
     Entry((r1 + r2 + c1 - c2) / 2, (r2 + c1 + c2 - r1) / 2, 1),
     Entry((r1 + r2 + c2 - c1) / 2, (r1 + c1 + c2 - r2) / 2, 1),
     Entry((r1 + r2 + c1 - c2) / 2, (r1 + c1 + c2 - r2) / 2, -1)]
  }

  lemma EntryOnGrid(s: nat, e: Entry)
    requires s > 0 && e.Inside(s)
    ensures 0 <= e.Flat(s) < s * s && e.Flat(s) / s == e.r && e.Flat(s) % s == e.c
  {
    SlotFits(s, e.r, e.c);
    SlotDivides(s, e.r, e.c);
  }

  /** What a cell adds to the sum of a line. */
  function Part(e: Entry, s: nat, key: Key): int {
    if key.0 < GEOMETRIC && e.Line(s, key.0) == key.1 then e.sign else 0
  }

  function SignSum(e: seq<Entry>, s: nat, key: Key, n: nat): int
    requires n <= |e|
  {
    if n == 0 then 0 else SignSum(e, s, key, n - 1) + Part(e[n - 1], s, key)
  }

  lemma PartsSum(e: seq<Entry>, s: nat, key: Key)
    requires |e| == 8
    ensures SignSum(e, s, key, 8) ==
      Part(e[0], s, key) + Part(e[1], s, key) + Part(e[2], s, key) + Part(e[3], s, key) +
      Part(e[4], s, key) + Part(e[5], s, key) + Part(e[6], s, key) + Part(e[7], s, key)
  {
    assert SignSum(e, s, key, 8) == SignSum(e, s, key, 6) + Part(e[6], s, key) + Part(e[7], s, key);
    assert SignSum(e, s, key, 6) == SignSum(e, s, key, 4) + Part(e[4], s, key) + Part(e[5], s, key);
    assert SignSum(e, s, key, 4) == SignSum(e, s, key, 2) + Part(e[2], s, key) + Part(e[3], s, key);
    assert SignSum(e, s, key, 2) == SignSum(e, s, key, 0) + Part(e[0], s, key) + Part(e[1], s, key);
  }

  lemma PairCancels(d: Entry, e: Entry, s: nat, key: Key)
    requires key.0 < GEOMETRIC ==> d.Line(s, key.0) == e.Line(s, key.0)
    requires d.sign == -e.sign
    ensures Part(d, s, key) + Part(e, s, key) == 0
  {
  }

  /** Where the repair cells lie: on the diagonals of the corners, and in pairs on rows and columns. */
  lemma RepairLines(r1: nat, c1: nat, r2: nat, c2: nat, e: seq<Entry>)
    requires (r1 + r2 + c1 + c2) % 2 == 0 && e == Entries(r1, c1, r2, c2)
    ensures e[4].r == e[6].r && e[5].r == e[7].r && e[4].c == e[5].c && e[6].c == e[7].c
    ensures e[4].c - e[4].r == c1 - r1 && e[4].c + e[4].r == c2 + r2
    ensures e[5].c - e[5].r == c2 - r1 && e[5].c + e[5].r == c1 + r2
    ensures e[6].c - e[6].r == c1 - r2 && e[6].c + e[6].r == c2 + r1
    ensures e[7].c - e[7].r == c2 - r2 && e[7].c + e[7].r == c1 + r1
  {
    assert 2 * e[4].r == r1 + r2 + c2 - c1 && 2 * e[4].c == r2 + c1 + c2 - r1;
    assert 2 * e[7].r == r1 + r2 + c1 - c2 && 2 * e[7].c == r1 + c1 + c2 - r2;
  }

  /** The signs of the eight cells cancel on every line. */
  lemma EntriesCancel(r1: nat, c1: nat, r2: nat, c2: nat, s: nat, key: Key)
    requires (r1 + r2 + c1 + c2) % 2 == 0
    ensures SignSum(Entries(r1, c1, r2, c2), s, key, 8) == 0
  {
    var e := Entries(r1, c1, r2, c2);
    RepairLines(r1, c1, r2, c2, e);
    PartsSum(e, s, key);
    if key.0 == 0 {
      PairCancels(e[0], e[1], s, key);
      PairCancels(e[2], e[3], s, key);
      PairCancels(e[4], e[6], s, key);
      PairCancels(e[5], e[7], s, key);
    } else if key.0 == 1 {
      PairCancels(e[0], e[2], s, key);
      PairCancels(e[1], e[3], s, key);
      PairCancels(e[4], e[5], s, key);
      PairCancels(e[6], e[7], s, key);
    } else if key.0 == 2 {
      PairCancels(e[0], e[4], s, key);
      PairCancels(e[1], e[5], s, key);
      PairCancels(e[2], e[6], s, key);
      PairCancels(e[3], e[7], s, key);
    } else if key.0 == 3 {
      PairCancels(e[0], e[7], s, key);
      PairCancels(e[1], e[6], s, key);
      PairCancels(e[2], e[5], s, key);
      PairCancels(e[3], e[4], s, key);
    }
  }

  /** The cells of the first `n` entries are on the grid, and from the fifth on each is new. */
  ghost predicate Placed(e: seq<Entry>, s: nat, n: nat)
    requires n <= |e|
  {
    && (forall k :: 0 <= k < n ==> e[k].Inside(s))
    && forall j, k :: 0 <= j < k < n && 4 <= k ==> e[j].Flat(s) != e[k].Flat(s)
  }

  ghost predicate Holds(e: seq<Entry>, s: nat, n: nat, cells: Swap)
    requires n <= |e|
  {
    && (forall k :: 0 <= k < n ==> e[k].Inside(s) && e[k].Flat(s) in cells)
    && (forall f: nat :: f in cells ==> exists k :: 0 <= k < n && e[k].Flat(s) == f)
  }

  /** The side lengths of the rectangle differ, none is zero, and the repair cells fall inside the grid. */
  predicate Repairable(s: nat, r1: nat, c1: nat, r2: nat, c2: nat) {
    && (r1 + r2 + c1 + c2) % 2 == 0
    && r1 != r2 && c1 != c2 && r2 - r1 != c2 - c1 && r2 - r1 != c1 - c2
    && forall k :: 4 <= k < 8 ==> Entries(r1, c1, r2, c2)[k].Inside(s)
  }

  /** Two entries on the same cell. */
  lemma SameCell(s: nat, d: Entry, e: Entry)
    requires s > 0 && d.Inside(s) && e.Inside(s) && d.Flat(s) == e.Flat(s)
    ensures d.r == e.r && d.c == e.c
  {
    EntryOnGrid(s, d);
    EntryOnGrid(s, e);
  }

  /** The repair cells of a repairable rectangle are eight distinct cells with its corners. */
  lemma RepairableIsDistinct(s: nat, r1: nat, c1: nat, r2: nat, c2: nat, j: nat, k: nat)
    requires Repairable(s, r1, c1, r2, c2) && j < k < 8 && 4 <= k
    ensures var e := Entries(r1, c1, r2, c2); e[j].r != e[k].r || e[j].c != e[k].c
  {
    var e := Entries(r1, c1, r2, c2);
    assert 2 * e[4].r == r1 + r2 + c2 - c1 && 2 * e[4].c == r2 + c1 + c2 - r1;
    assert 2 * e[5].r == r1 + r2 + c1 - c2 && 2 * e[6].c == r1 + c1 + c2 - r2;
    assert j == 0 || j == 1 || j == 2 || j == 3 || j == 4 || j == 5 || j == 6;
    assert k == 4 || k == 5 || k == 6 || k == 7;
  }

  lemma PlacedIsRepairable(s: nat, r1: nat, c1: nat, r2: nat, c2: nat)
    requires (r1 + r2 + c1 + c2) % 2 == 0 && Placed(Entries(r1, c1, r2, c2), s, 8)
    ensures Repairable(s, r1, c1, r2, c2)
  {
    var e := Entries(r1, c1, r2, c2);
    assert c1 != c2 by {
      assert e[4].Flat(s) != e[5].Flat(s);
    }
    assert r1 != r2 by {
      assert e[4].Flat(s) != e[6].Flat(s);
    }
    assert r2 - r1 != c2 - c1 by {
      assert e[3].Flat(s) != e[4].Flat(s);
    }
    assert r2 - r1 != c1 - c2 by {
      assert e[0].Flat(s) != e[4].Flat(s);
    }
  }

  /** `cells` has the first `n` entries and, as long as they are distinct, their signs. */
  ghost predicate Tallied(s: nat, e: seq<Entry>, n: nat, cells: Swap)
    requires s > 0 && n <= |e|
  {
    && InGrid(Grid(s, []), cells) && |cells| == n
    && forall key: Key :: Grid(s, []).Excess(cells, key) == SignSum(e, s, key, n)
  }

  lemma EntryLine(s: nat, e: Entry, key: Key)
    requires s > 0 && e.Inside(s)
    ensures Grid(s, []).On(e.Flat(s), key) <==> key.0 < GEOMETRIC && e.Line(s, key.0) == key.1
  {
    EntryOnGrid(s, e);
  }

  lemma EntryAdds(s: nat, e: Entry, cells: Swap, key: Key)
    requires s > 0 && e.Inside(s) && e.Flat(s) >= 0 && e.Flat(s) !in cells
    ensures Grid(s, []).Excess(cells[e.Flat(s) := e.sign], key) == Grid(s, []).Excess(cells, key) + Part(e, s, key)
  {
    EntryOnGrid(s, e);
    EntryLine(s, e, key);
    ExcessInsert(Grid(s, []), cells, e.Flat(s), e.sign, key, Grid(s, []).Size());
  }

  lemma OneMoreCell(s: nat, cells: Swap, flat: nat, sign: int)
    requires s > 0 && InGrid(Grid(s, []), cells) && flat < s * s && flat !in cells
    ensures InGrid(Grid(s, []), cells[flat := sign]) && |cells[flat := sign]| == |cells| + 1
  {
    assert cells[flat := sign].Keys == cells.Keys + {flat};
  }

  lemma PlaceEntry(s: nat, e: seq<Entry>, n: nat, cells: Swap)
    requires s > 0 && n < |e| && Tallied(s, e, n, cells) && e[n].Inside(s) && e[n].Flat(s) !in cells
    ensures Tallied(s, e, n + 1, cells[e[n].Flat(s) := e[n].sign])
  {
    EntryOnGrid(s, e[n]);
    var flat: nat := e[n].Flat(s);
    OneMoreCell(s, cells, flat, e[n].sign);
    var next := cells[flat := e[n].sign];
    forall key: Key ensures Grid(s, []).Excess(next, key) == SignSum(e, s, key, n + 1) {
      TallyNext(s, e, n, cells, flat, key);
    }
  }

  lemma TallyNext(s: nat, e: seq<Entry>, n: nat, cells: Swap, flat: nat, key: Key)
    requires s > 0 && n < |e| && Tallied(s, e, n, cells) && e[n].Inside(s) && flat == e[n].Flat(s) && flat !in cells
    ensures Grid(s, []).Excess(cells[flat := e[n].sign], key) == SignSum(e, s, key, n + 1)
  {
    EntryAdds(s, e[n], cells, key);
  }

  lemma NothingPlaced(s: nat, e: seq<Entry>)
    requires s > 0
    ensures Tallied(s, e, 0, map[])
  {
    forall key: Key ensures Grid(s, []).Excess(map[], key) == 0 {
      ExcessOfNothing(Grid(s, []), key, s * s);
    }
  }

  /** The first `n` entries are distinct cells of the grid. */
  ghost predicate DistinctCells(s: nat, e: seq<Entry>, n: nat)
    requires n <= |e|
  {
    && (forall k :: 0 <= k < n ==> e[k].Inside(s) && e[k].Flat(s) >= 0 && (e[k].sign == 1 || e[k].sign == -1))
    && forall j, k :: 0 <= j < k < n ==> e[j].Flat(s) != e[k].Flat(s)
  }

  /** The first `n` entries as a swap. */
  function Place(s: nat, e: seq<Entry>, n: nat): Swap
    requires n <= |e| && forall k :: 0 <= k < n ==> e[k].Flat(s) >= 0
  {
    if n == 0 then map[] else Place(s, e, n - 1)[e[n - 1].Flat(s) := e[n - 1].sign]
  }

  /** Every cell is in the grid and has a sign. */
  ghost predicate IsSwap(g: Grid, cells: Swap) {
    InGrid(g, cells) && forall f :: f in cells ==> cells[f] == 1 || cells[f] == -1
  }

  /** The first `n` entries are in the swap with their signs. */
  ghost predicate Signed(s: nat, e: seq<Entry>, n: nat, cells: Swap)
    requires n <= |e|
  {
    forall k :: 0 <= k < n ==> 0 <= e[k].Flat(s) && e[k].Flat(s) in cells && cells[e[k].Flat(s)] == e[k].sign
  }

  lemma SignedStep(s: nat, e: seq<Entry>, n: nat, cells: Swap)
    requires n < |e| && Signed(s, e, n, cells) && 0 <= e[n].Flat(s) && e[n].Flat(s) !in cells
    ensures Signed(s, e, n + 1, cells[e[n].Flat(s) := e[n].sign])
  {
  }

  lemma {:induction false} PlaceHolds(s: nat, e: seq<Entry>, n: nat, cells: Swap)
    requires n <= |e| && (forall k :: 0 <= k < n ==> e[k].Inside(s) && e[k].Flat(s) >= 0) && cells == Place(s, e, n)
    ensures Holds(e, s, n, cells)
  {
    if n > 0 {
      var before := Place(s, e, n - 1);
      PlaceHolds(s, e, n - 1, before);
      HoldsStep(s, e, n - 1, before);
    }
  }

  lemma HoldsStep(s: nat, e: seq<Entry>, n: nat, cells: Swap)
    requires n < |e| && Holds(e, s, n, cells) && e[n].Inside(s) && e[n].Flat(s) >= 0
    ensures Holds(e, s, n + 1, cells[e[n].Flat(s) := e[n].sign])
  {
    var next := cells[e[n].Flat(s) := e[n].sign];
    forall f: nat | f in next ensures exists k :: 0 <= k < n + 1 && e[k].Flat(s) == f {
      if f in cells {
        var k :| 0 <= k < n && e[k].Flat(s) == f;
      } else {
        assert e[n].Flat(s) == f;
      }
    }
  }

  /** `cells` is made of the first `n` entries. */
  ghost predicate MadeOf(s: nat, e: seq<Entry>, n: nat, cells: Swap)
    requires s > 0 && n <= |e|
  {
    Tallied(s, e, n, cells) && Signed(s, e, n, cells) && Holds(e, s, n, cells) && IsSwap(Grid(s, []), cells)
  }

  lemma NextEntryIsNew(s: nat, e: seq<Entry>, n: nat, cells: Swap)
    requires n < |e| && DistinctCells(s, e, n + 1) && Holds(e, s, n, cells)
    ensures e[n].Flat(s) !in cells
  {
    assert forall k :: 0 <= k < n ==> e[k].Flat(s) != e[n].Flat(s);
  }

  lemma MadeOfNext(s: nat, e: seq<Entry>, n: nat, cells: Swap, next: Swap)
    requires s > 0 && n < |e| && DistinctCells(s, e, n + 1) && MadeOf(s, e, n, cells)
    requires next == cells[e[n].Flat(s) := e[n].sign]
    ensures MadeOf(s, e, n + 1, next)
  {
    NextEntryIsNew(s, e, n, cells);
    PlaceEntry(s, e, n, cells);
    SignedStep(s, e, n, cells);
    HoldsStep(s, e, n, cells);
  }

  ghost predicate NextPlace(s: nat, e: Entry, cells: Swap, next: Swap) {
    e.Flat(s) >= 0 && next == cells[e.Flat(s) := e.sign]
  }

  /** `states[k]` holds the first `k` entries. */
  ghost predicate Placing(s: nat, e: seq<Entry>, n: nat, states: seq<Swap>)
    requires n <= |e|
  {
    |states| == n + 1 && states[0] == map[] && forall k :: 0 <= k < n ==> NextPlace(s, e[k], states[k], states[k + 1])
  }

  lemma {:induction false} PlacingIsMadeOf(s: nat, e: seq<Entry>, n: nat, states: seq<Swap>, k: nat)
    requires s > 0 && n <= |e| && DistinctCells(s, e, n) && Placing(s, e, n, states) && k <= n
    ensures MadeOf(s, e, k, states[k])
  {
    if k == 0 {
      NothingPlaced(s, e);
    } else {
      PlacingIsMadeOf(s, e, n, states, k - 1);
      assert NextPlace(s, e[k - 1], states[k - 1], states[k - 1 + 1]);
      MadeOfNext(s, e, k - 1, states[k - 1], states[k]);
    }
  }

  lemma PlaceStates(s: nat, e: seq<Entry>, n: nat) returns (states: seq<Swap>)
    requires n <= |e| && DistinctCells(s, e, n)
    ensures Placing(s, e, n, states) && states[n] == Place(s, e, n)
  {
    states := seq(n + 1, k requires 0 <= k <= n => Place(s, e, k));
  }

  lemma PlaceIsTallied(s: nat, e: seq<Entry>, n: nat)
    requires s > 0 && n <= |e| && DistinctCells(s, e, n)
    ensures MadeOf(s, e, n, Place(s, e, n))
  {
    var states := PlaceStates(s, e, n);
    PlacingIsMadeOf(s, e, n, states, n);
  }

  /** The corners of a proper rectangle are distinct cells. */
  lemma CornersAreDistinct(s: nat, r1: nat, c1: nat, r2: nat, c2: nat)
    requires r1 < s && c1 < s && r2 < s && c2 < s && r1 != r2 && c1 != c2
    ensures DistinctCells(s, Entries(r1, c1, r2, c2), 4)
  {
    var e := Entries(r1, c1, r2, c2);
    forall k | 0 <= k < 4 ensures e[k].Inside(s) && e[k].Flat(s) >= 0 && (e[k].sign == 1 || e[k].sign == -1) {
      EntryOnGrid(s, e[k]);
    }
    forall j, k | 0 <= j < k < 4 ensures e[j].Flat(s) != e[k].Flat(s) {
      if e[j].Flat(s) == e[k].Flat(s) {
        SameCell(s, e[j], e[k]);
      }
    }
  }

  lemma PlacedStep(s: nat, e: seq<Entry>, n: nat, cells: Swap)
    requires n < |e| && 4 <= n && Placed(e, s, n) && Holds(e, s, n, cells)
    requires e[n].Inside(s) && e[n].Flat(s) >= 0 && e[n].Flat(s) !in cells
    ensures Placed(e, s, n + 1)
  {
  }

  lemma Overlap(s: nat, r1: nat, c1: nat, r2: nat, c2: nat, i: nat, cells: Swap)
    requires s > 0 && 4 <= i < 8 && Entries(r1, c1, r2, c2)[i].Inside(s)
    requires Holds(Entries(r1, c1, r2, c2), s, i, cells) && Entries(r1, c1, r2, c2)[i].Flat(s) in cells
    ensures !Repairable(s, r1, c1, r2, c2)
  {
    var e := Entries(r1, c1, r2, c2);
    var k :| 0 <= k < i && e[k].Flat(s) == e[i].Flat(s);
    SameCell(s, e[k], e[i]);
    if Repairable(s, r1, c1, r2, c2) {
      RepairableIsDistinct(s, r1, c1, r2, c2, k, i);
    }
  }

  /** Adds the repair cells to the rectangle, unless one is outside the grid or in the swap already. */
  method Repair(s: nat, r1: nat, c1: nat, r2: nat, c2: nat, rectangle: Swap) returns (base: Option<Swap>)
    requires s > 0 && Placed(Entries(r1, c1, r2, c2), s, 4) && Holds(Entries(r1, c1, r2, c2), s, 4, rectangle)
    requires r1 != r2 && c1 != c2 ==>
      Tallied(s, Entries(r1, c1, r2, c2), 4, rectangle) && Signed(s, Entries(r1, c1, r2, c2), 4, rectangle)
    ensures base.None? ==> !Repairable(s, r1, c1, r2, c2)
    ensures base.Some? ==> Placed(Entries(r1, c1, r2, c2), s, 8) && Holds(Entries(r1, c1, r2, c2), s, 8, base.value)
    ensures base.Some? && r1 != r2 && c1 != c2 ==>
      Tallied(s, Entries(r1, c1, r2, c2), 8, base.value) && Signed(s, Entries(r1, c1, r2, c2), 8, base.value)
  {
    var e := Entries(r1, c1, r2, c2);
    var cells: Swap := rectangle;
    for i := 4 to 8
      invariant Placed(e, s, i) && Holds(e, s, i, cells)
      invariant r1 != r2 && c1 != c2 ==> Tallied(s, e, i, cells) && Signed(s, e, i, cells)
    {
      if !e[i].Inside(s) {
        return None;
      }
      EntryOnGrid(s, e[i]);
      var flat: nat := e[i].Flat(s);
      if flat in cells {
        Overlap(s, r1, c1, r2, c2, i, cells);
        return None;
      }
      if r1 != r2 && c1 != c2 {
        PlaceEntry(s, e, i, cells);
        SignedStep(s, e, i, cells);
      }
      PlacedStep(s, e, i, cells);
      HoldsStep(s, e, i, cells);
      cells := cells[flat := e[i].sign];
    }
    return Some(cells);
  }

  lemma TalliedIsBalanced(s: nat, r1: nat, c1: nat, r2: nat, c2: nat, cells: Swap)
    requires s > 0 && (r1 + r2 + c1 + c2) % 2 == 0 && Tallied(s, Entries(r1, c1, r2, c2), 8, cells)
    ensures Grid(s, []).Balanced(cells)
  {
    forall key: Key ensures Grid(s, []).Excess(cells, key) == 0 {
      EntriesCancel(r1, c1, r2, c2, s, key);
    }
  }

  lemma RepairableCells(s: nat, r1: nat, c1: nat, r2: nat, c2: nat)
    requires r1 < s && c1 < s && r2 < s && c2 < s && Repairable(s, r1, c1, r2, c2)
    ensures DistinctCells(s, Entries(r1, c1, r2, c2), 8)
  {
    var e := Entries(r1, c1, r2, c2);
    forall k | 0 <= k < 8 ensures e[k].Inside(s) && e[k].Flat(s) >= 0 {
      assert e[k].Inside(s);
      EntryOnGrid(s, e[k]);
    }
    forall j, k | 0 <= j < k < 8 ensures e[j].Flat(s) != e[k].Flat(s) {
      if k >= 4 {
        RepairableIsDistinct(s, r1, c1, r2, c2, j, k);
      }
      if e[j].Flat(s) == e[k].Flat(s) {
        SameCell(s, e[j], e[k]);
      }
    }
  }

  /** The eight cells of a rectangle that can be repaired. */
  ghost function EightCells(s: nat, r1: nat, c1: nat, r2: nat, c2: nat): Swap
    requires r1 < s && c1 < s && r2 < s && c2 < s && Repairable(s, r1, c1, r2, c2)
  {
    RepairableCells(s, r1, c1, r2, c2);
    Place(s, Entries(r1, c1, r2, c2), 8)
  }

  /** Distinct entries with their signs and nothing else make one swap. */
  lemma EntriesDecide(s: nat, e: seq<Entry>, n: nat, cells: Swap)
    requires s > 0 && n <= |e| && DistinctCells(s, e, n) && Holds(e, s, n, cells) && Signed(s, e, n, cells)
    ensures cells == Place(s, e, n)
  {
    var other := Place(s, e, n);
    PlaceIsTallied(s, e, n);
    forall f: nat ensures f in cells <==> f in other {
    }
    forall f: nat | f in cells ensures cells[f] == other[f] {
      var k :| 0 <= k < n && e[k].Flat(s) == f;
    }
  }

  /** The balanced eight-cell swap of a rectangle, when its repair cells exist: the eight entries with their signs. */
  method MakeGeometricBase(s: nat, r1: nat, c1: nat, r2: nat, c2: nat) returns (base: Option<Swap>)
    requires r1 < s && c1 < s && r2 < s && c2 < s
    ensures base.Some? <==> Repairable(s, r1, c1, r2, c2)
    ensures base.Some? ==> InGrid(Grid(s, []), base.value) && |base.value| == 8 && Grid(s, []).Balanced(base.value)
    ensures base.Some? ==> base.value == EightCells(s, r1, c1, r2, c2)
    ensures base.Some? ==> Signed(s, Entries(r1, c1, r2, c2), 8, base.value)
  {
    if (r1 + r2 + c1 + c2) % 2 != 0 {
      return None;
    }
    var e := Entries(r1, c1, r2, c2);
    forall k | 0 <= k < 4 ensures 0 <= e[k].Flat(s) < s * s {
      EntryOnGrid(s, e[k]);
    }
    PlaceHolds(s, e, 4, Place(s, e, 4));
    if r1 != r2 && c1 != c2 {
      CornersAreDistinct(s, r1, c1, r2, c2);
      PlaceIsTallied(s, e, 4);
    }
    base := Repair(s, r1, c1, r2, c2, Place(s, e, 4));
    if base.Some? {
      PlacedIsRepairable(s, r1, c1, r2, c2);
      TalliedIsBalanced(s, r1, c1, r2, c2, base.value);
      RepairableCells(s, r1, c1, r2, c2);
      EntriesDecide(s, e, 8, base.value);
    }
  }
}
