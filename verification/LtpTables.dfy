/** Look-up-table partitions: a chained Fisher-Yates shuffle cut into lines, the reverse table
    listing the cells of each line, and the count of zone cells per line. */
module LtpTables {
  import opened Arithmetic

  // ---- permutations ----

  /** `inv` is the inverse of the permutation `p`. */
  ghost predicate Inverse(p: seq<nat>, inv: seq<nat>) {
    && |p| == |inv|
    && (forall q :: 0 <= q < |p| ==> p[q] < |p| && inv[p[q]] == q)
    && (forall f :: 0 <= f < |inv| ==> inv[f] < |p| && p[inv[f]] == f)
  }

  lemma SwapInverse(p: seq<nat>, inv: seq<nat>, i: nat, j: nat)
    requires Inverse(p, inv) && i < |p| && j < |p|
    ensures Inverse(p[i := p[j]][j := p[i]], inv[p[i] := j][p[j] := i])
  {
  }

  const MULTIPLIER: nat := 6364136223846793005
  const INCREMENT: nat := 1442695040888963407
  const MODULUS: nat := 0x1_0000_0000_0000_0000

  function LcgNext(state: nat): (next: nat)
    ensures next < MODULUS
  {
    (state * MULTIPLIER + INCREMENT) % MODULUS
  }

  /** The exchanges of a Fisher-Yates pass that remain when the positions from `i` on are settled. */
  function ShuffleFrom(p: seq<nat>, state: nat, i: nat): (r: seq<nat>)
    requires i <= |p|
    ensures |r| == |p|
    decreases i
  {
    if i <= 1 then p else
      var next := LcgNext(state);
      var j := next % i;
      ShuffleFrom(p[i - 1 := p[j]][j := p[i - 1]], next, i - 1)
  }

  /** The pool after the first `k` passes, each shuffling on from the one before. */
  function PoolAfter(s: nat, seeds: seq<nat>, k: nat): (p: seq<nat>)
    requires k <= |seeds|
    ensures |p| == s * s
  {
    if k == 0 then seq(s * s, q requires q >= 0 => q)
    else ShuffleFrom(PoolAfter(s, seeds, k - 1), seeds[k - 1], s * s)
  }

  /** One Fisher-Yates pass over the pool, driven by the generator; the pool stays a permutation. */
  method Shuffle(pool: array<nat>, seed: nat, ghost inv0: seq<nat>) returns (ghost inv: seq<nat>)
    requires Inverse(pool[..], inv0)
    modifies pool
    ensures pool[..] == ShuffleFrom(old(pool[..]), seed, pool.Length)
    ensures Inverse(pool[..], inv)
  {
    inv := inv0;
    var state: nat := seed;
    var i: nat := pool.Length;
    while i > 1
      invariant i <= pool.Length && Inverse(pool[..], inv) && state >= 0
      invariant ShuffleFrom(pool[..], state, i) == ShuffleFrom(old(pool[..]), seed, pool.Length)
    {
      i := i - 1;
      state := LcgNext(state);
      var j := state % (i + 1);
      ghost var before := pool[..];
      SwapInverse(before, inv, i, j);
      inv := inv[before[i] := j][before[j] := i];
      pool[i], pool[j] := pool[j], pool[i];
      assert pool[..] == before[i := before[j]][j := before[i]];
    }
  }

  /** `a` puts the cell in slot `q` of the pool on line `q / s`. */
  ghost predicate CutsPool(a: seq<nat>, s: nat, inv: seq<nat>)
    requires s > 0
  {
    |a| == |inv| && forall f :: 0 <= f < |a| ==> a[f] == inv[f] / s
  }

  method CutPool(pool: array<nat>, s: nat, ghost inv: seq<nat>) returns (a: array<nat>)
    requires pool.Length == s * s && s > 0 && Inverse(pool[..], inv)
    ensures fresh(a) && CutsPool(a[..], s, inv)
  {
    a := new nat[s * s](_ => 0);
    for line := 0 to s
      invariant forall f :: 0 <= f < a.Length && inv[f] / s < line ==> a[f] == inv[f] / s
    {
      for p := 0 to s
        invariant forall f :: 0 <= f < a.Length && inv[f] / s < line ==> a[f] == inv[f] / s
        invariant forall f :: 0 <= f < a.Length && inv[f] / s == line && inv[f] % s < p ==> a[f] == line
      {
        SlotFits(s, line, p);
        a[pool[line * s + p]] := line;
        assert inv[pool[line * s + p]] == line * s + p;
        forall f | 0 <= f < a.Length && inv[f] / s == line && inv[f] % s < p + 1 ensures a[f] == line {
          SlotOf(s, inv[f]);
          if inv[f] % s == p {
            assert pool[inv[f]] == f;
          }
        }
      }
      forall f | 0 <= f < a.Length ensures inv[f] % s < s {
        SlotOf(s, inv[f]);
      }
    }
    forall f | 0 <= f < a.Length ensures a[f] == inv[f] / s {
      SlotOf(s, inv[f]);
    }
  }

  // ---- counting cells of a line ----

  type Zone = nat -> bool

  /** Cells below `k` on line `l` that lie in the zone. */
  function CountOn(a: seq<nat>, zone: Zone, l: nat, k: nat): (c: nat)
    requires k <= |a|
    ensures c <= k
  {
    if k == 0 then 0 else CountOn(a, zone, l, k - 1) + if a[k - 1] == l && zone(k - 1) then 1 else 0
  }

  const EVERYWHERE: Zone := (f: nat) => true

  /** `a` puts exactly `s` cells on every line. */
  ghost predicate Balanced(a: seq<nat>, s: nat) {
    && |a| == s * s
    && (forall f :: 0 <= f < |a| ==> a[f] < s)
    && forall l :: 0 <= l < s ==> CountOn(a, EVERYWHERE, l, |a|) == s
  }

  function Members(a: seq<nat>, l: nat, k: nat): set<nat>
    requires k <= |a|
  {
    if k == 0 then {} else if a[k - 1] == l then Members(a, l, k - 1) + {k - 1} else Members(a, l, k - 1)
  }

  lemma {:induction false} MembersSpec(a: seq<nat>, l: nat, k: nat)
    requires k <= |a|
    ensures forall f: nat :: f in Members(a, l, k) <==> f < k && a[f] == l
    ensures CountOn(a, EVERYWHERE, l, k) == |Members(a, l, k)|
  {
    if k > 0 {
      MembersSpec(a, l, k - 1);
    }
  }

  /** The first `m` entries of `cells`. */
  ghost function Entries(cells: seq<nat>, m: nat): set<nat>
    requires m <= |cells|
  {
    if m == 0 then {} else Entries(cells, m - 1) + {cells[m - 1]}
  }

  lemma {:induction false} EntriesHas(cells: seq<nat>, m: nat, f: nat)
    requires m <= |cells|
    ensures f in Entries(cells, m) <==> exists i :: 0 <= i < m && cells[i] == f
  {
    if m > 0 {
      EntriesHas(cells, m - 1, f);
    }
  }

  lemma {:induction false} EntriesSize(cells: seq<nat>, m: nat)
    requires m <= |cells| && forall i, j :: 0 <= i < j < |cells| ==> cells[i] != cells[j]
    ensures |Entries(cells, m)| == m
  {
    if m > 0 {
      EntriesSize(cells, m - 1);
      EntriesHas(cells, m - 1, cells[m - 1]);
    }
  }

  /** A line whose cells are listed once each in `cells` has that many cells. */
  lemma LineSize(a: seq<nat>, l: nat, cells: seq<nat>)
    requires forall i, j :: 0 <= i < j < |cells| ==> cells[i] != cells[j]
    requires forall f: nat :: f in cells <==> f < |a| && a[f] == l
    ensures CountOn(a, EVERYWHERE, l, |a|) == |cells|
  {
    MembersSpec(a, l, |a|);
    EntriesSize(cells, |cells|);
    forall f: nat ensures f in Members(a, l, |a|) <==> f in Entries(cells, |cells|) {
      EntriesHas(cells, |cells|, f);
      assert f in cells <==> exists i :: 0 <= i < |cells| && cells[i] == f;
    }
    assert Members(a, l, |a|) == Entries(cells, |cells|);
  }

  /** The pool cells in the slots of line `l`. */
  lemma LineCells(a: seq<nat>, p: seq<nat>, inv: seq<nat>, s: nat, l: nat) returns (cells: seq<nat>)
    requires s > 0 && |p| == s * s && Inverse(p, inv) && CutsPool(a, s, inv) && l < s
    ensures |cells| == s
    ensures forall i, j :: 0 <= i < j < |cells| ==> cells[i] != cells[j]
    ensures forall f: nat :: f in cells <==> f < |a| && a[f] == l
  {
    SlotFits(s, l, s - 1);
    cells := p[l * s..l * s + s];
    forall k | 0 <= k < s ensures cells[k] < |a| && inv[cells[k]] == l * s + k && a[cells[k]] == l {
      SlotFits(s, l, k);
      assert cells[k] == p[l * s + k];
    }
    forall f: nat | f < |a| && a[f] == l ensures f in cells {
      SlotOf(s, inv[f]);
      assert cells[inv[f] % s] == p[l * s + inv[f] % s];
    }
  }

  /** Cutting a permuted pool into lines gives every line exactly `s` cells. */
  lemma CutIsBalanced(a: seq<nat>, p: seq<nat>, inv: seq<nat>, s: nat)
    requires s > 0 && |p| == s * s && Inverse(p, inv) && CutsPool(a, s, inv)
    ensures Balanced(a, s)
  {
    forall f | 0 <= f < |a| ensures a[f] < s {
      SlotOf(s, inv[f]);
    }
    forall l | 0 <= l < s ensures CountOn(a, EVERYWHERE, l, |a|) == s {
      var cells := LineCells(a, p, inv, s, l);
      LineSize(a, l, cells);
    }
  }

  /** The cell in slot `q` of the pool is on line `q / s`. */
  ghost predicate CutFrom(a: seq<nat>, p: seq<nat>, s: nat)
    requires s > 0
  {
    forall q :: 0 <= q < |p| ==> p[q] < |a| && a[p[q]] == q / s
  }

  /** Shuffles the pool on and cuts it into lines. */
  method BuildSubTable(pool: array<nat>, s: nat, seed: nat, ghost inv0: seq<nat>)
      returns (a: array<nat>, ghost inv: seq<nat>)
    requires s > 0 && pool.Length == s * s && Inverse(pool[..], inv0)
    modifies pool
    ensures Inverse(pool[..], inv) && pool[..] == ShuffleFrom(old(pool[..]), seed, s * s)
    ensures fresh(a) && Balanced(a[..], s) && CutFrom(a[..], pool[..], s)
  {
    inv := Shuffle(pool, seed, inv0);
    a := CutPool(pool, s, inv);
    CutIsBalanced(a[..], pool[..], inv, s);
  }

  /** The table is cut from the pool after its pass and puts exactly `s` cells on every line. */
  ghost predicate IsSubTable(a: seq<nat>, s: nat, seeds: seq<nat>, k: nat)
    requires s > 0 && k < |seeds|
  {
    CutFrom(a, PoolAfter(s, seeds, k + 1), s) && Balanced(a, s)
  }

  /** Every sub-table of the chain, each shuffling on from the pool the previous one left;
      each puts exactly `s` cells on every line, whatever the seeds. */
  method BuildAllSubTables(s: nat, seeds: seq<nat>) returns (tables: seq<array<nat>>)
    requires s > 0
    ensures |tables| == |seeds|
    ensures forall k :: 0 <= k < |tables| ==> fresh(tables[k]) && IsSubTable(tables[k][..], s, seeds, k)
  {
    var pool := new nat[s * s](q => q);
    ghost var inv: seq<nat> := seq(s * s, q requires q >= 0 => q);
    tables := [];
    for k := 0 to |seeds|
      invariant pool.Length == s * s && Inverse(pool[..], inv) && pool[..] == PoolAfter(s, seeds, k)
      invariant |tables| == k
      invariant forall m :: 0 <= m < k ==> fresh(tables[m]) && tables[m] != pool
      invariant forall m :: 0 <= m < k ==> IsSubTable(tables[m][..], s, seeds, m)
    {
      var a;
      a, inv := BuildSubTable(pool, s, seeds[k], inv);
      tables := tables + [a];
    }
  }
}
