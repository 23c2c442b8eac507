/** Cross-filtering of row and column domains until no candidate can be removed. */
module ArcConsistency {
  import opened Gf2

  /** The candidates of one line; entry `j` of a candidate is the value at crossing line `free[j]`. */
  datatype Domain = Domain(free: seq<nat>, cands: seq<Vec>)

  type Domains = map<nat, Domain>

  ghost predicate WfDomain(d: Domain) {
    && (forall i, j :: 0 <= i < j < |d.free| ==> d.free[i] != d.free[j])
    && (forall k :: 0 <= k < |d.cands| ==> |d.cands[k]| == |d.free|)
  }

  ghost predicate Wf(ds: Domains) {
    forall k :: k in ds ==> WfDomain(ds[k])
  }

  ghost predicate NonEmpty(ds: Domains) {
    forall k :: k in ds ==> ds[k].cands != []
  }

  /** `e` has the free cells of `d` and some of its candidates. */
  ghost predicate Narrower(e: Domain, d: Domain) {
    e.free == d.free && forall v :: v in e.cands ==> v in d.cands
  }

  ghost predicate SubDomains(es: Domains, ds: Domains) {
    es.Keys == ds.Keys && forall k :: k in ds ==> Narrower(es[k], ds[k])
  }

  /** Where lines `p` and `t` cross, every candidate of `target` meets one of `pruner` with its value. */
  ghost predicate Arc(p: nat, pruner: Domain, t: nat, target: Domain)
    requires WfDomain(pruner) && WfDomain(target)
  {
    forall i, j :: 0 <= i < |target.free| && 0 <= j < |pruner.free| && target.free[i] == p && pruner.free[j] == t ==>
      forall k :: 0 <= k < |target.cands| ==> Offers(pruner, j, target.cands[k][i])
  }

  ghost predicate Offers(d: Domain, j: nat, v: bool)
    requires WfDomain(d) && j < |d.free|
  {
    exists m :: 0 <= m < |d.cands| && d.cands[m][j] == v
  }

  /** Every candidate among `targets` is supported at each crossing with `pruners`. */
  ghost predicate Supported(pruners: Domains, targets: Domains)
    requires Wf(pruners) && Wf(targets)
  {
    forall p, t :: p in pruners && t in targets ==> Arc(p, pruners[p], t, targets[t])
  }

  // ---- one crossing ----

  method ValuesOffered(d: Domain, j: nat) returns (zero: bool, one: bool)
    requires WfDomain(d) && j < |d.free|
    ensures zero == Offers(d, j, false) && one == Offers(d, j, true)
  {
    zero, one := false, false;
    for m := 0 to |d.cands|
      invariant zero == exists k :: 0 <= k < m && d.cands[k][j] == false
      invariant one == exists k :: 0 <= k < m && d.cands[k][j] == true
    {
      if d.cands[m][j] {
        one := true;
      } else {
        zero := true;
      }
    }
  }

  /** The candidates whose value at place `i` is allowed, in order. */
  method Keep(cands: seq<Vec>, i: nat, zero: bool, one: bool) returns (kept: seq<Vec>)
    requires forall k :: 0 <= k < |cands| ==> i < |cands[k]|
    ensures forall v :: v in kept <==> v in cands && i < |v| && (if v[i] then one else zero)
    ensures |kept| <= |cands|
    ensures |kept| == |cands| ==> kept == cands
  {
    kept := [];
    for k := 0 to |cands|
      invariant forall v :: v in kept <==> v in cands[..k] && i < |v| && (if v[i] then one else zero)
      invariant |kept| <= k && (|kept| == k ==> kept == cands[..k])
    {
      assert cands[..k + 1] == cands[..k] + [cands[k]];
      if (!cands[k][i] && zero) || (cands[k][i] && one) {
        kept := kept + [cands[k]];
      }
    }
    assert cands[..|cands|] == cands;
  }

  method IndexOf(s: seq<nat>, x: nat) returns (i: nat)
    requires x in s
    ensures i < |s| && s[i] == x
  {
    i := 0;
    while s[i] != x
      invariant i < |s| && x in s[i..]
      decreases |s| - i
    {
      i := i + 1;
    }
  }

  /** Filtering to `result` loses no candidate of a narrower pair that has the arc. */
  ghost predicate KeepsArcs(p: nat, pruner: Domain, t: nat, target: Domain, result: Domain) {
    forall pe, te | WfDomain(pe) && WfDomain(te) && Narrower(pe, pruner) && Narrower(te, target) && Arc(p, pe, t, te)
      :: Narrower(te, result)
  }

  /** Filters the target line `t` against the pruning line `p` where they cross. */
  method FilterCrossing(p: nat, pruner: Domain, j: nat, target: Domain) returns (result: Domain)
    requires WfDomain(pruner) && WfDomain(target) && j < |pruner.free| && pruner.cands != []
    ensures WfDomain(result) && Narrower(result, target)
    ensures |result.cands| <= |target.cands|
    ensures |result.cands| == |target.cands| ==> result == target
    ensures Arc(p, pruner, pruner.free[j], result)
    ensures KeepsArcs(p, pruner, pruner.free[j], target, result)
  {
    result := target;
    if p !in target.free {
      return;
    }
    var i := IndexOf(target.free, p);
    var zero, one := ValuesOffered(pruner, j);
    if zero && one {
      return;
    }
    var kept := Keep(target.cands, i, zero, one);
    result := Domain(target.free, kept);
    forall k | 0 <= k < |kept| ensures |kept[k]| == |target.free| && Offers(pruner, j, kept[k][i]) {
      assert kept[k] in kept;
    }
    forall pe, te | WfDomain(pe) && WfDomain(te) && Narrower(pe, pruner) && Narrower(te, target)
        && Arc(p, pe, pruner.free[j], te)
      ensures Narrower(te, result)
    {
      ArcKeeps(p, pruner, j, target, i, pe, te, kept, zero, one);
    }
  }

  lemma ArcKeeps(p: nat, pruner: Domain, j: nat, target: Domain, i: nat, pe: Domain, te: Domain,
                 kept: seq<Vec>, zero: bool, one: bool)
    requires WfDomain(pruner) && WfDomain(target) && j < |pruner.free| && i < |target.free| && target.free[i] == p
    requires zero == Offers(pruner, j, false) && one == Offers(pruner, j, true)
    requires forall v :: v in kept <==> v in target.cands && i < |v| && (if v[i] then one else zero)
    requires WfDomain(pe) && WfDomain(te) && Narrower(pe, pruner) && Narrower(te, target)
    requires Arc(p, pe, pruner.free[j], te)
    ensures Narrower(te, Domain(target.free, kept))
  {
    forall v | v in te.cands ensures v in kept {
      var k :| 0 <= k < |te.cands| && te.cands[k] == v;
      assert Offers(pe, j, te.cands[k][i]);
      var m :| 0 <= m < |pe.cands| && pe.cands[m][j] == v[i];
      assert pe.cands[m] in pruner.cands;
    }
  }

  // ---- one pruning line against all targets ----

  /** `ds` is `old` with candidates removed; a domain of unchanged size is unchanged. */
  ghost predicate Reduces(ds: Domains, before: Domains) {
    && SubDomains(ds, before)
    && (forall k :: k in ds ==> |ds[k].cands| <= |before[k].cands|)
    && (forall k :: k in ds && |ds[k].cands| == |before[k].cands| ==> ds[k] == before[k])
  }

  /** Every narrower family of targets that line `p` supports lies within `result`. */
  ghost predicate KeepsSupported(p: nat, pruner: Domain, before: Domains, result: Domains) {
    forall pe: Domain, es: Domains ::
      WfDomain(pe) && Narrower(pe, pruner) && Wf(es) && SubDomains(es, before) && SupportedBy(p, pe, es)
      ==> SubDomains(es, result)
  }

  ghost predicate SupportedBy(p: nat, pruner: Domain, targets: Domains)
    requires WfDomain(pruner) && Wf(targets)
  {
    forall t :: t in targets ==> Arc(p, pruner, t, targets[t])
  }

  lemma KeepsSupportedStep(p: nat, pruner: Domain, before: Domains, now: Domains, t: nat, result: Domain)
    requires WfDomain(pruner) && Wf(before) && Wf(now) && t in now && SubDomains(now, before)
    requires KeepsSupported(p, pruner, before, now) && KeepsArcs(p, pruner, t, now[t], result)
    ensures KeepsSupported(p, pruner, before, now[t := result])
  {
    forall pe: Domain, es: Domains |
      WfDomain(pe) && Narrower(pe, pruner) && Wf(es) && SubDomains(es, before) && SupportedBy(p, pe, es)
      ensures SubDomains(es, now[t := result])
    {
      KeptUnderUpdate(p, pruner, now, t, result, pe, es);
    }
  }

  lemma KeptUnderUpdate(p: nat, pruner: Domain, now: Domains, t: nat, result: Domain, pe: Domain, es: Domains)
    requires WfDomain(pruner) && Wf(now) && t in now && KeepsArcs(p, pruner, t, now[t], result)
    requires WfDomain(pe) && Narrower(pe, pruner) && Wf(es) && SubDomains(es, now) && SupportedBy(p, pe, es)
    ensures SubDomains(es, now[t := result])
  {
    assert Narrower(es[t], now[t]) && Arc(p, pe, t, es[t]);
  }

  lemma ReducesStep(before: Domains, now: Domains, t: nat, result: Domain)
    requires Reduces(now, before) && t in now && Narrower(result, now[t])
    requires |result.cands| <= |now[t].cands| && (|result.cands| == |now[t].cands| ==> result == now[t])
    ensures Reduces(now[t := result], before)
  {
  }

  /** The targets that cross the first `k` free cells of the pruner are supported. */
  ghost predicate SupportedTo(p: nat, pruner: Domain, targets: Domains, k: nat)
    requires WfDomain(pruner) && Wf(targets) && k <= |pruner.free|
  {
    forall m :: 0 <= m < k && pruner.free[m] in targets ==> Arc(p, pruner, pruner.free[m], targets[pruner.free[m]])
  }

  lemma AllSupported(p: nat, pruner: Domain, targets: Domains)
    requires WfDomain(pruner) && Wf(targets) && SupportedTo(p, pruner, targets, |pruner.free|)
    ensures SupportedBy(p, pruner, targets)
  {
    forall t | t in targets ensures Arc(p, pruner, t, targets[t]) {
      forall i, j | 0 <= i < |targets[t].free| && 0 <= j < |pruner.free|
          && targets[t].free[i] == p && pruner.free[j] == t
        ensures forall k :: 0 <= k < |targets[t].cands| ==> Offers(pruner, j, targets[t].cands[k][i])
      {
        assert Arc(p, pruner, pruner.free[j], targets[pruner.free[j]]);
      }
    }
  }

  /** What holds of the targets when the pruner has looked at its first `k` free cells. */
  ghost predicate PrunedTo(p: nat, pruner: Domain, before: Domains, targets: Domains, k: nat)
    requires WfDomain(pruner) && k <= |pruner.free|
  {
    && Wf(targets) && Reduces(targets, before)
    && KeepsSupported(p, pruner, before, targets) && SupportedTo(p, pruner, targets, k)
  }

  lemma PruneStep(p: nat, pruner: Domain, before: Domains, targets: Domains, k: nat, result: Domain)
    requires WfDomain(pruner) && k < |pruner.free| && Wf(before) && PrunedTo(p, pruner, before, targets, k)
    requires pruner.free[k] in targets && WfDomain(result) && Narrower(result, targets[pruner.free[k]])
    requires var now := targets[pruner.free[k]];
      |result.cands| <= |now.cands| && (|result.cands| == |now.cands| ==> result == now)
    requires KeepsArcs(p, pruner, pruner.free[k], targets[pruner.free[k]], result)
    requires Arc(p, pruner, pruner.free[k], result)
    ensures PrunedTo(p, pruner, before, targets[pruner.free[k] := result], k + 1)
  {
    var t := pruner.free[k];
    KeepsSupportedStep(p, pruner, before, targets, t, result);
    ReducesStep(before, targets, t, result);
    assert SupportedTo(p, pruner, targets, k);
  }

  method PruneBy(p: nat, pruner: Domain, before: Domains) returns (targets: Domains, emptied: bool)
    requires WfDomain(pruner) && pruner.cands != [] && Wf(before) && NonEmpty(before)
    ensures Wf(targets) && Reduces(targets, before)
    ensures KeepsSupported(p, pruner, before, targets)
    ensures emptied ==> !NonEmpty(targets)
    ensures !emptied ==> NonEmpty(targets) && SupportedBy(p, pruner, targets)
  {
    targets, emptied := before, false;
    for j := 0 to |pruner.free|
      invariant PrunedTo(p, pruner, before, targets, j) && NonEmpty(targets)
    {
      var t := pruner.free[j];
      if t in targets {
        var result := FilterCrossing(p, pruner, j, targets[t]);
        PruneStep(p, pruner, before, targets, j, result);
        targets := targets[t := result];
        if result.cands == [] {
          return targets, true;
        }
      }
    }
    AllSupported(p, pruner, targets);
  }

  // ---- a sweep in one direction ----

  /** Every narrower pair of families whose targets are supported keeps its targets within `result`. */
  ghost predicate KeepsFamilies(pruners: Domains, before: Domains, result: Domains) {
    forall ps: Domains, es: Domains ::
      Wf(ps) && SubDomains(ps, pruners) && Wf(es) && SubDomains(es, before) && Supported(ps, es)
      ==> SubDomains(es, result)
  }

  lemma KeepsFamiliesStep(pruners: Domains, before: Domains, now: Domains, p: nat, result: Domains)
    requires Wf(pruners) && p in pruners && Wf(now) && KeepsFamilies(pruners, before, now)
    requires KeepsSupported(p, pruners[p], now, result)
    ensures KeepsFamilies(pruners, before, result)
  {
    forall ps: Domains, es: Domains |
      Wf(ps) && SubDomains(ps, pruners) && Wf(es) && SubDomains(es, before) && Supported(ps, es)
      ensures SubDomains(es, result)
    {
      assert SubDomains(es, now);
      assert SupportedBy(p, ps[p], es);
    }
  }

  lemma ReducesTransitive(a: Domains, b: Domains, c: Domains)
    requires Reduces(b, a) && Reduces(c, b)
    ensures Reduces(c, a)
    ensures c == a ==> b == a
  {
    if c == a {
      forall k | k in a ensures b[k] == a[k] {
        assert |c[k].cands| <= |b[k].cands| <= |a[k].cands|;
      }
    }
  }

  /** Prunes the targets by every pruning line, in any order. */
  method Sweep(pruners: Domains, before: Domains) returns (targets: Domains, emptied: bool)
    requires Wf(pruners) && NonEmpty(pruners) && Wf(before) && NonEmpty(before)
    ensures Wf(targets) && Reduces(targets, before) && KeepsFamilies(pruners, before, targets)
    ensures emptied ==> !NonEmpty(targets)
    ensures !emptied ==> NonEmpty(targets)
    ensures !emptied && targets == before ==> Supported(pruners, targets)
  {
    targets, emptied := before, false;
    var todo := pruners.Keys;
    while todo != {}
      invariant todo <= pruners.Keys
      invariant Wf(targets) && Reduces(targets, before) && NonEmpty(targets)
      invariant KeepsFamilies(pruners, before, targets)
      invariant targets == before ==> forall p :: p in pruners && p !in todo ==> SupportedBy(p, pruners[p], targets)
    {
      var p :| p in todo;
      todo := todo - {p};
      ghost var now := targets;
      targets, emptied := PruneBy(p, pruners[p], targets);
      KeepsFamiliesStep(pruners, before, now, p, targets);
      ReducesTransitive(before, now, targets);
      if emptied {
        return;
      }
    }
  }

  // ---- the loop ----

  /** Candidates among the first `n` lines. */
  ghost function CandidateTotal(ds: Domains, n: nat): nat {
    if n == 0 then 0 else CandidateTotal(ds, n - 1) + if n - 1 in ds then |ds[n - 1].cands| else 0
  }

  lemma {:induction false} TotalFalls(a: Domains, b: Domains, n: nat)
    requires Reduces(b, a)
    ensures CandidateTotal(b, n) <= CandidateTotal(a, n)
    ensures CandidateTotal(b, n) == CandidateTotal(a, n) ==> forall k: nat :: k < n && k in a ==> b[k] == a[k]
  {
    if n > 0 {
      TotalFalls(a, b, n - 1);
    }
  }

  /** Both families support each other. */
  ghost predicate ArcConsistent(rows: Domains, cols: Domains)
    requires Wf(rows) && Wf(cols)
  {
    Supported(cols, rows) && Supported(rows, cols)
  }

  lemma TotalStrict(a: Domains, b: Domains, n: nat)
    requires Reduces(b, a) && b != a && forall k :: k in a ==> k < n
    ensures CandidateTotal(b, n) < CandidateTotal(a, n)
  {
    TotalFalls(a, b, n);
    assert (forall k :: k in a ==> b[k] == a[k]) ==> b == a;
  }

  /** Every arc-consistent narrowing of the first pair lies within the second. */
  ghost predicate KeepsPairs(rows0: Domains, cols0: Domains, rows: Domains, cols: Domains) {
    forall es: Domains, fs: Domains ::
      Wf(es) && Wf(fs) && SubDomains(es, rows0) && SubDomains(fs, cols0) && ArcConsistent(es, fs)
      ==> SubDomains(es, rows) && SubDomains(fs, cols)
  }

  lemma PairStepRows(rows0: Domains, cols0: Domains, rows: Domains, cols: Domains, newRows: Domains)
    requires KeepsPairs(rows0, cols0, rows, cols) && KeepsFamilies(cols, rows, newRows)
    ensures KeepsPairs(rows0, cols0, newRows, cols)
  {
  }

  lemma PairStepCols(rows0: Domains, cols0: Domains, rows: Domains, cols: Domains, newCols: Domains)
    requires KeepsPairs(rows0, cols0, rows, cols) && KeepsFamilies(rows, cols, newCols)
    ensures KeepsPairs(rows0, cols0, rows, newCols)
  {
  }

  ghost predicate Filtering(rows0: Domains, cols0: Domains, rows: Domains, cols: Domains, s: nat) {
    && Wf(rows) && Wf(cols) && Reduces(rows, rows0) && Reduces(cols, cols0)
    && KeepsPairs(rows0, cols0, rows, cols)
    && (forall k :: k in rows ==> k < s) && (forall k :: k in cols ==> k < s)
  }

  /** Column domains prune row domains. */
  method FilterRows(ghost rows0: Domains, ghost cols0: Domains, rows: Domains, cols: Domains, ghost s: nat)
      returns (newRows: Domains, emptied: bool)
    requires Filtering(rows0, cols0, rows, cols, s) && NonEmpty(rows) && NonEmpty(cols)
    ensures Filtering(rows0, cols0, newRows, cols, s)
    ensures emptied <==> !NonEmpty(newRows)
    ensures !emptied && newRows == rows ==> Supported(cols, rows)
    ensures newRows != rows ==> CandidateTotal(newRows, s) < CandidateTotal(rows, s)
  {
    newRows, emptied := Sweep(cols, rows);
    ReducesTransitive(rows0, rows, newRows);
    PairStepRows(rows0, cols0, rows, cols, newRows);
    if newRows != rows {
      TotalStrict(rows, newRows, s);
    }
  }

  /** Row domains prune column domains. */
  method FilterColumns(ghost rows0: Domains, ghost cols0: Domains, rows: Domains, cols: Domains, ghost s: nat)
      returns (newCols: Domains, emptied: bool)
    requires Filtering(rows0, cols0, rows, cols, s) && NonEmpty(rows) && NonEmpty(cols)
    ensures Filtering(rows0, cols0, rows, newCols, s)
    ensures emptied <==> !NonEmpty(newCols)
    ensures !emptied && newCols == cols ==> Supported(rows, cols)
    ensures newCols != cols ==> CandidateTotal(newCols, s) < CandidateTotal(cols, s)
  {
    newCols, emptied := Sweep(rows, cols);
    ReducesTransitive(cols0, cols, newCols);
    PairStepCols(rows0, cols0, rows, cols, newCols);
    if newCols != cols {
      TotalStrict(cols, newCols, s);
    }
  }

  /** Cross-filters until nothing changes. The result is the largest arc-consistent narrowing of the
      domains given; when a domain empties, every arc-consistent narrowing has an empty domain. */
  method CrossFilter(rows0: Domains, cols0: Domains, ghost s: nat) returns (rows: Domains, cols: Domains, emptied: bool)
    requires Wf(rows0) && Wf(cols0) && NonEmpty(rows0) && NonEmpty(cols0)
    requires forall k :: (k in rows0 || k in cols0) ==> k < s
    ensures Wf(rows) && Wf(cols) && SubDomains(rows, rows0) && SubDomains(cols, cols0)
    ensures KeepsPairs(rows0, cols0, rows, cols)
    ensures emptied <==> !NonEmpty(rows) || !NonEmpty(cols)
    ensures !emptied ==> ArcConsistent(rows, cols)
  {
    rows, cols, emptied := rows0, cols0, false;
    var changed := true;
    while changed
      invariant Filtering(rows0, cols0, rows, cols, s) && NonEmpty(rows) && NonEmpty(cols)
      invariant !changed ==> ArcConsistent(rows, cols)
      decreases CandidateTotal(rows, s) + CandidateTotal(cols, s), changed
    {
      var newRows, noRow := FilterRows(rows0, cols0, rows, cols, s);
      changed := newRows != rows;
      rows := newRows;
      if noRow {
        return rows, cols, true;
      }
      var newCols, noCol := FilterColumns(rows0, cols0, rows, cols, s);
      changed := changed || newCols != cols;
      cols := newCols;
      if noCol {
        return rows, cols, true;
      }
    }
    emptied := false;
  }

  // ---- matrices ----

  type Matrix = (nat, nat) -> bool

  /** The values of row `r` at the listed columns. */
  function RowValues(x: Matrix, r: nat, free: seq<nat>): (v: Vec)
    ensures |v| == |free|
  {
    seq(|free|, j requires 0 <= j < |free| => x(r, free[j]))
  }

  function ColumnValues(x: Matrix, c: nat, free: seq<nat>): (v: Vec)
    ensures |v| == |free|
  {
    seq(|free|, j requires 0 <= j < |free| => x(free[j], c))
  }

  /** Every row and column of the matrix is among the candidates of its domain. */
  ghost predicate InDomains(x: Matrix, rows: Domains, cols: Domains) {
    && (forall r :: r in rows ==> RowValues(x, r, rows[r].free) in rows[r].cands)
    && (forall c :: c in cols ==> ColumnValues(x, c, cols[c].free) in cols[c].cands)
  }

  ghost function RowFamily(x: Matrix, rows: Domains): Domains {
    map r | r in rows :: Domain(rows[r].free, [RowValues(x, r, rows[r].free)])
  }

  ghost function ColumnFamily(x: Matrix, cols: Domains): Domains {
    map c | c in cols :: Domain(cols[c].free, [ColumnValues(x, c, cols[c].free)])
  }

  lemma MatrixIsArcConsistent(x: Matrix, rows: Domains, cols: Domains)
    requires Wf(rows) && Wf(cols)
    ensures Wf(RowFamily(x, rows)) && Wf(ColumnFamily(x, cols))
    ensures ArcConsistent(RowFamily(x, rows), ColumnFamily(x, cols))
  {
    var es, fs := RowFamily(x, rows), ColumnFamily(x, cols);
    forall r | r in es ensures WfDomain(es[r]) {
      assert WfDomain(rows[r]);
    }
    forall c | c in fs ensures WfDomain(fs[c]) {
      assert WfDomain(cols[c]);
    }
    forall r, c | r in es && c in fs ensures Arc(c, fs[c], r, es[r]) && Arc(r, es[r], c, fs[c]) {
      CrossingAgrees(x, rows[r], cols[c], r, c);
    }
  }

  lemma CrossingAgrees(x: Matrix, row: Domain, col: Domain, r: nat, c: nat)
    requires WfDomain(row) && WfDomain(col)
    ensures var e, f := Domain(row.free, [RowValues(x, r, row.free)]), Domain(col.free, [ColumnValues(x, c, col.free)]);
      WfDomain(e) && WfDomain(f) && Arc(c, f, r, e) && Arc(r, e, c, f)
  {
    var e, f := Domain(row.free, [RowValues(x, r, row.free)]), Domain(col.free, [ColumnValues(x, c, col.free)]);
    forall i, j | 0 <= i < |e.free| && 0 <= j < |f.free| && e.free[i] == c && f.free[j] == r
      ensures e.cands[0][i] == f.cands[0][j]
      ensures Offers(f, j, e.cands[0][i]) && Offers(e, i, f.cands[0][j])
    {
      assert f.cands[0][j] == x(r, c);
    }
  }

  lemma FamilyInside(x: Matrix, rows: Domains, cols: Domains)
    ensures InDomains(x, rows, cols) <==>
      SubDomains(RowFamily(x, rows), rows) && SubDomains(ColumnFamily(x, cols), cols)
  {
    var es, fs := RowFamily(x, rows), ColumnFamily(x, cols);
    if SubDomains(es, rows) && SubDomains(fs, cols) {
      forall r | r in rows ensures RowValues(x, r, rows[r].free) in rows[r].cands {
        assert Narrower(es[r], rows[r]) && es[r].cands[0] in es[r].cands;
      }
      forall c | c in cols ensures ColumnValues(x, c, cols[c].free) in cols[c].cands {
        assert Narrower(fs[c], cols[c]) && fs[c].cands[0] in fs[c].cands;
      }
    }
  }

  lemma SameFamily(x: Matrix, rows: Domains, cols: Domains, rows0: Domains, cols0: Domains)
    requires SubDomains(rows, rows0) && SubDomains(cols, cols0)
    ensures RowFamily(x, rows) == RowFamily(x, rows0) && ColumnFamily(x, cols) == ColumnFamily(x, cols0)
  {
    assert forall r :: r in rows ==> Narrower(rows[r], rows0[r]);
    assert forall c :: c in cols ==> Narrower(cols[c], cols0[c]);
  }

  lemma SubDomainsTransitive(es: Domains, ds: Domains, cs: Domains)
    requires SubDomains(es, ds) && SubDomains(ds, cs)
    ensures SubDomains(es, cs)
  {
    forall k | k in cs ensures Narrower(es[k], cs[k]) {
      assert Narrower(es[k], ds[k]) && Narrower(ds[k], cs[k]);
    }
  }

  /** Cross-filtering removes no candidate of any matrix within the domains. */
  lemma FilteringKeepsMatrices(x: Matrix, rows0: Domains, cols0: Domains, rows: Domains, cols: Domains)
    requires Wf(rows0) && Wf(cols0) && KeepsPairs(rows0, cols0, rows, cols)
    requires SubDomains(rows, rows0) && SubDomains(cols, cols0)
    ensures InDomains(x, rows0, cols0) <==> InDomains(x, rows, cols)
  {
    FamilyInside(x, rows0, cols0);
    FamilyInside(x, rows, cols);
    SameFamily(x, rows, cols, rows0, cols0);
    var es, fs := RowFamily(x, rows0), ColumnFamily(x, cols0);
    MatrixIsArcConsistent(x, rows0, cols0);
    if SubDomains(es, rows) && SubDomains(fs, cols) {
      SubDomainsTransitive(es, rows, rows0);
      SubDomainsTransitive(fs, cols, cols0);
    }
  }

  // ---- cells on which a domain agrees ----

  ghost predicate AllAgree(d: Domain, j: nat, v: bool)
    requires WfDomain(d) && j < |d.free|
  {
    forall k :: 0 <= k < |d.cands| ==> d.cands[k][j] == v
  }

  method ExtractDeterminedCells(d: Domain) returns (det: map<nat, bool>)
    requires WfDomain(d)
    ensures d.cands == [] ==> det == map[]
    ensures forall c :: c in det ==> c in d.free
    ensures d.cands != [] ==> forall j :: 0 <= j < |d.free| ==>
      (d.free[j] in det <==> AllAgree(d, j, false) || AllAgree(d, j, true))
    ensures forall j :: 0 <= j < |d.free| && d.free[j] in det ==> AllAgree(d, j, det[d.free[j]])
  {
    det := map[];
    if d.cands == [] {
      return;
    }
    for j := 0 to |d.free|
      invariant forall c :: c in det ==> c in d.free[..j]
      invariant forall i :: 0 <= i < j ==> (d.free[i] in det <==> AllAgree(d, i, false) || AllAgree(d, i, true))
      invariant forall i :: 0 <= i < j && d.free[i] in det ==> AllAgree(d, i, det[d.free[i]])
    {
      assert d.free[..j + 1] == d.free[..j] + [d.free[j]];
      assert d.free[j] !in det;
      var zero, one := ValuesOffered(d, j);
      if !one {
        det := det[d.free[j] := false];
      } else if !zero {
        det := det[d.free[j] := true];
      }
    }
  }

  type FixedCells = map<(nat, nat), bool>

  /** Some domain through cell `(r, c)` has all its candidates at `v` there. */
  ghost predicate FixedBy(rows: Domains, cols: Domains, r: nat, c: nat, v: bool)
    requires Wf(rows) && Wf(cols)
  {
    || (r in rows && FixedIn(rows[r], c, v))
    || (c in cols && FixedIn(cols[c], r, v))
  }

  ghost predicate FixedIn(d: Domain, p: nat, v: bool)
    requires WfDomain(d)
  {
    exists j :: 0 <= j < |d.free| && d.free[j] == p && AllAgree(d, j, v)
  }

  /** A fixed cell has its value in every matrix within the domains. */
  lemma FixedIsSound(x: Matrix, rows: Domains, cols: Domains, r: nat, c: nat, v: bool)
    requires Wf(rows) && Wf(cols) && FixedBy(rows, cols, r, c, v) && InDomains(x, rows, cols)
    ensures x(r, c) == v
  {
    if r in rows && FixedIn(rows[r], c, v) {
      var j :| 0 <= j < |rows[r].free| && rows[r].free[j] == c && AllAgree(rows[r], j, v);
      var w := RowValues(x, r, rows[r].free);
      var k :| 0 <= k < |rows[r].cands| && rows[r].cands[k] == w;
    } else {
      var j :| 0 <= j < |cols[c].free| && cols[c].free[j] == r && AllAgree(cols[c], j, v);
      var w := ColumnValues(x, c, cols[c].free);
      var k :| 0 <= k < |cols[c].cands| && cols[c].cands[k] == w;
    }
  }

  /** After cross-filtering, a row domain and a column domain never fix their common cell differently. */
  lemma NoConflict(rows: Domains, cols: Domains, r: nat, c: nat, v: bool, w: bool)
    requires Wf(rows) && Wf(cols) && NonEmpty(rows) && NonEmpty(cols) && ArcConsistent(rows, cols)
    requires r in rows && c in cols && FixedIn(rows[r], c, v) && FixedIn(cols[c], r, w)
    ensures v == w
  {
    var i :| 0 <= i < |rows[r].free| && rows[r].free[i] == c && AllAgree(rows[r], i, v);
    var j :| 0 <= j < |cols[c].free| && cols[c].free[j] == r && AllAgree(cols[c], j, w);
    assert Arc(c, cols[c], r, rows[r]);
    assert rows[r].cands[0][i] == v;
    assert Offers(cols[c], j, rows[r].cands[0][i]);
  }

  ghost predicate FixedByRows(cells: FixedCells, rows: Domains)
    requires Wf(rows)
  {
    forall r: nat, c: nat :: (r, c) in cells ==> r in rows && FixedIn(rows[r], c, cells[(r, c)])
  }

  /** Every cell that the domain of row `r` fixes is listed. */
  ghost predicate RowListed(cells: FixedCells, d: Domain, r: nat)
    requires WfDomain(d)
  {
    forall c: nat, v: bool :: FixedIn(d, c, v) ==> (r, c) in cells
  }

  ghost predicate ColumnListed(cells: FixedCells, d: Domain, c: nat)
    requires WfDomain(d)
  {
    forall r: nat, v: bool :: FixedIn(d, r, v) ==> (r, c) in cells
  }

  /** Collects the cells on which a domain agrees, rows first. A cell fixed by its row and its column
      gets the same value from both, so the conflict report of the caller is never reached. */
  method CollectCells(rows: Domains, cols: Domains) returns (cells: FixedCells)
    requires Wf(rows) && Wf(cols) && NonEmpty(rows) && NonEmpty(cols) && ArcConsistent(rows, cols)
    ensures forall r: nat, c: nat :: (r, c) in cells ==> FixedBy(rows, cols, r, c, cells[(r, c)])
    ensures forall r :: r in rows ==> RowListed(cells, rows[r], r)
    ensures forall c :: c in cols ==> ColumnListed(cells, cols[c], c)
    ensures forall x: Matrix, r: nat, c: nat :: InDomains(x, rows, cols) && (r, c) in cells ==> x(r, c) == cells[(r, c)]
  {
    cells := map[];
    var todo := rows.Keys;
    while todo != {}
      invariant todo <= rows.Keys && FixedByRows(cells, rows)
      invariant forall r :: r in rows && r !in todo ==> RowListed(cells, rows[r], r)
    {
      var r :| r in todo;
      todo := todo - {r};
      cells := CollectRow(rows, r, cells);
    }
    var rowCells := cells;
    todo := cols.Keys;
    while todo != {}
      invariant todo <= cols.Keys && rowCells.Keys <= cells.Keys
      invariant forall c :: c in cols && c !in todo ==> ColumnListed(cells, cols[c], c)
      invariant forall r: nat, c: nat :: (r, c) in cells ==> FixedBy(rows, cols, r, c, cells[(r, c)])
    {
      var c :| c in todo;
      todo := todo - {c};
      cells := CollectColumn(rows, cols, c, rowCells, cells);
    }
    forall x: Matrix, r: nat, c: nat | InDomains(x, rows, cols) && (r, c) in cells ensures x(r, c) == cells[(r, c)] {
      FixedIsSound(x, rows, cols, r, c, cells[(r, c)]);
    }
  }

  method CollectRow(rows: Domains, r: nat, cells0: FixedCells) returns (cells: FixedCells)
    requires Wf(rows) && NonEmpty(rows) && r in rows && FixedByRows(cells0, rows)
    ensures FixedByRows(cells, rows) && cells0.Keys <= cells.Keys && RowListed(cells, rows[r], r)
  {
    cells := cells0;
    var d := rows[r];
    var det := ExtractDeterminedCells(d);
    for j := 0 to |d.free|
      invariant FixedByRows(cells, rows) && cells0.Keys <= cells.Keys
      invariant forall i :: 0 <= i < j && d.free[i] in det ==> (r, d.free[i]) in cells
    {
      if d.free[j] in det {
        assert FixedIn(d, d.free[j], det[d.free[j]]);
        cells := cells[(r, d.free[j]) := det[d.free[j]]];
      }
    }
  }

  method CollectColumn(rows: Domains, cols: Domains, c: nat, rowCells: FixedCells, cells0: FixedCells)
      returns (cells: FixedCells)
    requires Wf(rows) && Wf(cols) && NonEmpty(rows) && NonEmpty(cols) && ArcConsistent(rows, cols)
    requires c in cols && FixedByRows(rowCells, rows)
    requires rowCells.Keys <= cells0.Keys
    requires forall q: nat, p: nat :: (q, p) in cells0 ==> FixedBy(rows, cols, q, p, cells0[(q, p)])
    ensures cells0.Keys <= cells.Keys && ColumnListed(cells, cols[c], c)
    ensures forall q: nat, p: nat :: (q, p) in cells ==> FixedBy(rows, cols, q, p, cells[(q, p)])
  {
    cells := cells0;
    var d := cols[c];
    var det := ExtractDeterminedCells(d);
    for j := 0 to |d.free|
      invariant cells0.Keys <= cells.Keys
      invariant forall i :: 0 <= i < j && d.free[i] in det ==> (d.free[i], c) in cells
      invariant forall q: nat, p: nat :: (q, p) in cells ==> FixedBy(rows, cols, q, p, cells[(q, p)])
    {
      var r := d.free[j];
      if r in det {
        assert FixedIn(d, r, det[r]);
        if (r, c) in rowCells {
          NoConflict(rows, cols, r, c, rowCells[(r, c)], det[r]);
        } else {
          FixedWithColumn(rows, cols, cells, r, c, det[r]);
          cells := cells[(r, c) := det[r]];
        }
      }
    }
  }

  lemma FixedWithColumn(rows: Domains, cols: Domains, cells: FixedCells, r: nat, c: nat, v: bool)
    requires Wf(rows) && Wf(cols) && c in cols && FixedIn(cols[c], r, v)
    requires forall q: nat, p: nat :: (q, p) in cells ==> FixedBy(rows, cols, q, p, cells[(q, p)])
    ensures var next := cells[(r, c) := v];
      forall q: nat, p: nat :: (q, p) in next ==> FixedBy(rows, cols, q, p, next[(q, p)])
  {
  }
}
