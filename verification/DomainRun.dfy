/** Arc consistency run on a constraint state: the domains of rows and columns are generated from their check values and
    sums, cross-filtered, and the cells on which a domain agrees are fixed and propagated, until nothing changes. */
module DomainRun {
  import opened Arithmetic
  import opened Gf2
  import opened Elimination
  import opened SolutionSpace
  import opened Enumeration
  import opened Lines
  import opened Propagation
  import opened Candidates
  import opened Completion
  import opened ArcConsistency

  const MAX_CANDS: nat := 500000

  // ---- the domain of one line ----

  /** The filling has the right check value and the right sum. */
  ghost predicate Fits(crc: Vec -> Vec, h: Vec, L: LineSystem, known: Partial, i: nat, v: Vec)
    requires |L.members| == |L.targets| && i < |L.members|
  {
    var pos := L.members[i];
    && |v| == |FreePositions(pos, known, |pos|)|
    && crc(Filled(pos, known, v)) == h && Weight(v) == Rho(L, known, i)
  }

  /** The equations can be solved, but have too many free columns or too many solutions to list. */
  ghost predicate TooLarge(G: seq<Vec>, b: Vec, n: nat, maxFree: nat)
    requires Shape(G, b, n)
  {
    var s := Eliminated(G, b, n, n);
    && NoContradiction(s.b, |s.pivots|)
    && (|FreeCols(s.pivots, n)| > maxFree || Pow2(|FreeCols(s.pivots, n)|) > MAX_CANDS)
  }

  /** All solutions of a system, none for a contradictory one; given up when they are too many. */
  method SolveDomain(G: array<Vec>, b: array<bool>, n: nat, maxFree: nat) returns (tractable: bool, all: seq<Vec>)
    requires Shape(G[..], b[..], n)
    modifies G, b
    ensures tractable ==> IsSolutionList(all, old(G[..]), old(b[..]), n)
    ensures tractable <==> !TooLarge(old(G[..]), old(b[..]), n, maxFree)
  {
    ghost var G0, b0 := G[..], b[..];
    var pivots := GaussElim(G, b, n);
    ghost var H, c := G[..], b[..];
    forall k | |pivots| <= k < G.Length ensures |G[k]| == n && LeadingZeros(G[k], n) {
      assert LeadingZeros(H[k], n);
    }
    var bad := HasContradiction(G, b, |pivots|, n);
    if bad {
      forall v: Vec | |v| == n ensures !Sat(G0, b0, v) {
        SolvesIffComplete(H, c, pivots, v);
      }
      return true, [];
    }
    var frees := FreeCols(pivots, n);
    if |frees| > maxFree {
      return false, [];
    }
    if Pow2(|frees|) > MAX_CANDS {
      return false, [];
    }
    all := Enumerate(G[..], b[..], pivots, frees, n);
    tractable := true;
  }

  /** Keeps the vectors of weight `rho`, in order. */
  method FilterSum(all: seq<Vec>, rho: int) returns (kept: seq<Vec>)
    ensures forall v :: v in kept <==> v in all && Weight(v) == rho
  {
    kept := [];
    for k := 0 to |all|
      invariant forall v :: v in kept <==> v in all[..k] && Weight(v) == rho
    {
      assert all[..k + 1] == all[..k] + [all[k]];
      if Weight(all[k]) == rho {
        kept := kept + [all[k]];
      }
    }
    assert all[..|all|] == all;
  }

  /** The domain holds exactly the fillings of the line's free cells that fit. */
  ghost predicate IsDomain(d: Domain, crc: Vec -> Vec, h: Vec, L: LineSystem, known: Partial, i: nat)
    requires |L.members| == |L.targets| && i < |L.members|
  {
    && d.free == FreePositions(L.members[i], known, |L.members[i]|)
    && forall v: Vec :: v in d.cands <==> Fits(crc, h, L, known, i, v)
  }

  /** The equations of the line are too large. */
  ghost predicate Unlisted(L: LineSystem, known: Partial, i: nat, code: Code, maxFree: nat)
    requires |L.members| == |L.targets| && i < |L.members| && |code.gen| == |code.h| == |code.c0| == 32
  {
    var pos := L.members[i];
    exists rows: seq<Vec>, rhs: Vec ::
      && IsLineSystem(rows, rhs, code, pos, known, Rho(L, known, i))
      && TooLarge(rows, rhs, |FreePositions(pos, known, |pos|)|, maxFree)
  }

  method GenerateDomain(ghost crc: Vec -> Vec, cs: ConstraintSystem, i: nat, code: Code, maxFree: nat)
      returns (tractable: bool, d: Domain)
    requires cs.Valid() && i < |cs.L.members| && IsCode(crc, code, |cs.L.members[i]|)
    requires FreePositions(cs.L.members[i], cs.known, |cs.L.members[i]|) != []
    ensures tractable ==> IsDomain(d, crc, code.h, cs.L, cs.known, i)
    ensures !tractable ==> Unlisted(cs.L, cs.known, i, code, maxFree)
  {
    var pos := cs.L.members[i];
    var free := FreePositions(pos, cs.known, |pos|);
    var rho := cs.rho[i];
    var G, b := BuildLineSystem(code, pos, cs.known, free, rho);
    ghost var rows, rhs := G[..], b[..];
    var all;
    tractable, all := SolveDomain(G, b, |free|, maxFree);
    d := Domain(free, []);
    if tractable {
      var kept := FilterSum(all, rho);
      forall v: Vec ensures v in kept <==> Fits(crc, code.h, cs.L, cs.known, i, v) {
        if |v| == |free| {
          LineSystemMeaning(crc, rows, rhs, code, pos, cs.known, rho, v);
        }
      }
      d := Domain(free, kept);
    }
  }

  // ---- the domains of all rows or columns ----

  /** The domain of each listed line, counted from `first`; the other lines are full or too large. */
  ghost predicate AreDomains(ds: Domains, crc: Vec -> Vec, L: LineSystem, block: Block, known: Partial, first: nat,
                             count: nat, maxFree: nat)
    requires |L.members| == |L.targets| && IsBlock(crc, L, block) && first + count <= |block.hashes|
  {
    && (forall k :: k in ds ==> k < count)
    && (forall k: nat :: k < count ==> IsDomainAt(ds, crc, L, block, known, first, k, maxFree))
  }

  ghost predicate IsDomainAt(ds: Domains, crc: Vec -> Vec, L: LineSystem, block: Block, known: Partial, first: nat,
                             k: nat, maxFree: nat)
    requires |L.members| == |L.targets| && IsBlock(crc, L, block) && first + k < |block.hashes|
  {
    if k in ds then IsOpenDomain(ds[k], crc, block.hashes[first + k], L, known, first + k)
    else NoDomain(crc, L, block, known, first + k, maxFree)
  }

  ghost predicate IsOpenDomain(d: Domain, crc: Vec -> Vec, h: Vec, L: LineSystem, known: Partial, i: nat)
    requires |L.members| == |L.targets| && i < |L.members|
  {
    d.free != [] && d.cands != [] && IsDomain(d, crc, h, L, known, i)
  }

  ghost predicate NoDomain(crc: Vec -> Vec, L: LineSystem, block: Block, known: Partial, i: nat, maxFree: nat)
    requires |L.members| == |L.targets| && IsBlock(crc, L, block) && i < |block.hashes|
  {
    || FreePositions(L.members[i], known, |L.members[i]|) == []
    || Unlisted(L, known, i, Code(block.gen, block.c0, block.hashes[i]), maxFree)
  }

  lemma DomainIsWf(d: Domain, crc: Vec -> Vec, h: Vec, L: LineSystem, known: Partial, i: nat)
    requires |L.members| == |L.targets| && i < |L.members| && IsDomain(d, crc, h, L, known, i)
    ensures WfDomain(d)
  {
    FreePositionsSpec(L.members[i], known, |L.members[i]|);
    forall k | 0 <= k < |d.cands| ensures |d.cands[k]| == |d.free| {
      assert d.cands[k] in d.cands;
    }
  }

  /** A full solution's values on the free cells of a line fit. */
  lemma SolutionIsListed(crc: Vec -> Vec, L: LineSystem, block: Block, known: Partial, i: nat, x: Vec)
    requires L.Wf() && i < |block.hashes| <= |L.members|
    requires FullSolution(crc, L, block, x) && Agrees(x, known)
    ensures Fits(crc, block.hashes[i], L, known, i, FreeValues(x, L.members[i], known))
  {
    SolutionIsCandidate(crc, L, block, known, i, x);
  }

  lemma SolutionInDomain(crc: Vec -> Vec, L: LineSystem, block: Block, known: Partial, i: nat, d: Domain, x: Vec)
    requires L.Wf() && i < |block.hashes| <= |L.members|
    requires IsDomain(d, crc, block.hashes[i], L, known, i)
    requires FullSolution(crc, L, block, x) && Agrees(x, known)
    ensures FreeValues(x, L.members[i], known) in d.cands
  {
    SolutionIsListed(crc, L, block, known, i, x);
  }

  /** A line with free cells and nothing that fits rules out every full solution. */
  lemma EmptyDomainIsDeadEnd(crc: Vec -> Vec, L: LineSystem, block: Block, known: Partial, i: nat, d: Domain)
    requires L.Wf() && i < |block.hashes| <= |L.members|
    requires IsDomain(d, crc, block.hashes[i], L, known, i) && d.cands == []
    ensures DeadEnd(crc, L, block, known)
  {
    forall x: Vec | FullSolution(crc, L, block, x) ensures !Agrees(x, known) {
      if Agrees(x, known) {
        SolutionInDomain(crc, L, block, known, i, d, x);
      }
    }
  }

  lemma DomainAdded(ds: Domains, crc: Vec -> Vec, L: LineSystem, block: Block, known: Partial, first: nat, k: nat,
                    maxFree: nat, d: Domain)
    requires |L.members| == |L.targets| && IsBlock(crc, L, block) && first + k < |block.hashes|
    requires AreDomains(ds, crc, L, block, known, first, k, maxFree)
    requires IsOpenDomain(d, crc, block.hashes[first + k], L, known, first + k)
    ensures AreDomains(ds[k := d], crc, L, block, known, first, k + 1, maxFree)
  {
    var next := ds[k := d];
    forall m: nat | m < k + 1 ensures IsDomainAt(next, crc, L, block, known, first, m, maxFree) {
      if m < k {
        assert IsDomainAt(ds, crc, L, block, known, first, m, maxFree);
      }
    }
  }

  lemma DomainSkipped(ds: Domains, crc: Vec -> Vec, L: LineSystem, block: Block, known: Partial, first: nat, k: nat,
                      maxFree: nat)
    requires |L.members| == |L.targets| && IsBlock(crc, L, block) && first + k < |block.hashes|
    requires AreDomains(ds, crc, L, block, known, first, k, maxFree)
    requires NoDomain(crc, L, block, known, first + k, maxFree)
    ensures AreDomains(ds, crc, L, block, known, first, k + 1, maxFree)
  {
    forall m: nat | m < k + 1 ensures IsDomainAt(ds, crc, L, block, known, first, m, maxFree) {
    }
  }

  method GenerateDomains(ghost crc: Vec -> Vec, cs: ConstraintSystem, block: Block, first: nat, count: nat,
                         maxFree: nat)
      returns (ds: Domains, inconsistent: bool)
    requires cs.Valid() && IsBlock(crc, cs.L, block) && first + count <= |block.hashes|
    ensures inconsistent ==> DeadEnd(crc, cs.L, block, cs.known)
    ensures !inconsistent ==> AreDomains(ds, crc, cs.L, block, cs.known, first, count, maxFree)
  {
    ds, inconsistent := map[], false;
    ghost var known := cs.known;
    for k := 0 to count
      invariant AreDomains(ds, crc, cs.L, block, known, first, k, maxFree)
    {
      var pos := cs.L.members[first + k];
      var tractable, d := false, Domain([], []);
      if FreePositions(pos, cs.known, |pos|) != [] {
        var code := Code(block.gen, block.c0, block.hashes[first + k]);
        tractable, d := GenerateDomain(crc, cs, first + k, code, maxFree);
      }
      if tractable {
        if d.cands == [] {
          EmptyDomainIsDeadEnd(crc, cs.L, block, known, first + k, d);
          return ds, true;
        }
        DomainAdded(ds, crc, cs.L, block, known, first, k, maxFree, d);
        ds := ds[k := d];
      } else {
        DomainSkipped(ds, crc, cs.L, block, known, first, k, maxFree);
      }
    }
  }

  lemma {:induction false} Pow2Grows(a: nat, b: nat)
    requires a <= b
    ensures Pow2(a) <= Pow2(b)
    decreases b
  {
    if a < b {
      Pow2Grows(a, b - 1);
    }
  }

  lemma {:induction false} Pow2Plus(a: nat, b: nat)
    ensures Pow2(a + b) == Pow2(a) * Pow2(b)
  {
    if a > 0 {
      Pow2Plus(a - 1, b);
    }
  }

  /** The size limit is the one of 18 free columns: 2 ^ 18 solutions are listed, 2 ^ 19 are not. */
  lemma EighteenColumnsFit(k: nat)
    ensures Pow2(k) > MAX_CANDS <==> k > 18
  {
    if k <= 18 {
      Pow2Grows(k, 18);
    } else {
      Pow2Grows(19, k);
    }
    Pow2Plus(3, 3);
    Pow2Plus(6, 6);
    Pow2Plus(12, 6);
    assert Pow2(19) == 2 * Pow2(18);
  }

  /** A solvable system is too large exactly if its free columns exceed the limit or 18. */
  lemma TooLargeIff(G: seq<Vec>, b: Vec, n: nat, maxFree: nat)
    requires Shape(G, b, n)
    ensures TooLarge(G, b, n, maxFree) <==>
      var s := Eliminated(G, b, n, n);
      NoContradiction(s.b, |s.pivots|) && (|FreeCols(s.pivots, n)| > maxFree || |FreeCols(s.pivots, n)| > 18)
  {
    EighteenColumnsFit(|FreeCols(Eliminated(G, b, n, n).pivots, n)|);
  }

  lemma {:induction false} FreeColsFit(pivots: seq<nat>, n: nat)
    ensures |FreeCols(pivots, n)| <= n
  {
    if n > 0 {
      FreeColsFit(pivots, n - 1);
    }
  }

  /** A line with at most 18 free cells, and no more than the limit of free columns, is never too large. */
  lemma ShortLinesFit(L: LineSystem, known: Partial, i: nat, code: Code, maxFree: nat)
    requires |L.members| == |L.targets| && i < |L.members| && |code.gen| == |code.h| == |code.c0| == 32
    requires |FreePositions(L.members[i], known, |L.members[i]|)| <= 18
    requires |FreePositions(L.members[i], known, |L.members[i]|)| <= maxFree
    ensures !Unlisted(L, known, i, code, maxFree)
  {
    var n := |FreePositions(L.members[i], known, |L.members[i]|)|;
    forall rows: seq<Vec>, rhs: Vec | Shape(rows, rhs, n) ensures !TooLarge(rows, rhs, n, maxFree) {
      TooLargeIff(rows, rhs, n, maxFree);
      FreeColsFit(Eliminated(rows, rhs, n, n).pivots, n);
    }
  }

  /** Every open line as short as that has a domain. */
  lemma ShortLinesAreListed(ds: Domains, crc: Vec -> Vec, L: LineSystem, block: Block, known: Partial, first: nat,
                            count: nat, maxFree: nat, k: nat)
    requires |L.members| == |L.targets| && IsBlock(crc, L, block) && first + count <= |block.hashes|
    requires AreDomains(ds, crc, L, block, known, first, count, maxFree) && k < count
    requires 0 < |FreePositions(L.members[first + k], known, |L.members[first + k]|)| <= 18
    requires |FreePositions(L.members[first + k], known, |L.members[first + k]|)| <= maxFree
    ensures k in ds && IsOpenDomain(ds[k], crc, block.hashes[first + k], L, known, first + k)
  {
    assert IsDomainAt(ds, crc, L, block, known, first, k, maxFree);
    ShortLinesFit(L, known, first + k, Code(block.gen, block.c0, block.hashes[first + k]), maxFree);
  }

  // ---- the grid ----

  ghost predicate IsGridRow(pos: seq<nat>, s: nat, r: nat) {
    |pos| == s && forall c: nat :: c < s ==> pos[c] == r * s + c
  }

  ghost predicate IsGridColumn(pos: seq<nat>, s: nat, c: nat) {
    |pos| == s && forall r: nat :: r < s ==> pos[r] == r * s + c
  }

  /** Lines 0 to s - 1 are the rows and lines s to 2 s - 1 the columns of the grid. */
  ghost predicate IsGrid(L: LineSystem, s: nat) {
    && L.n == s * s && 2 * s <= |L.members|
    && (forall k :: 0 <= k < s ==> IsGridRow(L.members[k], s, k))
    && (forall k :: s <= k < 2 * s ==> IsGridColumn(L.members[k], s, k - s))
  }

  ghost function MatrixOf(x: Vec, s: nat): Matrix {
    (r: nat, c: nat) => r < s && c < s && r * s + c < |x| && x[r * s + c]
  }

  lemma RowOfSolution(s: nat, x: Vec, known: Partial, r: nat, pos: seq<nat>)
    requires IsGridRow(pos, s, r) && |x| == s * s && r < s && forall p :: 0 <= p < |pos| ==> pos[p] < |x|
    ensures RowValues(MatrixOf(x, s), r, FreePositions(pos, known, |pos|)) == FreeValues(x, pos, known)
  {
    var free := FreePositions(pos, known, |pos|);
    FreePositionsSpec(pos, known, |pos|);
    forall t | 0 <= t < |free| ensures MatrixOf(x, s)(r, free[t]) == FreeValues(x, pos, known)[t] {
      assert free[t] in free;
    }
  }

  lemma ColumnOfSolution(s: nat, x: Vec, known: Partial, c: nat, pos: seq<nat>)
    requires IsGridColumn(pos, s, c) && |x| == s * s && c < s && forall p :: 0 <= p < |pos| ==> pos[p] < |x|
    ensures ColumnValues(MatrixOf(x, s), c, FreePositions(pos, known, |pos|)) == FreeValues(x, pos, known)
  {
    var free := FreePositions(pos, known, |pos|);
    FreePositionsSpec(pos, known, |pos|);
    forall t | 0 <= t < |free| ensures MatrixOf(x, s)(free[t], c) == FreeValues(x, pos, known)[t] {
      assert free[t] in free;
    }
  }

  /** Every full solution with the fixed values lies within the generated domains. */
  lemma SolutionWithin(crc: Vec -> Vec, L: LineSystem, block: Block, known: Partial, s: nat, maxFree: nat,
                       rows: Domains, cols: Domains, x: Vec)
    requires L.Wf() && IsGrid(L, s) && IsBlock(crc, L, block) && |block.hashes| == 2 * s
    requires AreDomains(rows, crc, L, block, known, 0, s, maxFree)
    requires AreDomains(cols, crc, L, block, known, s, s, maxFree)
    requires FullSolution(crc, L, block, x) && Agrees(x, known)
    ensures InDomains(MatrixOf(x, s), rows, cols)
  {
    forall r | r in rows ensures RowValues(MatrixOf(x, s), r, rows[r].free) in rows[r].cands {
      assert IsDomainAt(rows, crc, L, block, known, 0, r, maxFree);
      RowWithin(crc, L, block, known, s, r, rows[r], x);
    }
    forall c | c in cols ensures ColumnValues(MatrixOf(x, s), c, cols[c].free) in cols[c].cands {
      assert IsDomainAt(cols, crc, L, block, known, s, c, maxFree);
      ColumnWithin(crc, L, block, known, s, c, cols[c], x);
    }
  }

  lemma RowWithin(crc: Vec -> Vec, L: LineSystem, block: Block, known: Partial, s: nat, r: nat, d: Domain, x: Vec)
    requires L.Wf() && IsGrid(L, s) && r < s && 2 * s == |block.hashes|
    requires IsOpenDomain(d, crc, block.hashes[0 + r], L, known, 0 + r)
    requires FullSolution(crc, L, block, x) && Agrees(x, known)
    ensures RowValues(MatrixOf(x, s), r, d.free) in d.cands
  {
    assert IsGridRow(L.members[r], s, r);
    RowOfSolution(s, x, known, r, L.members[r]);
    SolutionInDomain(crc, L, block, known, r, d, x);
  }

  lemma ColumnWithin(crc: Vec -> Vec, L: LineSystem, block: Block, known: Partial, s: nat, c: nat, d: Domain, x: Vec)
    requires L.Wf() && IsGrid(L, s) && c < s && 2 * s == |block.hashes|
    requires IsOpenDomain(d, crc, block.hashes[s + c], L, known, s + c)
    requires FullSolution(crc, L, block, x) && Agrees(x, known)
    ensures ColumnValues(MatrixOf(x, s), c, d.free) in d.cands
  {
    assert IsGridColumn(L.members[s + c], s, s + c - s);
    ColumnOfSolution(s, x, known, c, L.members[s + c]);
    SolutionInDomain(crc, L, block, known, s + c, d, x);
  }

  // ---- one round ----

  lemma DomainsAreWf(ds: Domains, crc: Vec -> Vec, L: LineSystem, block: Block, known: Partial, first: nat, count: nat,
                     maxFree: nat)
    requires |L.members| == |L.targets| && IsBlock(crc, L, block) && first + count <= |block.hashes|
    requires AreDomains(ds, crc, L, block, known, first, count, maxFree)
    ensures Wf(ds) && NonEmpty(ds) && forall k :: k in ds ==> k < count
  {
    forall k | k in ds ensures WfDomain(ds[k]) && ds[k].cands != [] {
      assert IsDomainAt(ds, crc, L, block, known, first, k, maxFree);
      DomainIsWf(ds[k], crc, block.hashes[first + k], L, known, first + k);
    }
  }

  /** `rows` and `cols` are what cross filtering leaves of the generated domains. */
  ghost predicate Filtered(rows0: Domains, cols0: Domains, rows: Domains, cols: Domains) {
    && Wf(rows0) && Wf(cols0) && Wf(rows) && Wf(cols)
    && SubDomains(rows, rows0) && SubDomains(cols, cols0) && KeepsPairs(rows0, cols0, rows, cols)
  }

  /** The generated domains of a state. */
  ghost predicate Generated(crc: Vec -> Vec, L: LineSystem, block: Block, known: Partial, s: nat, maxFree: nat,
                            rows: Domains, cols: Domains)
    requires |L.members| == |L.targets| && IsBlock(crc, L, block) && |block.hashes| == 2 * s
  {
    AreDomains(rows, crc, L, block, known, 0, s, maxFree) && AreDomains(cols, crc, L, block, known, s, s, maxFree)
  }

  /** Every full solution with the fixed values survives the filtering. */
  lemma SolutionSurvives(crc: Vec -> Vec, L: LineSystem, block: Block, known: Partial, s: nat, maxFree: nat,
                         rows0: Domains, cols0: Domains, rows: Domains, cols: Domains, x: Vec)
    requires L.Wf() && IsGrid(L, s) && IsBlock(crc, L, block) && |block.hashes| == 2 * s
    requires Generated(crc, L, block, known, s, maxFree, rows0, cols0) && Filtered(rows0, cols0, rows, cols)
    requires FullSolution(crc, L, block, x) && Agrees(x, known)
    ensures InDomains(MatrixOf(x, s), rows, cols) && NonEmpty(rows) && NonEmpty(cols)
  {
    SolutionWithin(crc, L, block, known, s, maxFree, rows0, cols0, x);
    FilteringKeepsMatrices(MatrixOf(x, s), rows0, cols0, rows, cols);
  }

  /** A domain that filtering empties rules out every full solution. */
  lemma EmptiedIsDeadEnd(crc: Vec -> Vec, L: LineSystem, block: Block, known: Partial, s: nat, maxFree: nat,
                         rows0: Domains, cols0: Domains, rows: Domains, cols: Domains)
    requires L.Wf() && IsGrid(L, s) && IsBlock(crc, L, block) && |block.hashes| == 2 * s
    requires Generated(crc, L, block, known, s, maxFree, rows0, cols0) && Filtered(rows0, cols0, rows, cols)
    requires !NonEmpty(rows) || !NonEmpty(cols)
    ensures DeadEnd(crc, L, block, known)
  {
    forall x: Vec | FullSolution(crc, L, block, x) ensures !Agrees(x, known) {
      if Agrees(x, known) {
        SolutionSurvives(crc, L, block, known, s, maxFree, rows0, cols0, rows, cols, x);
      }
    }
  }

  /** The matrix has the listed values. */
  ghost predicate CellsHold(cells: FixedCells, x: Vec, s: nat) {
    forall r: nat, c: nat :: (r, c) in cells ==> HoldsAt(x, s, r, c, cells[(r, c)])
  }

  ghost predicate HoldsAt(x: Vec, s: nat, r: nat, c: nat, v: bool) {
    r < s && c < s && r * s + c < |x| && x[r * s + c] == v
  }

  /** Every full solution with the fixed values has the listed ones. */
  ghost predicate CellsFollow(crc: Vec -> Vec, L: LineSystem, block: Block, known: Partial, cells: FixedCells, s: nat)
    requires L.Wf() && |block.hashes| <= |L.members|
  {
    forall x: Vec :: FullSolution(crc, L, block, x) && Agrees(x, known) ==> CellsHold(cells, x, s)
  }

  /** The listed cells are on the grid and not fixed. */
  ghost predicate CellsOpen(cells: FixedCells, known: Partial, s: nat) {
    forall r: nat, c: nat :: (r, c) in cells ==> OpenCell(known, s, r, c)
  }

  ghost predicate OpenCell(known: Partial, s: nat, r: nat, c: nat) {
    r < s && c < s && r * s + c < s * s && r * s + c !in known
  }

  /** No cell has the same value in all candidates of a line. */
  ghost predicate NoneFixed(ds: Domains)
    requires Wf(ds)
  {
    forall k: nat, p: nat, v: bool :: k in ds ==> !FixedIn(ds[k], p, v)
  }

  /** Where no domain agrees on a cell, no domain is down to one candidate: the assignment of such domains that the
      tool tries next finds nothing. */
  lemma NoSingleCandidate(ds: Domains, k: nat)
    requires Wf(ds) && NoneFixed(ds) && k in ds && ds[k].free != []
    ensures |ds[k].cands| != 1
  {
    if |ds[k].cands| == 1 {
      SingleIsFixed(ds[k]);
    }
  }

  lemma SingleIsFixed(d: Domain)
    requires WfDomain(d) && d.free != [] && |d.cands| == 1
    ensures FixedIn(d, d.free[0], d.cands[0][0])
  {
    assert AllAgree(d, 0, d.cands[0][0]);
  }

  /** Filtering the generated domains leaves none empty and no cell on which a domain agrees. */
  ghost predicate NothingAgreed(crc: Vec -> Vec, L: LineSystem, block: Block, known: Partial, s: nat, maxFree: nat)
    requires |L.members| == |L.targets| && IsBlock(crc, L, block) && |block.hashes| == 2 * s
  {
    exists rows0: Domains, cols0: Domains, rows: Domains, cols: Domains ::
      Exhausts(crc, L, block, known, s, maxFree, rows0, cols0, rows, cols)
  }

  ghost predicate Exhausts(crc: Vec -> Vec, L: LineSystem, block: Block, known: Partial, s: nat, maxFree: nat,
                           rows0: Domains, cols0: Domains, rows: Domains, cols: Domains)
    requires |L.members| == |L.targets| && IsBlock(crc, L, block) && |block.hashes| == 2 * s
  {
    && Generated(crc, L, block, known, s, maxFree, rows0, cols0) && Filtered(rows0, cols0, rows, cols)
    && NonEmpty(rows) && NonEmpty(cols) && ArcConsistent(rows, cols) && NoneFixed(rows) && NoneFixed(cols)
  }

  lemma FixedOnRow(d0: Domain, d: Domain, crc: Vec -> Vec, h: Vec, L: LineSystem, known: Partial, s: nat, r: nat,
                   c: nat, v: bool)
    requires |L.members| == |L.targets| && r < |L.members| && r < s && IsGridRow(L.members[r], s, r)
    requires IsDomain(d0, crc, h, L, known, r) && WfDomain(d) && Narrower(d, d0) && FixedIn(d, c, v)
    ensures OpenCell(known, s, r, c)
  {
    FreePositionsSpec(L.members[r], known, |L.members[r]|);
    assert c in d0.free;
    SlotBelow(s, r, c);
  }

  lemma FixedOnColumn(d0: Domain, d: Domain, crc: Vec -> Vec, h: Vec, L: LineSystem, known: Partial, s: nat, r: nat,
                      c: nat, v: bool)
    requires |L.members| == |L.targets| && s + c < |L.members| && c < s && IsGridColumn(L.members[s + c], s, c)
    requires IsDomain(d0, crc, h, L, known, s + c) && WfDomain(d) && Narrower(d, d0) && FixedIn(d, r, v)
    ensures OpenCell(known, s, r, c)
  {
    FreePositionsSpec(L.members[s + c], known, |L.members[s + c]|);
    assert r in d0.free;
    SlotBelow(s, r, c);
  }

  lemma FixedByRowIsOpen(crc: Vec -> Vec, L: LineSystem, block: Block, known: Partial, s: nat, maxFree: nat,
                         rows0: Domains, rows: Domains, r: nat, c: nat, v: bool)
    requires L.Wf() && IsGrid(L, s) && IsBlock(crc, L, block) && |block.hashes| == 2 * s
    requires AreDomains(rows0, crc, L, block, known, 0, s, maxFree) && SubDomains(rows, rows0) && r in rows
    requires WfDomain(rows[r]) && FixedIn(rows[r], c, v)
    ensures OpenCell(known, s, r, c)
  {
    assert IsDomainAt(rows0, crc, L, block, known, 0, r, maxFree) && IsGridRow(L.members[r], s, r);
    FixedOnRow(rows0[r], rows[r], crc, block.hashes[r], L, known, s, r, c, v);
  }

  lemma FixedByColumnIsOpen(crc: Vec -> Vec, L: LineSystem, block: Block, known: Partial, s: nat, maxFree: nat,
                            cols0: Domains, cols: Domains, r: nat, c: nat, v: bool)
    requires L.Wf() && IsGrid(L, s) && IsBlock(crc, L, block) && |block.hashes| == 2 * s
    requires AreDomains(cols0, crc, L, block, known, s, s, maxFree) && SubDomains(cols, cols0) && c in cols
    requires WfDomain(cols[c]) && FixedIn(cols[c], r, v)
    ensures OpenCell(known, s, r, c)
  {
    assert IsDomainAt(cols0, crc, L, block, known, s, c, maxFree) && IsGridColumn(L.members[s + c], s, s + c - s);
    FixedOnColumn(cols0[c], cols[c], crc, block.hashes[s + c], L, known, s, r, c, v);
  }

  /** A fixed cell is one of the free cells of its line. */
  lemma FixedIsOpen(crc: Vec -> Vec, L: LineSystem, block: Block, known: Partial, s: nat, maxFree: nat,
                    rows0: Domains, cols0: Domains, rows: Domains, cols: Domains, r: nat, c: nat, v: bool)
    requires L.Wf() && IsGrid(L, s) && IsBlock(crc, L, block) && |block.hashes| == 2 * s
    requires Generated(crc, L, block, known, s, maxFree, rows0, cols0) && Filtered(rows0, cols0, rows, cols)
    requires FixedBy(rows, cols, r, c, v)
    ensures OpenCell(known, s, r, c)
  {
    if r in rows && FixedIn(rows[r], c, v) {
      FixedByRowIsOpen(crc, L, block, known, s, maxFree, rows0, rows, r, c, v);
    } else {
      FixedByColumnIsOpen(crc, L, block, known, s, maxFree, cols0, cols, r, c, v);
    }
  }

  /** Domains, cross filtering and the cells on which a domain agrees. A domain with a single candidate agrees on all
      its cells, so with nothing agreed there is no such domain left to assign. */
  method AgreedCells(ghost crc: Vec -> Vec, cs: ConstraintSystem, block: Block, s: nat, maxFree: nat)
      returns (cells: FixedCells, inconsistent: bool)
    requires cs.Valid() && IsGrid(cs.L, s) && IsBlock(crc, cs.L, block) && |block.hashes| == 2 * s
    ensures inconsistent ==> DeadEnd(crc, cs.L, block, cs.known)
    ensures !inconsistent ==> CellsOpen(cells, cs.known, s) && CellsFollow(crc, cs.L, block, cs.known, cells, s)
    ensures !inconsistent && cells == map[] ==> NothingAgreed(crc, cs.L, block, cs.known, s, maxFree)
  {
    cells := map[];
    ghost var L, known := cs.L, cs.known;
    var rows0, cols0;
    rows0, inconsistent := GenerateDomains(crc, cs, block, 0, s, maxFree);
    if inconsistent {
      return;
    }
    cols0, inconsistent := GenerateDomains(crc, cs, block, s, s, maxFree);
    if inconsistent {
      return;
    }
    DomainsAreWf(rows0, crc, L, block, known, 0, s, maxFree);
    DomainsAreWf(cols0, crc, L, block, known, s, s, maxFree);
    var rows, cols;
    rows, cols, inconsistent := CrossFilter(rows0, cols0, s);
    if inconsistent {
      EmptiedIsDeadEnd(crc, L, block, known, s, maxFree, rows0, cols0, rows, cols);
      return;
    }
    cells := CollectCells(rows, cols);
    AgreedAreOpen(crc, L, block, known, s, maxFree, rows0, cols0, rows, cols, cells);
    AgreedFollow(crc, L, block, known, s, maxFree, rows0, cols0, rows, cols, cells);
    if cells == map[] {
      NoneListed(rows, cols, cells);
      assert Exhausts(crc, L, block, known, s, maxFree, rows0, cols0, rows, cols);
    }
  }

  lemma AgreedAreOpen(crc: Vec -> Vec, L: LineSystem, block: Block, known: Partial, s: nat, maxFree: nat,
                       rows0: Domains, cols0: Domains, rows: Domains, cols: Domains, cells: FixedCells)
    requires L.Wf() && IsGrid(L, s) && IsBlock(crc, L, block) && |block.hashes| == 2 * s
    requires Generated(crc, L, block, known, s, maxFree, rows0, cols0) && Filtered(rows0, cols0, rows, cols)
    requires forall r: nat, c: nat :: (r, c) in cells ==> FixedBy(rows, cols, r, c, cells[(r, c)])
    ensures CellsOpen(cells, known, s)
  {
    forall r: nat, c: nat | (r, c) in cells ensures OpenCell(known, s, r, c) {
      FixedIsOpen(crc, L, block, known, s, maxFree, rows0, cols0, rows, cols, r, c, cells[(r, c)]);
    }
  }

  lemma AgreedFollow(crc: Vec -> Vec, L: LineSystem, block: Block, known: Partial, s: nat, maxFree: nat,
                       rows0: Domains, cols0: Domains, rows: Domains, cols: Domains, cells: FixedCells)
    requires L.Wf() && IsGrid(L, s) && IsBlock(crc, L, block) && |block.hashes| == 2 * s
    requires Generated(crc, L, block, known, s, maxFree, rows0, cols0) && Filtered(rows0, cols0, rows, cols)
    requires forall r: nat, c: nat :: (r, c) in cells ==> FixedBy(rows, cols, r, c, cells[(r, c)])
    requires CellsOpen(cells, known, s)
    ensures CellsFollow(crc, L, block, known, cells, s)
  {
    forall x: Vec | FullSolution(crc, L, block, x) && Agrees(x, known) ensures CellsHold(cells, x, s) {
      SolutionSurvives(crc, L, block, known, s, maxFree, rows0, cols0, rows, cols, x);
      HeldInMatrix(x, s, rows, cols, cells, known);
    }
  }

  lemma HeldInMatrix(x: Vec, s: nat, rows: Domains, cols: Domains, cells: FixedCells, known: Partial)
    requires Wf(rows) && Wf(cols) && |x| == s * s && InDomains(MatrixOf(x, s), rows, cols) && CellsOpen(cells, known, s)
    requires forall r: nat, c: nat :: (r, c) in cells ==> FixedBy(rows, cols, r, c, cells[(r, c)])
    ensures CellsHold(cells, x, s)
  {
    forall r: nat, c: nat | (r, c) in cells ensures HoldsAt(x, s, r, c, cells[(r, c)]) {
      assert OpenCell(known, s, r, c);
      FixedIsSound(MatrixOf(x, s), rows, cols, r, c, cells[(r, c)]);
    }
  }

  lemma NoneListed(rows: Domains, cols: Domains, cells: FixedCells)
    requires Wf(rows) && Wf(cols) && cells == map[]
    requires forall r :: r in rows ==> RowListed(cells, rows[r], r)
    requires forall c :: c in cols ==> ColumnListed(cells, cols[c], c)
    ensures NoneFixed(rows) && NoneFixed(cols)
  {
    forall k: nat, p: nat, v: bool | k in rows ensures !FixedIn(rows[k], p, v) {
      assert RowListed(cells, rows[k], k);
    }
    forall k: nat, p: nat, v: bool | k in cols ensures !FixedIn(cols[k], p, v) {
      assert ColumnListed(cells, cols[k], k);
    }
  }

  lemma CellEntailed(crc: Vec -> Vec, L: LineSystem, block: Block, start: Partial, known: Partial,
                     cells: FixedCells, s: nat, r: nat, c: nat)
    requires L.Wf() && |block.hashes| <= |L.members| && (r, c) in cells
    requires CellsFollow(crc, L, block, start, cells, s) && FullEntails(crc, L, block, start, known)
    ensures FullEntails(crc, L, block, start, known[r * s + c := cells[(r, c)]])
  {
    forall x: Vec | FullSolution(crc, L, block, x) && Agrees(x, start)
      ensures Agrees(x, known[r * s + c := cells[(r, c)]])
    {
      assert CellsHold(cells, x, s);
    }
  }

  /** Fixes a cell whose value follows, unless it is fixed already. */
  method ApplyCell(ghost crc: Vec -> Vec, cs: ConstraintSystem, ghost block: Block, j: nat, v: bool,
                   ghost start: Partial)
    requires cs.Valid() && IsBlock(crc, cs.L, block) && j < cs.L.n && j !in start && Extends(cs.known, start)
    requires FullEntails(crc, cs.L, block, start, cs.known)
    requires FullEntails(crc, cs.L, block, start, cs.known[j := v])
    modifies cs
    ensures cs.Valid() && Extends(cs.known, start) && Extends(cs.known, old(cs.known))
    ensures j in cs.known && cs.free <= old(cs.free)
    ensures FullEntails(crc, cs.L, block, start, cs.known)
  {
    if j in cs.free {
      cs.Determine(j, v);
    }
  }

  /** Fixes the listed cells, in any order. */
  method ApplyCells(ghost crc: Vec -> Vec, cs: ConstraintSystem, ghost block: Block, s: nat, cells: FixedCells)
    requires cs.Valid() && IsGrid(cs.L, s) && IsBlock(crc, cs.L, block)
    requires CellsOpen(cells, cs.known, s) && CellsFollow(crc, cs.L, block, cs.known, cells, s)
    modifies cs
    ensures cs.Valid() && Extends(cs.known, old(cs.known)) && cs.free <= old(cs.free)
    ensures forall r: nat, c: nat :: (r, c) in cells ==> r * s + c in cs.known
    ensures FullEntails(crc, cs.L, block, old(cs.known), cs.known)
  {
    ghost var start := cs.known;
    var todo: set<(nat, nat)> := cells.Keys;
    while todo != {}
      invariant todo <= cells.Keys && cs.Valid() && Extends(cs.known, start) && cs.free <= old(cs.free)
      invariant forall r: nat, c: nat :: (r, c) in cells && (r, c) !in todo ==> r * s + c in cs.known
      invariant FullEntails(crc, cs.L, block, start, cs.known)
    {
      var cell: (nat, nat) :| cell in todo;
      todo := todo - {cell};
      assert (cell.0, cell.1) in cells && OpenCell(start, s, cell.0, cell.1);
      CellEntailed(crc, cs.L, block, start, cs.known, cells, s, cell.0, cell.1);
      ApplyCell(crc, cs, block, cell.0 * s + cell.1, cells[cell], start);
    }
  }

  /** With any cell to fix, the free set shrinks. */
  lemma AnyCellShrinks(n: nat, start: Partial, known: Partial, s: nat, cells: FixedCells)
    requires n == s * s && CellsOpen(cells, start, s) && cells != map[]
    requires Cells(n) - known.Keys <= Cells(n) - start.Keys
    requires forall r: nat, c: nat :: (r, c) in cells ==> r * s + c in known
    ensures Cells(n) - known.Keys < Cells(n) - start.Keys
  {
    var cell: (nat, nat) :| cell in cells.Keys;
    assert (cell.0, cell.1) in cells && OpenCell(start, s, cell.0, cell.1);
    assert cell.0 * s + cell.1 in Cells(n) - start.Keys;
  }

  /** How a run ends. */
  datatype Ending = Done | Stuck | Contradiction

  /** One round: agreed cells are fixed and propagated. */
  method Round(ghost crc: Vec -> Vec, cs: ConstraintSystem, block: Block, s: nat, maxFree: nat)
      returns (changed: bool, inconsistent: bool)
    requires cs.Valid() && IsGrid(cs.L, s) && IsBlock(crc, cs.L, block) && |block.hashes| == 2 * s
    modifies cs
    ensures cs.Valid() && Extends(cs.known, old(cs.known))
    ensures FullEntails(crc, cs.L, block, old(cs.known), cs.known)
    ensures inconsistent ==> DeadEnd(crc, cs.L, block, old(cs.known))
    ensures changed ==> cs.free < old(cs.free) && AtRest(cs.L, cs.known)
    ensures changed && !inconsistent ==> Closed(cs.L, cs.known)
    ensures !changed && !inconsistent ==>
      cs.known == old(cs.known) && NothingAgreed(crc, cs.L, block, cs.known, s, maxFree)
  {
    ghost var start := cs.known;
    changed := false;
    var cells;
    cells, inconsistent := AgreedCells(crc, cs, block, s, maxFree);
    if inconsistent || cells == map[] {
      return;
    }
    ApplyCells(crc, cs, block, s, cells);
    ghost var between := cs.known;
    AnyCellShrinks(cs.L.n, start, between, s, cells);
    var _, conflict := cs.IntBound(true);
    PropagationEntails(crc, cs.L, block, start, between, cs.known);
    changed := true;
    if conflict {
      ConflictIsDeadEnd(crc, cs.L, block, start, between);
      inconsistent := true;
    }
  }

  /** The state extends the least stable extension of the start. */
  ghost predicate AboveLeast(L: LineSystem, start: Partial, K: Partial)
    requires |L.members| == |L.targets|
  {
    exists P: Partial :: LeastStable(L, start, P) && Extends(K, P)
  }

  /** Rounds until all cells are fixed, nothing is agreed or a contradiction is found. Everything fixed holds in every
      full solution, a contradiction means that there is none, and a stuck run has domains that decide no further
      cell. */
  method Run(ghost crc: Vec -> Vec, cs: ConstraintSystem, block: Block, s: nat, maxFree: nat) returns (ending: Ending)
    requires cs.Valid() && IsGrid(cs.L, s) && IsBlock(crc, cs.L, block) && |block.hashes| == 2 * s
    modifies cs
    ensures cs.Valid() && Extends(cs.known, old(cs.known))
    ensures FullEntails(crc, cs.L, block, old(cs.known), cs.known)
    ensures ending.Contradiction? ==> DeadEnd(crc, cs.L, block, old(cs.known))
    ensures ending.Stuck? ==> NothingAgreed(crc, cs.L, block, cs.known, s, maxFree)
    ensures ending.Done? ==> cs.free == {}
    ensures (exists M: Partial :: Stable(cs.L, old(cs.known), M)) ==>
      AboveLeast(cs.L, old(cs.known), cs.known) && (ending.Contradiction? || Closed(cs.L, cs.known))
  {
    ghost var start := cs.known;
    var _, _ := cs.IntBound(true);
    PropagationEntails(crc, cs.L, block, start, start, cs.known);
    ghost var stable := exists M: Partial :: Stable(cs.L, start, M);
    while cs.free != {}
      invariant cs.Valid() && Extends(cs.known, start) && FullEntails(crc, cs.L, block, start, cs.known)
      invariant stable ==> AboveLeast(cs.L, start, cs.known) && Closed(cs.L, cs.known)
      decreases cs.free
    {
      ghost var before := cs.known;
      var changed, inconsistent := Round(crc, cs, block, s, maxFree);
      EntailsChain(crc, cs.L, block, start, before, cs.known);
      if stable {
        StillAboveLeast(cs.L, start, before, cs.known);
      }
      if inconsistent {
        return Contradiction;
      }
      if !changed {
        return Stuck;
      }
    }
    ending := Done;
  }

  lemma StillAboveLeast(L: LineSystem, start: Partial, K: Partial, M: Partial)
    requires |L.members| == |L.targets| && AboveLeast(L, start, K) && Extends(M, K)
    ensures AboveLeast(L, start, M)
  {
    var P: Partial :| LeastStable(L, start, P) && Extends(K, P);
    assert Extends(M, P);
  }
}
