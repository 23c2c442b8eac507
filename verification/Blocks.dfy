/** From a matrix to its projections and back: line sums and row CRCs, the linear system they give,
    and the fixpoint run on it. */
module Blocks {
  import opened Arithmetic
  import opened Gf2
  import opened Crc32
  import opened Lines
  import opened JointStates
  import opened Paths
  import opened Propagation
  import opened Fixpoint

  /** Row `r` of an `s` by `s` matrix stored row by row. */
  function Row(x: Vec, s: nat, r: nat): (y: Vec)
    requires |x| == s * s && r < s
    ensures |y| == s
  {
    LineBelow(s, r);
    x[r * s..r * s + s]
  }

  // ---- the rows of the system ----

  method ParityRow(n: nat, ms: seq<nat>) returns (a: Vec)
    requires forall k :: 0 <= k < |ms| ==> ms[k] < n
    ensures |a| == n && forall j :: 0 <= j < n ==> (a[j] <==> j in ms)
  {
    a := Zero(n);
    for k := 0 to |ms|
      invariant |a| == n && forall j :: 0 <= j < n ==> (a[j] <==> j in ms[..k])
    {
      a := a[ms[k] := true];
    }
  }

  /** The row with `g` written from column `base` on. */
  method WindowRow(n: nat, base: nat, g: Vec) returns (a: Vec)
    requires base + |g| <= n
    ensures |a| == n
    ensures forall j :: 0 <= j < n ==> a[j] == (base <= j < base + |g| && g[j - base])
  {
    a := Zero(n);
    for c := 0 to |g|
      invariant |a| == n && forall j :: 0 <= j < n ==> a[j] == (base <= j < base + c && g[j - base])
    {
      a := a[base + c := g[c]];
    }
  }

  lemma ParityNext(p: nat, v: bool)
    ensures ((p + BitToInt(v)) % 2 == 1) == ((p % 2 == 1) != v)
  {
  }

  ghost function OnesAt(ms: seq<nat>, n: nat): (a: Vec)
    ensures |a| == n && forall j :: 0 <= j < n ==> (a[j] <==> j in ms)
  {
    seq(n, j requires 0 <= j < n => j in ms)
  }

  lemma OnesAtLast(ms: seq<nat>, n: nat)
    requires ms != [] && Distinct(ms) && ms[|ms| - 1] < n
    ensures OnesAt(ms, n)[ms[|ms| - 1]] && OnesAt(ms, n)[ms[|ms| - 1] := false] == OnesAt(ms[..|ms| - 1], n)
  {
    assert ms == ms[..|ms| - 1] + [ms[|ms| - 1]];
  }

  /** A row that is one on the distinct cells `ms` computes their parity. */
  lemma {:induction false} ParityDot(ms: seq<nat>, x: Vec)
    requires Distinct(ms) && forall k :: 0 <= k < |ms| ==> ms[k] < |x|
    ensures Dot(OnesAt(ms, |x|), x) == (Count(ms, Support(x)) % 2 == 1)
  {
    if ms == [] {
      DotZeroTo(OnesAt(ms, |x|), x, |x|);
    } else {
      var rest, last := ms[..|ms| - 1], ms[|ms| - 1];
      ParityDot(rest, x);
      OnesAtLast(ms, |x|);
      DotClearTo(OnesAt(ms, |x|), x, last, |x|);
      ParityNext(Count(rest, Support(x)), x[last]);
    }
  }

  lemma {:induction false} WindowDotTo(a: Vec, x: Vec, base: nat, g: Vec, k: nat)
    requires |a| == |x| && base + |g| <= |a| && k <= |g|
    requires forall j :: 0 <= j < |a| ==> a[j] == (base <= j < base + |g| && g[j - base])
    ensures DotTo(a, x, base + k) == DotTo(g, x[base..base + |g|], k)
  {
    if k == 0 {
      DotZeroTo(a, x, base);
    } else {
      WindowDotTo(a, x, base, g, k - 1);
    }
  }

  lemma {:induction false} DotTailZero(a: Vec, x: Vec, k: nat, m: nat)
    requires |a| == |x| && k <= m <= |a| && forall j :: k <= j < m ==> !a[j]
    ensures DotTo(a, x, m) == DotTo(a, x, k)
  {
    if k < m {
      DotTailZero(a, x, k, m - 1);
    }
  }

  lemma WindowDot(a: Vec, x: Vec, base: nat, g: Vec)
    requires |a| == |x| && base + |g| <= |a|
    requires forall j :: 0 <= j < |a| ==> a[j] == (base <= j < base + |g| && g[j - base])
    ensures Dot(a, x) == Dot(g, x[base..base + |g|])
  {
    WindowDotTo(a, x, base, g, |g|);
    DotTailZero(a, x, base + |g|, |a|);
  }

  // ---- the whole system ----

  /** The first `m` line parities are the stored ones. */
  ghost predicate ParityMatches(L: LineSystem, x: Vec, m: nat)
    requires m <= |L.members| && |L.members| == |L.targets|
  {
    forall i :: 0 <= i < m ==> Count(L.members[i], Support(x)) % 2 == L.targets[i] % 2
  }

  /** The first `m` row CRCs are the stored ones. */
  ghost predicate CrcMatches(crc: Vec -> Vec, x: Vec, s: nat, crcs: seq<Vec>, m: nat)
    requires |x| == s * s && |crcs| == s && m <= s
  {
    forall r :: 0 <= r < m ==> crc(Row(x, s, r)) == crcs[r]
  }

  /** The equations say exactly that `i` line parities and `r` row CRCs are the stored ones. */
  ghost predicate Means(crc: Vec -> Vec, rows: seq<Vec>, rhs: Vec, L: LineSystem, s: nat, crcs: seq<Vec>, i: nat,
                        r: nat)
    requires i <= |L.members| && |L.members| == |L.targets|
    requires L.n == s * s && |crcs| == s && r <= s
  {
    Shape(rows, rhs, L.n) &&
    forall x: Vec :: |x| == L.n ==> (Sat(rows, rhs, x) <==> ParityMatches(L, x, i) && CrcMatches(crc, x, s, crcs, r))
  }

  lemma SatConcat(G: seq<Vec>, b: Vec, H: seq<Vec>, c: Vec, x: Vec)
    requires Shape(G, b, |x|) && Shape(H, c, |x|)
    ensures Shape(G + H, b + c, |x|)
    ensures Sat(G + H, b + c, x) <==> Sat(G, b, x) && Sat(H, c, x)
  {
    if Sat(G + H, b + c, x) {
      forall i | 0 <= i < |G| ensures Dot(G[i], x) == b[i] {
        assert Dot((G + H)[i], x) == (b + c)[i];
      }
      forall i | 0 <= i < |H| ensures Dot(H[i], x) == c[i] {
        assert Dot((G + H)[|G| + i], x) == (b + c)[|G| + i];
      }
    }
  }

  lemma AddParity(crc: Vec -> Vec, rows: seq<Vec>, rhs: Vec, L: LineSystem, s: nat, crcs: seq<Vec>, i: nat, a: Vec)
    requires L.Wf() && i < |L.members| && L.n == s * s && |crcs| == s
    requires Means(crc, rows, rhs, L, s, crcs, i, 0)
    requires |a| == L.n && forall j :: 0 <= j < L.n ==> (a[j] <==> j in L.members[i])
    ensures Means(crc, rows + [a], rhs + [L.targets[i] % 2 == 1], L, s, crcs, i + 1, 0)
  {
    var v := L.targets[i] % 2 == 1;
    forall x: Vec | |x| == L.n
      ensures Sat(rows + [a], rhs + [v], x) <==> ParityMatches(L, x, i + 1) && CrcMatches(crc, x, s, crcs, 0)
    {
      SatConcat(rows, rhs, [a], [v], x);
      assert a == OnesAt(L.members[i], L.n);
      ParityDot(L.members[i], x);
      assert Sat([a], [v], x) <==> Dot([a][0], x) == [v][0];
    }
  }

  lemma AddCrc(crc: Vec -> Vec, rows: seq<Vec>, rhs: Vec, L: LineSystem, s: nat, crcs: seq<Vec>, r: nat,
               block: seq<Vec>, c: Vec)
    requires L.Wf() && L.n == s * s && |crcs| == s && r < s && Shape(block, c, L.n)
    requires Means(crc, rows, rhs, L, s, crcs, |L.members|, r)
    requires forall x: Vec :: |x| == L.n ==> (Sat(block, c, x) <==> crc(Row(x, s, r)) == crcs[r])
    ensures Means(crc, rows + block, rhs + c, L, s, crcs, |L.members|, r + 1)
  {
    forall x: Vec | |x| == L.n
      ensures Sat(rows + block, rhs + c, x) <==> ParityMatches(L, x, |L.members|) && CrcMatches(crc, x, s, crcs, r + 1)
    {
      SatConcat(rows, rhs, block, c, x);
    }
  }

  /** Equation row `a` computes on the whole matrix what `g` computes on matrix row `r`. */
  ghost predicate ActsOnRow(a: Vec, g: Vec, n: nat, s: nat, r: nat)
    requires |a| == n == s * s && |g| == s && r < s
  {
    forall x: Vec :: |x| == n ==> Dot(a, x) == Dot(g, Row(x, s, r))
  }

  method CrcRow(n: nat, s: nat, r: nat, g: Vec) returns (a: Vec)
    requires r < s && n == s * s && |g| == s
    ensures |a| == n && ActsOnRow(a, g, n, s, r)
  {
    LineBelow(s, r);
    a := WindowRow(n, r * s, g);
    forall x: Vec | |x| == n ensures Dot(a, x) == Dot(g, Row(x, s, r)) {
      WindowDot(a, x, r * s, g);
    }
  }

  lemma CrcBlockMeans(crc: Vec -> Vec, n: nat, s: nat, r: nat, h: Vec, gen: seq<Vec>, block: seq<Vec>, rhs: Vec)
    requires r < s && n == s * s && |h| == 32 && AffineOn(crc, s) && IsGenerator(crc, gen, s)
    requires Shape(block, rhs, n) && |block| == 32
    requires forall k :: 0 <= k < 32 ==> rhs[k] == (h[k] != crc(Zero(s))[k]) && ActsOnRow(block[k], gen[k], n, s, r)
    ensures forall x: Vec :: |x| == n ==> (Sat(block, rhs, x) <==> crc(Row(x, s, r)) == h)
  {
    forall x: Vec | |x| == n ensures Sat(block, rhs, x) <==> crc(Row(x, s, r)) == h {
      EquationsIffEqual(crc, gen, Row(x, s, r), h);
      assert forall k :: 0 <= k < 32 ==> Dot(block[k], x) == Dot(gen[k], Row(x, s, r));
    }
  }

  /** The 32 equations of one matrix row. */
  method CrcBlock(crc: Vec -> Vec, n: nat, s: nat, r: nat, h: Vec, gen: seq<Vec>, c0: Vec)
      returns (block: seq<Vec>, rhs: Vec)
    requires r < s && n == s * s && |h| == 32 && AffineOn(crc, s) && IsGenerator(crc, gen, s) && c0 == crc(Zero(s))
    ensures Shape(block, rhs, n)
    ensures forall x: Vec :: |x| == n ==> (Sat(block, rhs, x) <==> crc(Row(x, s, r)) == h)
  {
    rhs := Xor(h, c0);
    block := [];
    for i := 0 to 32
      invariant |block| == i && forall k :: 0 <= k < i ==> |block[k]| == n
      invariant forall k :: 0 <= k < i ==> ActsOnRow(block[k], gen[k], n, s, r)
    {
      var a := CrcRow(n, s, r, gen[i]);
      block := block + [a];
    }
    CrcBlockMeans(crc, n, s, r, h, gen, block, rhs);
  }

  /** One parity equation for every line, then 32 equations for every matrix row. A matrix satisfies them
      exactly when all its line parities and all its row CRCs are the stored ones. */
  method BuildGf2System(crc: Vec -> Vec, L: LineSystem, s: nat, crcs: seq<Vec>, gen: seq<Vec>, c0: Vec)
      returns (rows: seq<Vec>, rhs: Vec)
    requires L.Wf() && L.n == s * s && |crcs| == s && forall r :: 0 <= r < s ==> |crcs[r]| == 32
    requires AffineOn(crc, s) && IsGenerator(crc, gen, s) && c0 == crc(Zero(s))
    ensures Means(crc, rows, rhs, L, s, crcs, |L.members|, s)
  {
    rows, rhs := [], [];
    for i := 0 to |L.members|
      invariant Means(crc, rows, rhs, L, s, crcs, i, 0)
    {
      var a := ParityRow(L.n, L.members[i]);
      AddParity(crc, rows, rhs, L, s, crcs, i, a);
      rows, rhs := rows + [a], rhs + [L.targets[i] % 2 == 1];
    }
    for r := 0 to s
      invariant Means(crc, rows, rhs, L, s, crcs, |L.members|, r)
    {
      var block, c := CrcBlock(crc, L.n, s, r, crcs[r], gen, c0);
      AddCrc(crc, rows, rhs, L, s, crcs, r, block, c);
      rows, rhs := rows + block, rhs + c;
    }
  }

  // ---- reconstruction ----

  /** `y` has the line sums and row CRCs of `x`. */
  ghost predicate SameProjections(members: seq<seq<nat>>, s: nat, x: Vec, y: Vec)
    requires |x| == s * s
  {
    && |y| == |x|
    && (forall i :: 0 <= i < |members| ==> Count(members[i], Support(y)) == Count(members[i], Support(x)))
    && (forall r :: 0 <= r < s ==> RowCrc(Row(y, s, r)) == RowCrc(Row(x, s, r)))
  }

  /** The vectors with the line parities and row CRCs of `x`: all that the linear system sees. */
  ghost function ParityMates(members: seq<seq<nat>>, s: nat, x: Vec): iset<Vec>
    requires |x| == s * s
  {
    iset y: Vec | SameParities(members, s, x, y)
  }

  ghost predicate SameParities(members: seq<seq<nat>>, s: nat, x: Vec, y: Vec)
    requires |x| == s * s
  {
    && |y| == |x|
    && (forall i :: 0 <= i < |members| ==> Count(members[i], Support(y)) % 2 == Count(members[i], Support(x)) % 2)
    && (forall r :: 0 <= r < s ==> RowCrc(Row(y, s, r)) == RowCrc(Row(x, s, r)))
  }

  lemma CountNext(ms: seq<nat>, s: set<nat>, k: nat)
    requires k < |ms|
    ensures Count(ms[..k + 1], s) == Count(ms[..k], s) + if ms[k] in s then 1 else 0
  {
    assert ms[..k + 1][..k] == ms[..k];
  }

  /** Adds up the cells of one line. */
  method LineSum(x: Vec, ms: seq<nat>) returns (sum: int)
    requires forall k :: 0 <= k < |ms| ==> ms[k] < |x|
    ensures sum == Count(ms, Support(x))
  {
    sum := 0;
    for k := 0 to |ms|
      invariant sum == Count(ms[..k], Support(x))
    {
      CountNext(ms, Support(x), k);
      sum := sum + BitToInt(x[ms[k]]);
    }
    assert ms[..|ms|] == ms;
  }

  /** The line sums of a matrix are targets that the matrix meets. */
  method ProjectLines(members: seq<seq<nat>>, x: Vec) returns (targets: seq<int>)
    requires forall i, k :: 0 <= i < |members| && 0 <= k < |members[i]| ==> members[i][k] < |x|
    ensures Solution(LineSystem(|x|, members, targets), x)
  {
    targets := [];
    for i := 0 to |members|
      invariant |targets| == i && forall k :: 0 <= k < i ==> Count(members[k], Support(x)) == targets[k]
    {
      var sum := LineSum(x, members[i]);
      targets := targets + [sum];
    }
  }

  method ToArrays(rows: seq<Vec>, rhs: Vec) returns (G: array<Vec>, b: array<bool>)
    ensures fresh(G) && fresh(b) && G[..] == rows && b[..] == rhs
  {
    G := new Vec[|rows|](i requires 0 <= i < |rows| => rows[i]);
    b := new bool[|rhs|](i requires 0 <= i < |rhs| => rhs[i]);
  }

  /** The linear system of a matrix, from its projections. It is solved by the vectors with the parities and CRCs of
      the matrix, whatever their line sums. */
  method ProjectSystem(L: LineSystem, s: nat, x: Vec) returns (rows: seq<Vec>, rhs: Vec)
    requires L.Wf() && L.n == s * s == |x| && Solution(L, x)
    ensures Shape(rows, rhs, L.n)
    ensures Solutions(rows, rhs, L.n) == ParityMates(L.members, s, x)
  {
    RowCrcIsAffine(s);
    var gen, c0 := BuildGenerator(RowCrc, s);
    var crcs := seq(s, r requires 0 <= r < s => RowCrc(Row(x, s, r)));
    rows, rhs := BuildGf2System(RowCrc, L, s, crcs, gen, c0);
    forall y: Vec ensures y in Solutions(rows, rhs, L.n) <==> y in ParityMates(L.members, s, x) {
      MatesMatch(L, s, x, crcs, y);
    }
  }

  lemma MatesMatch(L: LineSystem, s: nat, x: Vec, crcs: seq<Vec>, y: Vec)
    requires L.n == s * s == |x| && Solution(L, x)
    requires |crcs| == s && forall r :: 0 <= r < s ==> crcs[r] == RowCrc(Row(x, s, r))
    ensures y in ParityMates(L.members, s, x) <==>
      |y| == L.n && ParityMatches(L, y, |L.members|) && CrcMatches(RowCrc, y, s, crcs, s)
  {
  }

  /** The vectors with the sums and CRCs of the matrix are the joint solutions. */
  lemma ProjectionsAreJoint(L: LineSystem, s: nat, x: Vec, rows: seq<Vec>, rhs: Vec, y: Vec)
    requires L.n == s * s == |x| && Solution(L, x) && Shape(rows, rhs, L.n)
    requires Solutions(rows, rhs, L.n) == ParityMates(L.members, s, x)
    ensures SameProjections(L.members, s, x, y) <==> JointSolution(L, rows, rhs, y)
  {
    if |y| == |x| {
      assert y in Solutions(rows, rhs, L.n) <==> y in ParityMates(L.members, s, x);
    }
  }

  /** Matrices with the same projections give the linear side the same vectors, so the run cannot tell them apart. */
  lemma ProjectionsDecide(L: LineSystem, s: nat, x: Vec, y: Vec, K: Partial, M: Partial)
    requires |x| == s * s && SameProjections(L.members, s, x, y) && |L.members| == |L.targets|
    requires JointLeast(L, ParityMates(L.members, s, x), K) && JointLeast(L, ParityMates(L.members, s, y), M)
    ensures K == M
  {
    forall z: Vec ensures SameParities(L.members, s, x, z) <==> SameParities(L.members, s, y, z) {
    }
    assert ParityMates(L.members, s, x) == ParityMates(L.members, s, y);
    JointLeastUnique(L, ParityMates(L.members, s, x), K, M);
  }

  lemma AllKnown(x: Vec, known: Partial)
    requires Agrees(x, known) && known.Keys <= Cells(|x|) && |known| == |x|
    ensures known == Total(x)
  {
    CellsSize(|x|);
    assert |known.Keys| == |known|;
    SubsetSize(known.Keys, Cells(|x|));
  }

  /** Projects a matrix and runs the fixpoint on the projections alone. The run never reports infeasibility, and every
      cell it fixes has the value shared by all matrices with these projections. It ends in the state to which `rounds`
      rounds lead, as many as the limit says unless it has converged; then, and with at least one iteration a cell
      always, it ends in the least state that neither the line sums nor the equations extend. */
  method Reconstruct(members: seq<seq<nat>>, s: nat, x: Vec, maxIterations: nat)
      returns (cs: ConstraintSystem, feasible: bool, ghost rounds: nat)
    requires |x| == s * s && LineSystem(|x|, members, seq(|members|, _ => 0)).Wf()
    ensures fresh(cs) && cs.Valid() && feasible
    ensures cs.L.n == |x| && cs.L.members == members && Solution(cs.L, x)
    ensures forall y: Vec :: SameProjections(members, s, x, y) ==> Agrees(y, cs.known)
    ensures |cs.known| == |x| ==> cs.known == Total(x)
    ensures 0 < maxIterations && |x| <= maxIterations ==> JointLeast(cs.L, ParityMates(members, s, x), cs.known)
    ensures rounds <= maxIterations && (0 < maxIterations ==> 0 < rounds && Closed(cs.L, cs.known))
    ensures rounds < maxIterations || |cs.known| < maxIterations ==>
      JointLeast(cs.L, ParityMates(members, s, x), cs.known)
    ensures Steps(JointRounds(cs.L, ParityMates(members, s, x)), map[], cs.known, rounds)
  {
    assert forall i :: 0 <= i < |members| ==>
        Distinct(members[i]) && forall k :: 0 <= k < |members[i]| ==> members[i][k] < |x| by {
      assert LineSystem(|x|, members, seq(|members|, _ => 0)).Wf();
    }
    var targets := ProjectLines(members, x);
    var L := LineSystem(|x|, members, targets);
    var rows, rhs := ProjectSystem(L, s, x);
    var G, b := ToArrays(rows, rhs);
    forall y: Vec ensures SameProjections(members, s, x, y) <==> JointSolution(L, rows, rhs, y) {
      ProjectionsAreJoint(L, s, x, rows, rhs, y);
    }
    assert SameProjections(members, s, x, x);
    cs := new ConstraintSystem(L);
    ghost var converged;
    feasible, converged, rounds := Run(cs, G, b, maxIterations);
    if |cs.known| == |x| {
      AllKnown(x, cs.known);
    }
  }
}
