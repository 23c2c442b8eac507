/** Resolution of single rows by their check values: the free cells of a row that its check value alone decides. */
module RowResolve {
  import opened Gf2
  import opened Elimination
  import opened SolutionSpace
  import opened Crc32
  import opened Lines
  import opened Candidates
  import opened Completion

  /** `v` fills the free cells of the line so that its check value is right. */
  ghost predicate RightFilling(crc: Vec -> Vec, h: Vec, pos: seq<nat>, known: Partial, v: Vec) {
    |v| == |FreePositions(pos, known, |pos|)| && crc(Filled(pos, known, v)) == h
  }

  /** All fillings with the right check value agree on the free cell of number `t`. */
  ghost predicate Decided(crc: Vec -> Vec, h: Vec, pos: seq<nat>, known: Partial, t: nat)
    requires t < |FreePositions(pos, known, |pos|)|
  {
    forall v: Vec, w: Vec :: RightFilling(crc, h, pos, known, v) && RightFilling(crc, h, pos, known, w) ==> v[t] == w[t]
  }

  /** `det` has exactly the free cells that are decided, with their values. */
  ghost predicate Resolves(crc: Vec -> Vec, h: Vec, pos: seq<nat>, known: Partial, det: Partial) {
    var free := FreePositions(pos, known, |pos|);
    && (forall t :: 0 <= t < |free| ==> (t in det <==> Decided(crc, h, pos, known, t)))
    && (forall v: Vec, t :: RightFilling(crc, h, pos, known, v) && t in det ==> t < |free| && v[t] == det[t])
  }

  ghost predicate IsRowSystem(rows: seq<Vec>, rhs: Vec, code: Code, pos: seq<nat>, known: Partial)
    requires |code.gen| == |code.h| == |code.c0| == 32
  {
    && Shape(rows, rhs, |FreePositions(pos, known, |pos|)|) && |rows| == 32
    && forall k :: 0 <= k < 32 ==> IsEquation(rows[k], rhs[k], code, pos, known, k)
  }

  method BuildRowSystem(code: Code, pos: seq<nat>, known: Partial, free: seq<nat>)
      returns (G: array<Vec>, b: array<bool>)
    requires |code.gen| == |code.h| == |code.c0| == 32 && forall k :: 0 <= k < 32 ==> |code.gen[k]| == |pos|
    requires free == FreePositions(pos, known, |pos|)
    ensures fresh(G) && fresh(b)
    ensures IsRowSystem(G[..], b[..], code, pos, known)
  {
    FreePositionsSpec(pos, known, |pos|);
    assert forall t :: 0 <= t < |free| ==> free[t] in free;
    G := new Vec[32](_ => Zero(|free|));
    b := new bool[32](_ => false);
    for k := 0 to 32
      invariant forall m :: 0 <= m < 32 ==> |G[m]| == |free|
      invariant forall m :: 0 <= m < k ==> IsEquation(G[m], b[m], code, pos, known, m)
    {
      var t := KnownPart(code.gen[k], pos, known);
      G[k] := Restrict(code.gen[k], free);
      b[k] := (code.h[k] != code.c0[k]) != t;
    }
  }

  lemma RowSystemMeaning(crc: Vec -> Vec, rows: seq<Vec>, rhs: Vec, code: Code, pos: seq<nat>, known: Partial, v: Vec)
    requires IsCode(crc, code, |pos|) && IsRowSystem(rows, rhs, code, pos, known)
    requires |v| == |FreePositions(pos, known, |pos|)|
    ensures Sat(rows, rhs, v) <==> RightFilling(crc, code.h, pos, known, v)
  {
    var x := Filled(pos, known, v);
    EquationsIffEqual(crc, code.gen, x, code.h);
    forall k | 0 <= k < 32
      ensures Dot(rows[k], v) == rhs[k] <==> Dot(code.gen[k], x) == (code.h[k] != code.c0[k])
    {
      assert IsEquation(rows[k], rhs[k], code, pos, known, k);
      FillDot(code.gen[k], pos, known, v);
    }
  }

  /** One row with free cells: a conflict means that no filling has the right check value. */
  method ResolveRow(ghost crc: Vec -> Vec, code: Code, pos: seq<nat>, known: Partial, free: seq<nat>)
      returns (det: Partial, conflict: bool)
    requires IsCode(crc, code, |pos|) && free == FreePositions(pos, known, |pos|)
    ensures conflict <==> forall v: Vec :: !RightFilling(crc, code.h, pos, known, v)
    ensures det.Keys <= Cells(|free|)
    ensures !conflict ==> Resolves(crc, code.h, pos, known, det)
  {
    var G, b := BuildRowSystem(code, pos, known, free);
    ghost var rows, rhs := G[..], b[..];
    det, conflict := DecideColumns(G, b, |free|);
    forall v: Vec | |v| == |free| ensures Sat(rows, rhs, v) <==> RightFilling(crc, code.h, pos, known, v) {
      RowSystemMeaning(crc, rows, rhs, code, pos, known, v);
    }
    if !conflict {
      forall t | 0 <= t < |free| ensures t in det <==> Decided(crc, code.h, pos, known, t) {
        assert t in det <==> ConstantAt(rows, rhs, |free|, t);
      }
    }
  }

  /** Elimination, the zero-row check and the columns that all solutions share. */
  method DecideColumns(G: array<Vec>, b: array<bool>, n: nat) returns (det: Partial, conflict: bool)
    requires Shape(G[..], b[..], n)
    modifies G, b
    ensures det.Keys <= Cells(n)
    ensures conflict <==> forall v: Vec :: |v| == n ==> !Sat(old(G[..]), old(b[..]), v)
    ensures !conflict ==> forall t: nat :: t < n ==> (t in det <==> ConstantAt(old(G[..]), old(b[..]), n, t))
    ensures !conflict ==>
      forall v: Vec, t: nat :: |v| == n && Sat(old(G[..]), old(b[..]), v) && t in det ==> v[t] == det[t]
  {
    ghost var G0, b0 := G[..], b[..];
    var pivots := GaussElim(G, b, n);
    ghost var H, c := G[..], b[..];
    forall k | |pivots| <= k < G.Length ensures |G[k]| == n && LeadingZeros(G[k], n) {
      assert LeadingZeros(H[k], n);
    }
    conflict := HasContradiction(G, b, |pivots|, n);
    if conflict {
      forall v: Vec | |v| == n ensures !Sat(G0, b0, v) {
        SolvesIffComplete(H, c, pivots, v);
      }
      return map[], true;
    }
    var frees := FreeCols(pivots, n);
    FreeColsSpec(pivots, n);
    assert forall e :: 0 <= e < |frees| ==> frees[e] in frees;
    assert forall i :: 0 <= i < G.Length ==> |H[i]| == n;
    det := ExtractDetermined(G, b, pivots, frees);
    ColumnsAreExact(G0, b0, H, c, n, pivots, det);
  }

  lemma ColumnsAreExact(G0: seq<Vec>, b0: Vec, G: seq<Vec>, b: Vec, n: nat, pivots: seq<nat>, det: Partial)
    requires Shape(G0, b0, n) && Shape(G, b, n) && SameSolutions(G0, b0, G, b, n)
    requires Reduced(G, pivots, n) && NoContradiction(b, |pivots|)
    requires DeterminedBy(det, G, b, pivots, FreeCols(pivots, n))
    ensures !forall v: Vec :: |v| == n ==> !Sat(G0, b0, v)
    ensures forall t: nat :: t < n ==> (t in det <==> ConstantAt(G0, b0, n, t))
    ensures forall v: Vec, t: nat :: |v| == n && Sat(G0, b0, v) && t in det ==> t < n && v[t] == det[t]
  {
    var x := Complete(G, b, pivots, Zero(n));
    CompleteSolves(G, b, pivots, Zero(n));
    assert Sat(G0, b0, x);
    forall t: nat | t < n ensures t in det <==> ConstantAt(G0, b0, n, t) {
      DeterminedIsExact(G, b, n, pivots, det, x, t);
      assert ConstantAt(G, b, n, t) <==> ConstantAt(G0, b0, n, t);
    }
    forall v: Vec, t: nat | |v| == n && Sat(G0, b0, v) && t in det ensures t < n && v[t] == det[t] {
      DeterminedIsSound(G, b, pivots, det, v);
    }
  }

  // ---- all rows ----

  ghost predicate RowsDisjoint(L: LineSystem, s: nat)
    requires s <= |L.members|
  {
    forall q, r :: 0 <= q < r < s ==> forall j :: j in L.members[q] ==> j !in L.members[r]
  }

  /** On row `r`, `newly` has exactly the decided cells, with the value that every right filling gives them. */
  ghost predicate RowExact(crc: Vec -> Vec, L: LineSystem, block: Block, known: Partial, newly: Partial, r: nat)
    requires |block.hashes| <= |L.members| && r < |block.hashes|
  {
    var pos := L.members[r];
    var free := FreePositions(pos, known, |pos|);
    forall t :: 0 <= t < |free| && free[t] < |pos| ==>
      && (pos[free[t]] in newly <==> Decided(crc, block.hashes[r], pos, known, t))
      && (pos[free[t]] in newly ==>
            forall v: Vec :: RightFilling(crc, block.hashes[r], pos, known, v) ==> v[t] == newly[pos[free[t]]])
  }

  /** The row has free cells and no filling with the right check value. */
  ghost predicate RowStuck(crc: Vec -> Vec, L: LineSystem, block: Block, known: Partial, r: nat)
    requires |block.hashes| <= |L.members| && r < |block.hashes|
  {
    var pos := L.members[r];
    FreePositions(pos, known, |pos|) != [] && forall v: Vec :: !RightFilling(crc, block.hashes[r], pos, known, v)
  }

  /** `newly` is `newly0` with the decided cells of one row. */
  ghost predicate Merged(newly: Partial, newly0: Partial, pos: seq<nat>, free: seq<nat>, det: Partial)
    requires forall t :: 0 <= t < |free| ==> free[t] < |pos|
  {
    && Extends(newly, newly0) && (forall j :: j in newly ==> j in newly0 || j in pos)
    && (forall t :: 0 <= t < |free| ==>
          (pos[free[t]] in newly <==> t in det) && (t in det ==> newly[pos[free[t]]] == det[t]))
    && (forall j :: j in newly && j !in newly0 ==> exists t :: 0 <= t < |free| && pos[free[t]] == j)
  }

  /** Adds the decided cells of one row. */
  method MergeRow(newly0: Partial, pos: seq<nat>, free: seq<nat>, det: Partial) returns (newly: Partial)
    requires Distinct(pos) && Increasing(free) && forall t :: 0 <= t < |free| ==> free[t] < |pos|
    requires det.Keys <= Cells(|free|) && forall j :: j in pos ==> j !in newly0
    ensures Merged(newly, newly0, pos, free, det)
  {
    newly := newly0;
    for t := 0 to |free|
      invariant Extends(newly, newly0) && forall j :: j in newly ==> j in newly0 || j in pos
      invariant forall k :: 0 <= k < t ==>
        (pos[free[k]] in newly <==> k in det) && (k in det ==> newly[pos[free[k]]] == det[k])
      invariant forall j :: j in newly && j !in newly0 ==> exists k :: 0 <= k < t && pos[free[k]] == j
    {
      assert pos[free[t]] in pos;
      if t in det {
        newly := newly[pos[free[t]] := det[t]];
      }
    }
  }

  lemma MergedIsExact(crc: Vec -> Vec, L: LineSystem, block: Block, known: Partial, newly: Partial, newly0: Partial,
                      r: nat, free: seq<nat>, det: Partial)
    requires |block.hashes| <= |L.members| && r < |block.hashes|
    requires free == FreePositions(L.members[r], known, |L.members[r]|)
    requires forall t :: 0 <= t < |free| ==> free[t] < |L.members[r]|
    requires Resolves(crc, block.hashes[r], L.members[r], known, det)
    requires Merged(newly, newly0, L.members[r], free, det)
    ensures RowExact(crc, L, block, known, newly, r)
  {
  }

  lemma RowExactKept(crc: Vec -> Vec, L: LineSystem, block: Block, known: Partial, before: Partial, newly: Partial,
                     r: nat)
    requires |block.hashes| <= |L.members| && r < |block.hashes|
    requires RowExact(crc, L, block, known, before, r) && Extends(newly, before)
    requires forall j :: j in newly && j in L.members[r] ==> j in before
    ensures RowExact(crc, L, block, known, newly, r)
  {
  }

  /** The first `s` lines of `x` have their stored check values. */
  ghost predicate RowsRight(crc: Vec -> Vec, L: LineSystem, block: Block, s: nat, x: Vec)
    requires L.Wf() && s <= |block.hashes| <= |L.members|
  {
    |x| == L.n && forall r :: 0 <= r < s ==> crc(LineBits(x, L.members[r])) == block.hashes[r]
  }

  lemma RowFilling(crc: Vec -> Vec, L: LineSystem, block: Block, known: Partial, s: nat, r: nat, x: Vec)
    requires L.Wf() && r < s <= |block.hashes| <= |L.members|
    requires RowsRight(crc, L, block, s, x) && Agrees(x, known)
    ensures RightFilling(crc, block.hashes[r], L.members[r], known, FreeValues(x, L.members[r], known))
  {
    FilledIsLine(x, L.members[r], known);
  }

  /** Right check values give the resolved cells their values. */
  lemma ExactForces(crc: Vec -> Vec, L: LineSystem, block: Block, known: Partial, newly: Partial, s: nat, x: Vec)
    requires L.Wf() && s <= |block.hashes| <= |L.members|
    requires forall r :: 0 <= r < s ==> RowExact(crc, L, block, known, newly, r)
    requires forall j :: j in newly ==> FreeInRow(L, known, s, j)
    requires RowsRight(crc, L, block, s, x) && Agrees(x, known)
    ensures Agrees(x, newly)
  {
    forall j | j in newly ensures j < |x| && x[j] == newly[j] {
      assert FreeInRow(L, known, s, j);
      var r, p :| 0 <= r < s && InRow(L, r, p, j) && j !in known;
      var t := FreeRank(L.members[r], known, p);
      RowFilling(crc, L, block, known, s, r, x);
      assert RowExact(crc, L, block, known, newly, r);
    }
  }

  lemma NewCellsFree(L: LineSystem, known: Partial, newly: Partial, s: nat)
    requires L.Wf() && s <= |L.members| && forall j :: j in newly ==> FreeInRow(L, known, s, j)
    ensures newly.Keys <= Cells(L.n) && newly.Keys !! known.Keys
  {
    forall j | j in newly ensures j < L.n && j !in known {
      assert FreeInRow(L, known, s, j);
    }
  }

  ghost predicate InRow(L: LineSystem, r: nat, p: nat, j: nat) {
    r < |L.members| && p < |L.members[r]| && L.members[r][p] == j
  }

  ghost predicate FreeInRow(L: LineSystem, known: Partial, s: nat, j: nat) {
    j !in known && exists r: nat, p: nat :: r < s && InRow(L, r, p, j)
  }

  /** Right check values leave no row stuck. */
  lemma StuckForbids(crc: Vec -> Vec, L: LineSystem, block: Block, known: Partial, s: nat, r: nat, x: Vec)
    requires L.Wf() && r < s <= |block.hashes| <= |L.members|
    requires RowStuck(crc, L, block, known, r) && RowsRight(crc, L, block, s, x)
    ensures !Agrees(x, known)
  {
    if Agrees(x, known) {
      RowFilling(crc, L, block, known, s, r, x);
    }
  }

  /** The rows before `r` can be filled and are resolved exactly. */
  ghost predicate ResolvedTo(crc: Vec -> Vec, L: LineSystem, block: Block, known: Partial, newly: Partial, r: nat)
    requires |block.hashes| <= |L.members| && r <= |block.hashes|
  {
    && (forall q :: 0 <= q < r ==> RowExact(crc, L, block, known, newly, q))
    && (forall q :: 0 <= q < r ==> !RowStuck(crc, L, block, known, q))
    && forall j :: j in newly ==> FreeInRow(L, known, r, j)
  }

  lemma OtherRows(L: LineSystem, known: Partial, r: nat, j: nat)
    requires r < |L.members| && RowsDisjoint(L, r + 1) && FreeInRow(L, known, r, j)
    ensures j !in L.members[r]
  {
    var q: nat, p: nat :| q < r && InRow(L, q, p, j);
  }

  lemma MergedInRow(L: LineSystem, known: Partial, newly: Partial, newly0: Partial, r: nat, free: seq<nat>,
                    det: Partial, j: nat)
    requires r < |L.members| && free == FreePositions(L.members[r], known, |L.members[r]|)
    requires forall t :: 0 <= t < |free| ==> free[t] < |L.members[r]|
    requires Merged(newly, newly0, L.members[r], free, det) && j in newly
    requires j in newly0 ==> FreeInRow(L, known, r, j)
    ensures FreeInRow(L, known, r + 1, j)
  {
    if j !in newly0 {
      var t :| 0 <= t < |free| && L.members[r][free[t]] == j;
      FreePositionsSpec(L.members[r], known, |L.members[r]|);
      assert free[t] in free;
      assert InRow(L, r, free[t], j);
    }
  }

  lemma EarlierRowExact(crc: Vec -> Vec, L: LineSystem, block: Block, known: Partial, newly: Partial, newly0: Partial,
                        r: nat, free: seq<nat>, det: Partial, q: nat)
    requires q < r < |block.hashes| <= |L.members| && RowsDisjoint(L, r + 1)
    requires forall t :: 0 <= t < |free| ==> free[t] < |L.members[r]|
    requires Merged(newly, newly0, L.members[r], free, det) && RowExact(crc, L, block, known, newly0, q)
    ensures RowExact(crc, L, block, known, newly, q)
  {
    RowExactKept(crc, L, block, known, newly0, newly, q);
  }

  /** Merging one row leaves the rows before it exact. */
  lemma MergedRowsExact(crc: Vec -> Vec, L: LineSystem, block: Block, known: Partial, newly: Partial, newly0: Partial,
                        r: nat, free: seq<nat>, det: Partial)
    requires r < |block.hashes| <= |L.members| && RowsDisjoint(L, r + 1)
    requires free == FreePositions(L.members[r], known, |L.members[r]|)
    requires forall t :: 0 <= t < |free| ==> free[t] < |L.members[r]|
    requires Merged(newly, newly0, L.members[r], free, det)
    requires Resolves(crc, block.hashes[r], L.members[r], known, det)
    requires forall q :: 0 <= q < r ==> RowExact(crc, L, block, known, newly0, q)
    ensures forall q :: 0 <= q < r + 1 ==> RowExact(crc, L, block, known, newly, q)
  {
    forall q | 0 <= q < r + 1 ensures RowExact(crc, L, block, known, newly, q) {
      if q < r {
        EarlierRowExact(crc, L, block, known, newly, newly0, r, free, det, q);
      } else {
        MergedIsExact(crc, L, block, known, newly, newly0, r, free, det);
      }
    }
  }

  lemma MergedCells(L: LineSystem, known: Partial, newly: Partial, newly0: Partial, r: nat, free: seq<nat>,
                    det: Partial)
    requires r < |L.members| && free == FreePositions(L.members[r], known, |L.members[r]|)
    requires forall t :: 0 <= t < |free| ==> free[t] < |L.members[r]|
    requires Merged(newly, newly0, L.members[r], free, det)
    requires forall j :: j in newly0 ==> FreeInRow(L, known, r, j)
    ensures forall j :: j in newly ==> FreeInRow(L, known, r + 1, j)
  {
    forall j | j in newly ensures FreeInRow(L, known, r + 1, j) {
      MergedInRow(L, known, newly, newly0, r, free, det, j);
    }
  }

  lemma FreeIndices(pos: seq<nat>, known: Partial)
    ensures Increasing(FreePositions(pos, known, |pos|))
    ensures forall t :: 0 <= t < |FreePositions(pos, known, |pos|)| ==> FreePositions(pos, known, |pos|)[t] < |pos|
  {
    FreePositionsSpec(pos, known, |pos|);
    var free := FreePositions(pos, known, |pos|);
    assert forall t :: 0 <= t < |free| ==> free[t] in free;
  }

  lemma UntouchedRow(L: LineSystem, known: Partial, newly: Partial, r: nat)
    requires r < |L.members| && RowsDisjoint(L, r + 1) && forall j :: j in newly ==> FreeInRow(L, known, r, j)
    ensures forall j :: j in L.members[r] ==> j !in newly
  {
    forall j | j in newly ensures j !in L.members[r] {
      OtherRows(L, known, r, j);
    }
  }

  method AddRow(ghost crc: Vec -> Vec, L: LineSystem, ghost block: Block, known: Partial, newly0: Partial, r: nat,
                free: seq<nat>, det: Partial) returns (newly: Partial)
    requires L.Wf() && r < |block.hashes| <= |L.members| && RowsDisjoint(L, r + 1)
    requires free == FreePositions(L.members[r], known, |L.members[r]|) && det.Keys <= Cells(|free|)
    requires Resolves(crc, block.hashes[r], L.members[r], known, det)
    requires ResolvedTo(crc, L, block, known, newly0, r) && !RowStuck(crc, L, block, known, r)
    ensures ResolvedTo(crc, L, block, known, newly, r + 1)
  {
    var pos := L.members[r];
    FreeIndices(pos, known);
    UntouchedRow(L, known, newly0, r);
    newly := MergeRow(newly0, pos, free, det);
    MergedRowsExact(crc, L, block, known, newly, newly0, r, free, det);
    MergedCells(L, known, newly, newly0, r, free, det);
  }

  lemma FullRowResolved(crc: Vec -> Vec, L: LineSystem, block: Block, known: Partial, newly: Partial, r: nat)
    requires |block.hashes| <= |L.members| && r < |block.hashes|
    requires ResolvedTo(crc, L, block, known, newly, r)
    requires FreePositions(L.members[r], known, |L.members[r]|) == []
    ensures ResolvedTo(crc, L, block, known, newly, r + 1)
  {
    assert RowExact(crc, L, block, known, newly, r);
    assert !RowStuck(crc, L, block, known, r);
    forall j | j in newly ensures FreeInRow(L, known, r + 1, j) {
      assert FreeInRow(L, known, r, j);
    }
  }

  method VisitRow(ghost crc: Vec -> Vec, L: LineSystem, block: Block, known: Partial, newly0: Partial, r: nat)
      returns (newly: Partial, stuck: bool)
    requires L.Wf() && IsBlock(crc, L, block) && r < |block.hashes| && RowsDisjoint(L, r + 1)
    requires ResolvedTo(crc, L, block, known, newly0, r)
    ensures stuck ==> RowStuck(crc, L, block, known, r)
    ensures !stuck ==> ResolvedTo(crc, L, block, known, newly, r + 1)
  {
    newly, stuck := newly0, false;
    var pos := L.members[r];
    var free := FreePositions(pos, known, |pos|);
    if free == [] {
      FullRowResolved(crc, L, block, known, newly, r);
    } else {
      var det;
      det, stuck := ResolveRow(crc, Code(block.gen, block.c0, block.hashes[r]), pos, known, free);
      if !stuck {
        assert !RowStuck(crc, L, block, known, r);
        newly := AddRow(crc, L, block, known, newly0, r, free, det);
      }
    }
  }

  /** Resolves every row by its check value. A conflict means that some row cannot be filled, and then no vector
      with the right check values has the fixed values. Otherwise exactly the cells that their row decides are
      fixed. */
  method Crc32RowResolve(ghost crc: Vec -> Vec, L: LineSystem, block: Block, known: Partial, s: nat)
      returns (newly: Partial, conflict: bool)
    requires L.Wf() && IsBlock(crc, L, block) && s <= |block.hashes| && RowsDisjoint(L, s)
    ensures conflict <==> exists r :: 0 <= r < s && RowStuck(crc, L, block, known, r)
    ensures conflict ==> newly == map[] && forall x: Vec :: RowsRight(crc, L, block, s, x) ==> !Agrees(x, known)
    ensures !conflict ==> forall r :: 0 <= r < s ==> RowExact(crc, L, block, known, newly, r)
    ensures !conflict ==> newly.Keys <= Cells(L.n) && newly.Keys !! known.Keys
    ensures !conflict ==> forall j :: j in newly ==> FreeInRow(L, known, s, j)
    ensures !conflict ==> forall x: Vec :: RowsRight(crc, L, block, s, x) && Agrees(x, known) ==> Agrees(x, newly)
  {
    newly, conflict := map[], false;
    for r := 0 to s
      invariant ResolvedTo(crc, L, block, known, newly, r)
    {
      newly, conflict := VisitRow(crc, L, block, known, newly, r);
      if conflict {
        forall x: Vec | RowsRight(crc, L, block, s, x) ensures !Agrees(x, known) {
          StuckForbids(crc, L, block, known, s, r, x);
        }
        return map[], true;
      }
    }
    conflict := false;
    NewCellsFree(L, known, newly, s);
    forall x: Vec | RowsRight(crc, L, block, s, x) && Agrees(x, known) ensures Agrees(x, newly) {
      ExactForces(crc, L, block, known, newly, s, x);
    }
  }

  /** For full solutions: a conflict is a dead end, and the new cells are entailed. */
  lemma ResolvedEntails(crc: Vec -> Vec, L: LineSystem, block: Block, known: Partial, newly: Partial, s: nat)
    requires L.Wf() && s <= |block.hashes| <= |L.members|
    ensures (forall x: Vec :: RowsRight(crc, L, block, s, x) ==> !Agrees(x, known)) ==> DeadEnd(crc, L, block, known)
    ensures (forall x: Vec :: RowsRight(crc, L, block, s, x) && Agrees(x, known) ==> Agrees(x, newly)) ==>
      FullEntails(crc, L, block, known, known + newly)
  {
    forall x: Vec | FullSolution(crc, L, block, x) ensures RowsRight(crc, L, block, s, x) {
    }
  }
}
