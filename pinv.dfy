/**
 * The library entry points built on csvd: find_pinv_from_svd, which forms
 * INV = V * S+ * U* from a decomposition, pinv, which allocates the
 * decomposition's buffers, runs csvd and then find_pinv_from_svd, and
 * matrix_mult, the accumulating product of two row-major matrices.
 *
 * Buffers keep the source's layout: U has row stride m, V row stride n, and
 * INV is written at i*n + j for row i < n and column j < m.  When m <= n or
 * n = 1 no write is replaced; when 2 <= n < m the rows of INV overlap, a later
 * row's write replaces an earlier one, and part of the n*m buffer is never
 * written.
 */
module PseudoInverse {
  import opened Common
  import opened Csvd

  /** Values at or below this cut-off are treated as zero singular values. */
  const CUTOFF: real := 0.0001

  /** The thresholded reciprocal that turns a singular value into an entry of S+. */
  function Reciprocal(x: real): (r: real)
    ensures CUTOFF < x ==> 0.0 < r && r * x == 1.0
    ensures x <= CUTOFF ==> r == 0.0
  {
    if CUTOFF < x then 1.0 / x else 0.0
  }

  /** The first loop of find_pinv_from_svd: s[i] := Reciprocal(s[i]) for i < n. */
  method TakeReciprocals(s: RealVec, n: nat)
    requires n <= |s.elems|
    modifies s
    ensures |s.elems| == |old(s.elems)| && s.elems[n..] == old(s.elems[n..])
    ensures forall i :: 0 <= i < n ==> s.elems[i] == Reciprocal(old(s.elems[i]))
  {
    for i := 0 to n
      invariant |s.elems| == |old(s.elems)| && s.elems[i..] == old(s.elems[i..])
      invariant forall q :: 0 <= q < i ==> s.elems[q] == Reciprocal(old(s.elems[q]))
    {
      if s.elems[i] > CUTOFF {
        s.elems := s.elems[i := 1.0 / s.elems[i]];
      } else {
        s.elems := s.elems[i := 0.0];
      }
    }
  }

  /** The second loop: a counter starting at n pushes a zero onto s until it reaches m. */
  method PadWithZeros(s: RealVec, n: nat, m: nat)
    modifies s
    ensures s.elems == old(s.elems) + seq(if n < m then m - n else 0, _ => 0.0)
  {
    var width := n;
    while width < m
      invariant n <= width && (n < m ==> width <= m) && (m <= n ==> width == n)
      invariant s.elems == old(s.elems) + seq(width - n, _ => 0.0)
      decreases m - width
    {
      s.Push(0.0);
      assert seq(width + 1 - n, _ => 0.0) == seq(width - n, _ => 0.0) + [0.0];
      width := width + 1;
    }
    assert width - n == (if n < m then m - n else 0);
  }

  /** Term k of entry (i, j) of V * S+ * U*: V[i][k] * s[k] * conj(U[j][k]). */
  function PinvTerm(v: seq<Complex>, s: seq<real>, u: seq<Complex>, m: nat, n: nat, i: nat, j: nat, k: nat): Complex
    requires k < |s|
  {
    Mul(Scale(At(v, Idx(i, k, n)), s[k]), Conj(At(u, Idx(j, k, m))))
  }

  /** The sum of the first K terms of entry (i, j), added in the order k = 0, 1, ... */
  function PinvSum(v: seq<Complex>, s: seq<real>, u: seq<Complex>, m: nat, n: nat, i: nat, j: nat, K: nat): Complex
    requires K <= |s|
  {
    if K == 0 then Zero else Add(PinvSum(v, s, u, m, n, i, j, K - 1), PinvTerm(v, s, u, m, n, i, j, K - 1))
  }

  /** Entry (i, j) of the pseudo-inverse: the sum over k < n, so only s[0..n] is read. */
  function PinvEntry(v: seq<Complex>, s: seq<real>, u: seq<Complex>, m: nat, n: nat, i: nat, j: nat): Complex
    requires n <= |s|
  {
    PinvSum(v, s, u, m, n, i, j, n)
  }

  /** The padding of s is never read: entries depend on s[0..K] only. */
  lemma {:induction false} PinvSumReadsLeadingValues(v: seq<Complex>, s: seq<real>, s': seq<real>, u: seq<Complex>,
                                                      m: nat, n: nat, i: nat, j: nat, K: nat)
    requires K <= |s| && K <= |s'| && s[..K] == s'[..K]
    ensures PinvSum(v, s, u, m, n, i, j, K) == PinvSum(v, s', u, m, n, i, j, K)
  {
    if K != 0 {
      assert s[..K - 1] == s[..K][..K - 1] && s'[..K - 1] == s'[..K][..K - 1];
      assert s[K - 1] == s[..K][K - 1] && s'[K - 1] == s'[..K][K - 1];
      PinvSumReadsLeadingValues(v, s, s', u, m, n, i, j, K - 1);
    }
  }

  /** Row i of INV occupies positions i*n .. i*n + m - 1. */
  ghost predicate RowCovers(p: int, i: nat, n: nat, m: nat) {
    Idx(i, 0, n) <= p < Idx(i, 0, n) + m
  }

  /** Entry (i, j) of INV keeps its value when no later row writes over its position. */
  ghost predicate Survives(i: nat, j: nat, n: nat, m: nat) {
    SurvivesUntil(i, j, n, m, n)
  }

  /** No row in i+1..r-1 writes over the position of entry (i, j). */
  ghost predicate SurvivesUntil(i: nat, j: nat, n: nat, m: nat, r: nat) {
    forall i' :: i < i' < r ==> !RowCovers(Idx(i, j, n), i', n, m)
  }

  /** Surviving rows i+1..r means surviving rows i+1..r-1 and row r itself. */
  lemma SurvivesUntilShrink(i: nat, j: nat, n: nat, m: nat, r: nat)
    requires i < r && SurvivesUntil(i, j, n, m, r + 1)
    ensures SurvivesUntil(i, j, n, m, r) && !RowCovers(Idx(i, j, n), r, n, m)
  {
  }

  /** No row writes position p. */
  ghost predicate Unwritten(p: int, n: nat, m: nat) {
    forall i :: 0 <= i < n ==> !RowCovers(p, i, n, m)
  }

  /**
   * When m <= n the rows of INV do not overlap, so every entry survives and
   * INV holds the whole pseudo-inverse with row stride n.
   */
  lemma NarrowEntriesSurvive(n: nat, m: nat, i: nat, j: nat)
    requires m <= n && i < n && j < m
    ensures Survives(i, j, n, m)
  {
    forall i' | i < i' < n
      ensures !RowCovers(Idx(i, j, n), i', n, m)
    {
      IdxRowBefore(i, j, i', n);
    }
  }

  /**
   * With a single row (n = 1) nothing overlaps either: every entry survives
   * and every one of the m positions of INV is written.
   */
  lemma SingleRowWhole(m: nat)
    ensures forall j :: 0 <= j < m ==> Survives(0, j, 1, m)
    ensures forall p :: 0 <= p < m ==> !Unwritten(p, 1, m)
  {
    forall p | 0 <= p < m
      ensures !Unwritten(p, 1, m)
    {
      assert RowCovers(p, 0, 1, m);
    }
  }

  /**
   * When 2 <= n < m the rows overlap: entry (0, n) of the pseudo-inverse is
   * written at the position of entry (1, 0), which is written later and
   * replaces it; and position (n-1)*n + m, inside the n*m entries INV has,
   * is written by no row.
   */
  lemma WideEntriesCollide(n: nat, m: nat)
    requires 2 <= n < m
    ensures Idx(0, n, n) == Idx(1, 0, n) && !Survives(0, n, n, m)
    ensures Idx(n - 1, 0, n) + m < n * m && Unwritten(Idx(n - 1, 0, n) + m, n, m)
  {
    assert RowCovers(Idx(0, n, n), 1, n, m);
    IdxIsProduct(n - 1, 0, n);
    assert n * m == (n - 1) * n + n + (m - n) * (n - 1) + (m - n);
    MulMonotone(1, m - n, n - 1);
    var p := Idx(n - 1, 0, n) + m;
    forall i | 0 <= i < n
      ensures !RowCovers(p, i, n, m)
    {
      if i < n - 1 {
        IdxRowBefore(i, 0, n - 1, n);
      }
    }
  }

  /**
   * The innermost loop: INV[p] is cleared, then term k of entry (i, j) is
   * added for k = 0 .. n-1.
   */
  method AccumulateEntry(inv: array<Complex>, p: nat, s: RealVec, u: array<Complex>, v: array<Complex>,
                         m: nat, n: nat, i: nat, j: nat)
    requires p < inv.Length && inv != u && inv != v
    requires i < n && j < m && n <= |s.elems|
    requires Fits(v.Length, n, n, n) && Fits(u.Length, m, m, n)
    modifies inv
    ensures inv[p] == PinvEntry(v[..], s.elems, u[..], m, n, i, j)
    ensures forall q :: 0 <= q < inv.Length && q != p ==> inv[q] == old(inv[q])
  {
    inv[p] := Zero;
    for k := 0 to n
      invariant inv[p] == PinvSum(v[..], s.elems, u[..], m, n, i, j, k)
      invariant forall q :: 0 <= q < inv.Length && q != p ==> inv[q] == old(inv[q])
    {
      assert v[Idx(i, k, n)] == At(v[..], Idx(i, k, n)) && u[Idx(j, k, m)] == At(u[..], Idx(j, k, m));
      inv[p] := Add(inv[p], Mul(Scale(v[Idx(i, k, n)], s.elems[k]), Conj(u[Idx(j, k, m)])));
    }
  }

  /**
   * One pass of the middle loop: row r of INV, at positions r*n .. r*n + m - 1,
   * receives entries (r, 0) .. (r, m-1) of V * S+ * U*.
   */
  method FillRow(s: RealVec, u: array<Complex>, v: array<Complex>, m: nat, n: nat, inv: array<Complex>, r: nat)
    requires n <= |s.elems| && inv != u && inv != v && r < n
    requires Fits(v.Length, n, n, n) && Fits(u.Length, m, m, n) && Fits(inv.Length, n, n, m)
    modifies inv
    ensures forall j :: 0 <= j < m ==> inv[Idx(r, j, n)] == PinvEntry(v[..], s.elems, u[..], m, n, r, j)
    ensures forall p :: 0 <= p < inv.Length && !RowCovers(p, r, n, m) ==> inv[p] == old(inv[p])
  {
    for c := 0 to m
      invariant forall j :: 0 <= j < c ==> inv[Idx(r, j, n)] == PinvEntry(v[..], s.elems, u[..], m, n, r, j)
      invariant forall p :: 0 <= p < inv.Length && !(Idx(r, 0, n) <= p < Idx(r, 0, n) + c) ==> inv[p] == old(inv[p])
    {
      forall j | 0 <= j <= c
        ensures Idx(r, j, n) == Idx(r, 0, n) + j
      {
        IdxShift(r, j, n);
      }
      AccumulateEntry(inv, Idx(r, c, n), s, u, v, m, n, r, c);
    }
  }

  /**
   * After rows 0..r of the triple loop: every entry (i, j) with i < r that no
   * row in i+1..r-1 has written over holds entry (i, j) of V * S+ * U*.
   */
  ghost predicate RowsFilled(buf: seq<Complex>, vs: seq<Complex>, ss: seq<real>, us: seq<Complex>, m: nat, n: nat, r: nat)
    requires n <= |ss|
  {
    forall i, j :: 0 <= i < r && 0 <= j < m && SurvivesUntil(i, j, n, m, r) ==>
      At(buf, Idx(i, j, n)) == PinvEntry(vs, ss, us, m, n, i, j)
  }

  /** After rows 0..r of the triple loop: positions none of them covers are as in orig. */
  ghost predicate RowsUntouched(buf: seq<Complex>, orig: seq<Complex>, n: nat, m: nat, r: nat) {
    && |buf| == |orig|
    && forall p :: 0 <= p < |buf| && (forall i :: 0 <= i < r ==> !RowCovers(p, i, n, m)) ==> buf[p] == orig[p]
  }

  /** Writing row r over a buffer filled through row r-1 leaves it filled through row r. */
  lemma RowStep(before: seq<Complex>, after: seq<Complex>, orig: seq<Complex>,
                vs: seq<Complex>, ss: seq<real>, us: seq<Complex>, m: nat, n: nat, r: nat)
    requires n <= |ss| && |after| == |before|
    requires RowsFilled(before, vs, ss, us, m, n, r) && RowsUntouched(before, orig, n, m, r)
    requires forall j :: 0 <= j < m ==> At(after, Idx(r, j, n)) == PinvEntry(vs, ss, us, m, n, r, j)
    requires forall p :: 0 <= p < |after| && !RowCovers(p, r, n, m) ==> after[p] == before[p]
    ensures RowsFilled(after, vs, ss, us, m, n, r + 1) && RowsUntouched(after, orig, n, m, r + 1)
  {
    forall i, j | 0 <= i < r + 1 && 0 <= j < m && SurvivesUntil(i, j, n, m, r + 1)
      ensures At(after, Idx(i, j, n)) == PinvEntry(vs, ss, us, m, n, i, j)
    {
      if i < r {
        SurvivesUntilShrink(i, j, n, m, r);
        assert At(after, Idx(i, j, n)) == At(before, Idx(i, j, n));
      }
    }
  }

  /**
   * The triple loop of find_pinv_from_svd: for i < n and j < m in loop order,
   * INV[i*n + j] receives entry (i, j).  An entry that no later row
   * overwrites keeps it; positions no row covers keep their old values.
   */
  method FillInverse(s: RealVec, u: array<Complex>, v: array<Complex>, m: nat, n: nat, inv: array<Complex>)
    requires n <= |s.elems| && inv != u && inv != v
    requires Fits(v.Length, n, n, n) && Fits(u.Length, m, m, n) && Fits(inv.Length, n, n, m)
    modifies inv
    ensures forall i, j :: 0 <= i < n && 0 <= j < m && Survives(i, j, n, m) ==>
      inv[Idx(i, j, n)] == PinvEntry(v[..], s.elems, u[..], m, n, i, j)
    ensures forall p :: 0 <= p < inv.Length && Unwritten(p, n, m) ==> inv[p] == old(inv[p])
  {
    ghost var vs, ss, us, orig := v[..], s.elems, u[..], inv[..];
    for r := 0 to n
      invariant RowsFilled(inv[..], vs, ss, us, m, n, r) && RowsUntouched(inv[..], orig, n, m, r)
    {
      ghost var before := inv[..];
      FillRow(s, u, v, m, n, inv, r);
      assert v[..] == vs && u[..] == us && s.elems == ss;
      RowStep(before, inv[..], orig, vs, ss, us, m, n, r);
    }
    assert RowsFilled(inv[..], vs, ss, us, m, n, n);
  }

  /**
   * find_pinv_from_svd: replaces s[0..n] by their thresholded reciprocals
   * (the diagonal of S+), pads s with zeros up to length m, and fills INV
   * with V * S+ * U* in the source's layout.
   */
  method FindPinvFromSvd(s: RealVec, u: array<Complex>, v: array<Complex>, m: nat, n: nat, inv: array<Complex>)
    requires n <= |s.elems| && inv != u && inv != v
    requires Fits(v.Length, n, n, n) && Fits(u.Length, m, m, n) && Fits(inv.Length, n, n, m)
    modifies s, inv
    ensures |s.elems| == |old(s.elems)| + (if n < m then m - n else 0)
    ensures forall i :: 0 <= i < n ==> s.elems[i] == Reciprocal(old(s.elems[i]))
    ensures s.elems[n..] == old(s.elems[n..]) + seq(if n < m then m - n else 0, _ => 0.0)
    ensures forall i, j :: 0 <= i < n && 0 <= j < m && Survives(i, j, n, m) ==>
      inv[Idx(i, j, n)] == PinvEntry(v[..], s.elems, u[..], m, n, i, j)
    ensures forall p :: 0 <= p < inv.Length && Unwritten(p, n, m) ==> inv[p] == old(inv[p])
  {
    TakeReciprocals(s, n);
    ghost var reciprocals := s.elems;
    PadWithZeros(s, n, m);
    assert s.elems[..n] == reciprocals[..n];
    assert s.elems[n..] == reciprocals[n..] + seq(if n < m then m - n else 0, _ => 0.0);
    FillInverse(s, u, v, m, n, inv);
  }

  /**
   * pinv: allocates s (n zeros), U (m*m zeros) and V (n*n zeros), runs csvd
   * with nu = m and nv = n, passes any error on before INV is touched, and
   * otherwise runs find_pinv_from_svd.  The decomposition's numerical results
   * come in as colNorms, rowNorms and converged (see Csvd.Csvd).  The ghost
   * results are the singular values sigma csvd leaves in s, the diagonal sPlus
   * of S+, and the final U and V.
   */
  method Pinv(m: nat, n: nat, inverse: array<Complex>, colNorms: seq<real>, rowNorms: seq<real>, converged: seq<real>)
    returns (r: Outcome<DimensionError>, ghost sigma: seq<real>, ghost sPlus: seq<real>,
             ghost uf: seq<Complex>, ghost vf: seq<Complex>)
    requires |colNorms| == n && |converged| == n && |rowNorms| == (if n == 0 then 0 else n - 1)
    requires CheckDimensions(m, n).Pass? ==> (n - 1) * n + m <= inverse.Length
    modifies inverse
    ensures r == CheckDimensions(m, n)
    ensures r.Fail? ==> inverse[..] == old(inverse[..])
    ensures r.Pass? ==> |sigma| == n && Descending(sigma) && multiset(sigma) == multiset(Magnitudes(converged))
    ensures r.Pass? ==> |uf| == m * m && |vf| == n * n
    ensures r.Pass? ==>
      && |sPlus| == m
      && (forall i :: 0 <= i < n ==> sPlus[i] == Reciprocal(sigma[i]))
      && (forall i :: n <= i < m ==> sPlus[i] == 0.0)
    ensures r.Pass? ==> forall i, j :: 0 <= i < n && 0 <= j < m && Survives(i, j, n, m) ==>
      Idx(i, j, n) < inverse.Length && inverse[Idx(i, j, n)] == PinvEntry(vf, sPlus, uf, m, n, i, j)
    ensures r.Pass? && (m == n || n == 1) ==> forall i, j :: 0 <= i < n && 0 <= j < m ==>
      Idx(i, j, n) < inverse.Length && inverse[Idx(i, j, n)] == PinvEntry(vf, sPlus, uf, m, n, i, j)
    ensures r.Pass? ==> forall p :: 0 <= p < inverse.Length && Unwritten(p, n, m) ==> inverse[p] == old(inverse[p])
  {
    var s := new RealVec();
    for k := 0 to n
      modifies s
      invariant s.elems == seq(k, _ => 0.0)
    {
      s.Push(0.0);
    }
    var u := new Complex[m * m](_ => Zero);
    var v := new Complex[n * n](_ => Zero);
    SquareFits(u.Length, m, m, m);
    SquareFits(v.Length, n, n, n);
    if n <= m {
      SquareFits(u.Length, m, n, n);
    }
    ghost var eps: real;
    ghost var t0: seq<real>;
    sigma, sPlus, uf, vf := [], [], [], [];
    r, eps, t0 := Csvd.Csvd(m, n, m, n, s, u, v, colNorms, rowNorms, converged);
    if r.Fail? {
      return;
    }
    sigma := s.elems;
    assert sigma == s.elems[..n];
    SquareFits(u.Length, m, m, n);
    FitsBySize(inverse.Length, n, n, m);
    FindPinvFromSvd(s, u, v, m, n, inverse);
    sPlus, uf, vf := s.elems, u[..], v[..];
    forall i, j | 0 <= i < n && 0 <= j < m
      ensures Idx(i, j, n) < inverse.Length
    {
    }
    if m == n {
      forall i, j | 0 <= i < n && 0 <= j < n
        ensures Survives(i, j, n, m)
      {
        NarrowEntriesSurvive(n, m, i, j);
      }
    } else if n == 1 {
      SingleRowWhole(m);
    }
  }

  /** The text matrix_mult returns when the inner dimensions differ. */
  const IncompatibleMessage: string := "Matrix dimension not compatible!"

  /** The first K terms of entry (i, j) of A * B, added in the order k = 0, 1, ... */
  function RowColSum(a: seq<Complex>, b: seq<Complex>, aCols: nat, bCols: nat, i: nat, j: nat, K: nat): Complex {
    if K == 0 then Zero
    else Add(RowColSum(a, b, aCols, bCols, i, j, K - 1), Mul(At(a, Idx(i, K - 1, aCols)), At(b, Idx(K - 1, j, bCols))))
  }

  /** Multiplying by the identity: entry (i, j) of A * I is A[i][j]. */
  lemma {:induction false} RowColSumIdentity(a: seq<Complex>, b: seq<Complex>, n: nat, i: nat, j: nat, K: nat)
    requires j < n && K <= n
    requires forall r, c :: 0 <= r < n && 0 <= c < n ==> At(b, Idx(r, c, n)) == (if r == c then One else Zero)
    ensures RowColSum(a, b, n, n, i, j, K) == (if j < K then At(a, Idx(i, j, n)) else Zero)
  {
    if K != 0 {
      RowColSumIdentity(a, b, n, i, j, K - 1);
      assert At(b, Idx(K - 1, j, n)) == (if K - 1 == j then One else Zero);
    }
  }

  /** The innermost loop of matrix_mult: C[p] += A[i][k] * B[k][j] for k < aCols. */
  method AccumulateProduct(c: array<Complex>, p: nat, a: array<Complex>, b: array<Complex>,
                           aRows: nat, aCols: nat, bCols: nat, i: nat, j: nat)
    requires p < c.Length && c != a && c != b && i < aRows && j < bCols
    requires Fits(a.Length, aCols, aRows, aCols) && Fits(b.Length, bCols, aCols, bCols)
    modifies c
    ensures c[p] == Add(old(c[p]), RowColSum(a[..], b[..], aCols, bCols, i, j, aCols))
    ensures forall q :: 0 <= q < c.Length && q != p ==> c[q] == old(c[q])
  {
    for k := 0 to aCols
      invariant c[p] == Add(old(c[p]), RowColSum(a[..], b[..], aCols, bCols, i, j, k))
      invariant forall q :: 0 <= q < c.Length && q != p ==> c[q] == old(c[q])
    {
      assert a[Idx(i, k, aCols)] == At(a[..], Idx(i, k, aCols)) && b[Idx(k, j, bCols)] == At(b[..], Idx(k, j, bCols));
      c[p] := Add(c[p], Mul(a[Idx(i, k, aCols)], b[Idx(k, j, bCols)]));
    }
  }

  /** Entry (i, j) of cs is entry (i, j) of c0 plus the full row-column sum of A * B. */
  ghost predicate Accumulated(cs: seq<Complex>, c0: seq<Complex>, aa: seq<Complex>, bb: seq<Complex>,
                              aCols: nat, bCols: nat, i: nat, j: nat) {
    At(cs, Idx(i, j, bCols)) == Add(At(c0, Idx(i, j, bCols)), RowColSum(aa, bb, aCols, bCols, i, j, aCols))
  }

  /** Accumulating row i into a buffer that holds rows 0..i-1 gives rows 0..i. */
  lemma MultStep(before: seq<Complex>, after: seq<Complex>, c0: seq<Complex>, aa: seq<Complex>, bb: seq<Complex>,
                 aCols: nat, bCols: nat, i: nat)
    requires |before| == |after| == |c0|
    requires forall i', j :: 0 <= i' < i && 0 <= j < bCols ==> Accumulated(before, c0, aa, bb, aCols, bCols, i', j)
    requires forall p :: Idx(i, 0, bCols) <= p < |before| ==> before[p] == c0[p]
    requires forall j :: 0 <= j < bCols ==>
      && Idx(i, j, bCols) < |after|
      && after[Idx(i, j, bCols)] == Add(before[Idx(i, j, bCols)], RowColSum(aa, bb, aCols, bCols, i, j, aCols))
    requires forall p :: 0 <= p < |after| && !(Idx(i, 0, bCols) <= p < Idx(i, 0, bCols) + bCols) ==> after[p] == before[p]
    ensures forall i', j :: 0 <= i' < i + 1 && 0 <= j < bCols ==> Accumulated(after, c0, aa, bb, aCols, bCols, i', j)
    ensures forall p :: Idx(i + 1, 0, bCols) <= p < |after| ==> after[p] == c0[p]
  {
    forall i', j | 0 <= i' < i + 1 && 0 <= j < bCols
      ensures Accumulated(after, c0, aa, bb, aCols, bCols, i', j)
    {
      if i' < i {
        IdxRowBefore(i', j, i, bCols);
        assert At(after, Idx(i', j, bCols)) == At(before, Idx(i', j, bCols));
        assert Accumulated(before, c0, aa, bb, aCols, bCols, i', j);
      } else {
        IdxShift(i, j, bCols);
        assert before[Idx(i, j, bCols)] == c0[Idx(i, j, bCols)];
      }
    }
  }

  /** The two inner loops of matrix_mult for one row i of C, at positions i*bCols .. i*bCols + bCols - 1. */
  method MultRow(a: array<Complex>, b: array<Complex>, c: array<Complex>, aRows: nat, aCols: nat, bCols: nat, i: nat)
    requires c != a && c != b && i < aRows
    requires Fits(a.Length, aCols, aRows, aCols) && Fits(b.Length, bCols, aCols, bCols) && Fits(c.Length, bCols, aRows, bCols)
    modifies c
    ensures forall j :: 0 <= j < bCols ==>
      c[Idx(i, j, bCols)] == Add(old(c[Idx(i, j, bCols)]), RowColSum(a[..], b[..], aCols, bCols, i, j, aCols))
    ensures forall p :: 0 <= p < c.Length && !(Idx(i, 0, bCols) <= p < Idx(i, 0, bCols) + bCols) ==> c[p] == old(c[p])
  {
    for j := 0 to bCols
      invariant forall j' :: 0 <= j' < j ==>
        c[Idx(i, j', bCols)] == Add(old(c[Idx(i, j', bCols)]), RowColSum(a[..], b[..], aCols, bCols, i, j', aCols))
      invariant forall p :: 0 <= p < c.Length && !(Idx(i, 0, bCols) <= p < Idx(i, 0, bCols) + j) ==> c[p] == old(c[p])
    {
      forall j' | 0 <= j' <= j
        ensures Idx(i, j', bCols) == Idx(i, 0, bCols) + j'
      {
        IdxShift(i, j', bCols);
      }
      AccumulateProduct(c, Idx(i, j, bCols), a, b, aRows, aCols, bCols, i, j);
    }
  }

  /**
   * matrix_mult: C[i][j] += sum_k A[i][k] * B[k][j] over an aRows x bCols
   * block, all three row-major.  The buffers must hold aRows*aCols,
   * bRows*bCols and aRows*bCols entries (the source slices them before any
   * check and panics otherwise).  When aCols != bRows it fails with
   * IncompatibleMessage and leaves C alone.  The product is added to what C
   * already holds; entries from aRows*bCols on are never touched.
   */
  method MatrixMult(a: array<Complex>, aRows: nat, aCols: nat, b: array<Complex>, bRows: nat, bCols: nat,
                    c: array<Complex>)
    returns (r: Outcome<string>)
    requires aRows * aCols <= a.Length && bRows * bCols <= b.Length && aRows * bCols <= c.Length
    requires c != a && c != b
    modifies c
    ensures r.Fail? <==> aCols != bRows
    ensures r.Fail? ==> r.error == IncompatibleMessage && c[..] == old(c[..])
    ensures r.Pass? ==> forall i, j :: 0 <= i < aRows && 0 <= j < bCols ==>
      Idx(i, j, bCols) < c.Length &&
      c[Idx(i, j, bCols)] == Add(old(c[Idx(i, j, bCols)]), RowColSum(a[..], b[..], aCols, bCols, i, j, aCols))
    ensures forall p :: aRows * bCols <= p < c.Length ==> c[p] == old(c[p])
  {
    if aCols != bRows {
      return Fail(IncompatibleMessage);
    }
    ProductFits(a.Length, aRows, aCols);
    ProductFits(b.Length, bRows, bCols);
    ProductFits(c.Length, aRows, bCols);
    ghost var c0, as0, bs0 := c[..], a[..], b[..];
    for i := 0 to aRows
      invariant forall i', j :: 0 <= i' < i && 0 <= j < bCols ==> Accumulated(c[..], c0, as0, bs0, aCols, bCols, i', j)
      invariant forall p :: Idx(i, 0, bCols) <= p < c.Length ==> c[p] == c0[p]
    {
      ghost var before := c[..];
      MultRow(a, b, c, aRows, aCols, bCols, i);
      assert a[..] == as0 && b[..] == bs0;
      assert forall j :: 0 <= j < bCols ==> Idx(i, j, bCols) < c.Length;
      MultStep(before, c[..], c0, as0, bs0, aCols, bCols, i);
    }
    assert a[..] == as0 && b[..] == bs0;
    IdxIsProduct(aRows, 0, bCols);
    forall i, j | 0 <= i < aRows && 0 <= j < bCols
      ensures Idx(i, j, bCols) < c.Length
      ensures c[Idx(i, j, bCols)] == Add(c0[Idx(i, j, bCols)], RowColSum(as0, bs0, aCols, bCols, i, j, aCols))
    {
      assert Accumulated(c[..], c0, as0, bs0, aCols, bCols, i, j);
    }
    r := Pass;
  }
}
