/**
 * The index and control logic of csvd, the complex singular value
 * decomposition of Businger and Golub (ACM Algorithm 358): argument
 * validation, the identity start of U and V, the negligibility threshold,
 * the split-point scan, the sign normalisation of a converged value and the
 * descending selection sort that carries the columns of U and V with their
 * values.  Entries are reals and complex numbers over the reals; the
 * floating-point phases (Householder reduction, QR sweeps, back
 * transformation) are not computed here.
 *
 * Buffers are flat and row-major, as in the source: A and U have row stride
 * m, V has row stride n.
 */
module Csvd {
  import opened Common

  /** Capacity of the work arrays b, c and t: the largest n accepted. */
  const NBIG: nat := 150

  /** Relative precision of f32 (1.1920929e-7), the factor of the threshold eps. */
  const ETA: real := 0.00000011920929

  /** The four rejections of csvd's argument check, in the order they are tested. */
  datatype DimensionError = NBelowOne | NAboveCapacity | MBelowOne | MBelowN

  /** The error text the source returns for each rejection. */
  function Message(e: DimensionError): string {
    match e
    case NBelowOne => "Fatal Error = Input N < 1"
    case NAboveCapacity => "Fatal Error: NBIG < N"
    case MBelowOne => "Fatal Error: Input M < 1"
    case MBelowN => "Fatal Error: M < N"
  }

  /** The four error texts differ, so the text csvd returns names the rejection. */
  lemma MessageIdentifiesError(e1: DimensionError, e2: DimensionError)
    ensures Message(e1) == Message(e2) <==> e1 == e2
  {
    if e1 != e2 {
      assert Message(e1)[13] != Message(e2)[13] || |Message(e1)| != |Message(e2)|;
    }
  }

  /**
   * The argument check that opens csvd: n is tested before m, and each test
   * reports the first condition that fails.
   */
  function CheckDimensions(m: nat, n: nat): (r: Outcome<DimensionError>)
    ensures r.Pass? <==> 1 <= n <= NBIG && 1 <= m && n <= m
    ensures r == Fail(NBelowOne) <==> n < 1
    ensures r == Fail(NAboveCapacity) <==> 1 <= n && NBIG < n
    ensures r == Fail(MBelowOne) <==> 1 <= n <= NBIG && m < 1
    ensures r == Fail(MBelowN) <==> 1 <= n <= NBIG && 1 <= m && m < n
  {
    if n < 1 then Fail(NBelowOne)
    else if NBIG < n then Fail(NAboveCapacity)
    else if m < 1 then Fail(MBelowOne)
    else if m < n then Fail(MBelowN)
    else Pass
  }

  /** The first cols columns of the dim-by-dim matrix in buf, with row stride dim, are those of the identity. */
  ghost predicate IdentityColumns(buf: seq<Complex>, dim: nat, cols: nat) {
    forall i, c :: 0 <= i < dim && 0 <= c < cols ==> At(buf, Idx(i, c, dim)) == (if i == c then One else Zero)
  }

  /** Outside the first cols columns (rows 0..dim), buf agrees with orig. */
  ghost predicate KeptOutsideColumns(buf: seq<Complex>, orig: seq<Complex>, dim: nat, cols: nat) {
    && |buf| == |orig|
    && forall p :: 0 <= p < |buf| && !InBlock(p, dim, dim, cols) ==> buf[p] == orig[p]
  }

  /** The inner loop of the initialisation: rows 0..dim of column j become zero, nothing else changes. */
  method ClearColumn(buf: array<Complex>, dim: nat, j: nat)
    requires j < dim && Fits(buf.Length, dim, dim, j + 1)
    modifies buf
    ensures forall r :: 0 <= r < dim ==> buf[Idx(r, j, dim)] == Zero
    ensures forall p :: 0 <= p < buf.Length && !InColumn(p, dim, dim, j) ==> buf[p] == old(buf[p])
  {
    for i := 0 to dim
      modifies buf
      invariant forall r :: 0 <= r < i ==> buf[Idx(r, j, dim)] == Zero
      invariant forall p :: 0 <= p < buf.Length && !InColumn(p, dim, i, j) ==> buf[p] == old(buf[p])
    {
      forall r | 0 <= r < i
        ensures Idx(r, j, dim) != Idx(i, j, dim)
      {
        IdxDistinct(r, j, i, j, dim);
      }
      forall p | 0 <= p < buf.Length
        ensures InColumn(p, dim, i + 1, j) <==> InColumn(p, dim, i, j) || p == Idx(i, j, dim)
      {
        InColumnGrow(p, dim, i, j);
      }
      buf[Idx(i, j, dim)] := Zero;
    }
  }

  /** Clearing column j and then setting its diagonal entry extends the identity by one column. */
  lemma IdentityColumnStep(before: seq<Complex>, cleared: seq<Complex>, orig: seq<Complex>, dim: nat, j: nat)
    requires j < dim && Idx(j, j, dim) < |cleared| && |cleared| == |before|
    requires IdentityColumns(before, dim, j) && KeptOutsideColumns(before, orig, dim, j)
    requires forall r :: 0 <= r < dim ==> At(cleared, Idx(r, j, dim)) == Zero
    requires forall p :: 0 <= p < |cleared| && !InColumn(p, dim, dim, j) ==> cleared[p] == before[p]
    ensures var after := cleared[Idx(j, j, dim) := One];
      IdentityColumns(after, dim, j + 1) && KeptOutsideColumns(after, orig, dim, j + 1)
  {
    var after := cleared[Idx(j, j, dim) := One];
    forall i, c | 0 <= i < dim && 0 <= c < j + 1
      ensures At(after, Idx(i, c, dim)) == (if i == c then One else Zero)
    {
      if (i, c) != (j, j) {
        IdxDistinct(i, c, j, j, dim);
      }
      if c < j {
        NotInOtherColumn(i, c, j, dim);
        assert At(cleared, Idx(i, c, dim)) == At(before, Idx(i, c, dim));
      }
    }
    assert InColumn(Idx(j, j, dim), dim, dim, j);
    forall p | 0 <= p < |after| && !InBlock(p, dim, dim, j + 1)
      ensures after[p] == orig[p]
    {
      InBlockGrow(p, dim, dim, j);
    }
  }

  /** An entry of column c < stride is not in another column below the stride. */
  lemma NotInOtherColumn(i: nat, c: nat, j: nat, stride: nat)
    requires c < stride && j < stride && c != j
    ensures !InColumn(Idx(i, c, stride), stride, stride, j)
  {
    forall r | 0 <= r < stride
      ensures Idx(i, c, stride) != Idx(r, j, stride)
    {
      IdxDistinct(i, c, r, j, stride);
    }
  }

  /**
   * Makes the first `cols` columns of the dim-by-dim matrix held in `buf`
   * with row stride dim those of the identity; nothing is done when cols is 0.
   * csvd does this for U with (m, nu) and for V with (n, nv).
   */
  method InitIdentity(buf: array<Complex>, dim: nat, cols: nat)
    requires cols <= dim
    requires 0 < cols ==> Fits(buf.Length, dim, dim, cols)
    modifies buf
    ensures forall i, j :: 0 <= i < dim && 0 <= j < cols ==>
      buf[Idx(i, j, dim)] == (if i == j then One else Zero)
    ensures forall p :: 0 <= p < buf.Length && !InBlock(p, dim, dim, cols) ==> buf[p] == old(buf[p])
  {
    ghost var orig := buf[..];
    if 0 < cols {
      for j := 0 to cols
        modifies buf
        invariant IdentityColumns(buf[..], dim, j) && KeptOutsideColumns(buf[..], orig, dim, j)
      {
        ghost var before := buf[..];
        ClearColumn(buf, dim, j);
        assert forall r :: 0 <= r < dim ==> At(buf[..], Idx(r, j, dim)) == buf[Idx(r, j, dim)];
        IdentityColumnStep(before, buf[..], orig, dim, j);
        buf[Idx(j, j, dim)] := One;
      }
      forall i, j | 0 <= i < dim && 0 <= j < cols
        ensures buf[Idx(i, j, dim)] == (if i == j then One else Zero)
      {
        assert At(buf[..], Idx(i, j, dim)) == (if i == j then One else Zero);
      }
    }
  }

  function Max(x: real, y: real): real {
    if x < y then y else x
  }

  /**
   * max(0, b[0] + c[0], ..., b[k] + c[k]), folded left to right as the
   * source folds f32::max from 0.
   */
  function LargestSum(b: seq<real>, c: seq<real>): real
    requires |b| == |c|
  {
    if |b| == 0 then 0.0
    else Max(LargestSum(b[..|b| - 1], c[..|c| - 1]), b[|b| - 1] + c[|c| - 1])
  }

  /** LargestSum is the maximum of 0 and the sums b[k] + c[k]. */
  lemma {:induction false} LargestSumIsMaximum(b: seq<real>, c: seq<real>)
    requires |b| == |c|
    ensures 0.0 <= LargestSum(b, c)
    ensures forall k :: 0 <= k < |b| ==> b[k] + c[k] <= LargestSum(b, c)
    ensures LargestSum(b, c) == 0.0 || exists k :: 0 <= k < |b| && LargestSum(b, c) == b[k] + c[k]
  {
    if |b| != 0 {
      var b', c' := b[..|b| - 1], c[..|c| - 1];
      LargestSumIsMaximum(b', c');
      assert forall k :: 0 <= k < |b'| ==> b'[k] == b[k] && c'[k] == c[k];
    }
  }

  /**
   * Copies the diagonal b into s and the super-diagonal c into t for k < n,
   * and returns the threshold eps = ETA * max(0, max_k (s[k] + t[k])).
   */
  method SetupThreshold(b: array<real>, c: array<real>, s: RealVec, t: array<real>, n: nat)
    returns (eps: real)
    requires n <= b.Length && n <= c.Length && n <= t.Length && n <= |s.elems|
    requires t != b && t != c
    modifies s, t
    ensures |s.elems| == |old(s.elems)| && s.elems[..n] == b[..n] && s.elems[n..] == old(s.elems[n..])
    ensures t[..n] == c[..n] && t[n..] == old(t[n..])
    ensures eps == ETA * LargestSum(b[..n], c[..n])
  {
    ghost var s0, t0 := s.elems, t[..];
    eps := 0.0;
    for k := 0 to n
      modifies s, t
      invariant |s.elems| == |s0|
      invariant forall i :: 0 <= i < |s0| ==> s.elems[i] == if i < k then b[i] else s0[i]
      invariant forall i :: 0 <= i < t.Length ==> t[i] == if i < k then c[i] else t0[i]
      invariant eps == LargestSum(b[..k], c[..k])
    {
      s.elems := s.elems[k := b[k]];
      t[k] := c[k];
      eps := Max(eps, s.elems[k] + t[k]);
      assert b[..k + 1][..k] == b[..k] && c[..k + 1][..k] == c[..k];
    }
    assert s.elems[..n] == b[..n] && s.elems[n..] == s0[n..];
    assert t[..n] == c[..n] && t[n..] == t0[n..];
    eps := eps * ETA;
  }

  /** The threshold is never negative, so an entry that is exactly 0 is always negligible. */
  lemma ThresholdNonNegative(b: seq<real>, c: seq<real>)
    requires |b| == |c|
    ensures 0.0 <= ETA * LargestSum(b, c)
  {
    LargestSumIsMaximum(b, c);
  }

  /**
   * The split test: scanning l = k, k-1, ..., 0, the first l with t[l]
   * negligible or s[l-1] negligible (tested in that order).  t[0] being
   * negligible stops the scan at 0 at the latest, so s[l-1] is never read
   * with l = 0.
   */
  function SplitPoint(s: seq<real>, t: seq<real>, eps: real, k: nat): (l: nat)
    requires k < |s| && k < |t|
    requires Abs(t[0]) <= eps
    ensures l <= k
    ensures Abs(t[l]) <= eps || (0 < l && Abs(s[l - 1]) <= eps)
    ensures forall i :: l < i <= k ==> eps < Abs(t[i]) && eps < Abs(s[i - 1])
    decreases k
  {
    if Abs(t[k]) <= eps then k
    else if Abs(s[k - 1]) <= eps then k
    else SplitPoint(s, t, eps, k - 1)
  }

  /**
   * The stores of one origin-shift QR step into the super-diagonal t: for
   * i = l+1..k it stores a rotation norm in t[i-1], then clears t[l] and
   * stores f in t[k].  The rotation norms and f are floating-point results
   * and are given.
   */
  method QrStepStoresT(t: array<real>, l: nat, k: nat, norms: seq<real>, f: real)
    requires l < k < t.Length && |norms| == k - l
    modifies t
    ensures t[l] == 0.0 && t[k] == f
    ensures forall i :: l < i < k ==> t[i] == norms[i - l]
    ensures forall i :: 0 <= i < t.Length && (i < l || k < i) ==> t[i] == old(t[i])
    ensures old(t[0]) == 0.0 ==> t[0] == 0.0
  {
    for i := l + 1 to k + 1
      modifies t
      invariant forall q :: l <= q < i - 1 ==> t[q] == norms[q - l]
      invariant forall q :: 0 <= q < t.Length && (q < l || i - 1 <= q) ==> t[q] == old(t[q])
    {
      t[i - 1] := norms[i - 1 - l];
    }
    t[l] := 0.0;
    t[k] := f;
  }

  /**
   * Sign normalisation once index k has converged to w = s[k]: when w < 0,
   * s[k] becomes -w and, if V is computed, rows 0..n of column k of V are
   * negated.
   */
  method NormalizeSign(s: RealVec, v: array<Complex>, n: nat, nv: nat, k: nat)
    requires k < n <= |s.elems|
    requires 0 < nv ==> Fits(v.Length, n, n, k + 1)
    modifies s, v
    ensures s.elems == old(s.elems)[k := Abs(old(s.elems[k]))]
    ensures 0.0 <= s.elems[k]
    ensures old(s.elems[k]) < 0.0 && 0 < nv ==>
      forall j :: 0 <= j < n ==> v[Idx(j, k, n)] == Neg(old(v[Idx(j, k, n)]))
    ensures forall p :: 0 <= p < v.Length && !(old(s.elems[k]) < 0.0 && 0 < nv && InColumn(p, n, n, k)) ==>
      v[p] == old(v[p])
  {
    var w := s.elems[k];
    if w < 0.0 {
      s.elems := s.elems[k := -w];
      if 0 < nv {
        for j := 0 to n
          modifies v
          invariant forall r :: 0 <= r < j ==> v[Idx(r, k, n)] == Neg(old(v[Idx(r, k, n)]))
          invariant forall p :: 0 <= p < v.Length && !InColumn(p, n, j, k) ==> v[p] == old(v[p])
        {
          forall r | 0 <= r < j
            ensures Idx(r, k, n) != Idx(j, k, n)
          {
            IdxDistinct(r, k, j, k, n);
          }
          v[Idx(j, k, n)] := Neg(v[Idx(j, k, n)]);
        }
      }
    }
  }

  /**
   * j is the pivot of pass k: the first index of the maximum of xs[k..n]
   * when some value there exceeds -1, and k when none does.
   */
  ghost predicate IsPivot(xs: seq<real>, k: nat, n: nat, j: nat)
    requires k < n <= |xs|
  {
    && k <= j < n
    && if forall i :: k <= i < n ==> xs[i] <= -1.0 then j == k
       else (forall i :: k <= i < n ==> xs[i] <= xs[j]) && (forall i :: k <= i < j ==> xs[i] < xs[j])
  }

  /** A pass has only one pivot. */
  lemma PivotUnique(xs: seq<real>, k: nat, n: nat, j1: nat, j2: nat)
    requires k < n <= |xs|
    requires IsPivot(xs, k, n, j1) && IsPivot(xs, k, n, j2)
    ensures j1 == j2
  {
  }

  /**
   * The pivot of pass k, computed from the right: the pivot of xs[k+1..n]
   * is replaced by k when xs[k] is at least as large and exceeds -1, and
   * by k when neither exceeds -1.
   */
  function Pivot(xs: seq<real>, k: nat, n: nat): (j: nat)
    requires k < n <= |xs|
    ensures IsPivot(xs, k, n, j)
    decreases n - k
  {
    if k == n - 1 then k
    else
      var j' := Pivot(xs, k + 1, n);
      if -1.0 < xs[k] && xs[j'] <= xs[k] then k
      else if -1.0 < xs[j'] then j'
      else k
  }

  /**
   * The pivot search of the sort: starting from g = -1 and j = k, every i in
   * k..n with g < s[i] (strict) makes s[i] the new g and i the new j.  So j is
   * the first index of the maximum of s[k..n] when that maximum exceeds -1,
   * and k otherwise.
   */
  method SelectPivot(s: RealVec, k: nat, n: nat) returns (j: nat, g: real)
    requires k < n <= |s.elems|
    ensures k <= j < n
    ensures -1.0 <= g && forall i :: k <= i < n ==> s.elems[i] <= g
    ensures g == -1.0 ==> j == k
    ensures -1.0 < g ==> s.elems[j] == g && forall i :: k <= i < j ==> s.elems[i] < g
    ensures IsPivot(s.elems, k, n, j)
  {
    g := -1.0;
    j := k;
    for i := k to n
      invariant k <= j < n && j <= i
      invariant -1.0 <= g && forall q :: k <= q < i ==> s.elems[q] <= g
      invariant g == -1.0 ==> j == k
      invariant -1.0 < g ==> s.elems[j] == g && forall q :: k <= q < j ==> s.elems[q] < g
    {
      if g < s.elems[i] {
        g := s.elems[i];
        j := i;
      }
    }
  }

  /** Rows 0..rows of columns j and k of buf are those of orig, interchanged. */
  ghost predicate ColumnsExchanged(buf: seq<Complex>, orig: seq<Complex>, stride: nat, rows: nat, j: nat, k: nat) {
    forall r :: 0 <= r < rows ==>
      && At(buf, Idx(r, j, stride)) == At(orig, Idx(r, k, stride))
      && At(buf, Idx(r, k, stride)) == At(orig, Idx(r, j, stride))
  }

  /** Outside rows 0..rows of columns j and k, buf agrees with orig. */
  ghost predicate OtherEntriesKept(buf: seq<Complex>, orig: seq<Complex>, stride: nat, rows: nat, j: nat, k: nat) {
    && |buf| == |orig|
    && forall p :: 0 <= p < |buf| && !InColumn(p, stride, rows, j) && !InColumn(p, stride, rows, k) ==> buf[p] == orig[p]
  }

  /** The entries of row i in columns j and k, exchanged in before. */
  function ExchangeRow(before: seq<Complex>, stride: nat, i: nat, j: nat, k: nat): (after: seq<Complex>)
    requires Idx(i, j, stride) < |before| && Idx(i, k, stride) < |before|
    ensures |after| == |before|
    ensures after[Idx(i, j, stride)] == before[Idx(i, k, stride)] && after[Idx(i, k, stride)] == before[Idx(i, j, stride)]
    ensures forall p :: 0 <= p < |before| && p != Idx(i, j, stride) && p != Idx(i, k, stride) ==> after[p] == before[p]
  {
    before[Idx(i, j, stride) := before[Idx(i, k, stride)]][Idx(i, k, stride) := before[Idx(i, j, stride)]]
  }

  /** Row i of columns j and k is still as in orig while only rows 0..i have been exchanged. */
  lemma RowNotYetExchanged(before: seq<Complex>, orig: seq<Complex>, stride: nat, i: nat, j: nat, k: nat)
    requires j < stride && k < stride && Idx(i, j, stride) < |before| && Idx(i, k, stride) < |before|
    requires OtherEntriesKept(before, orig, stride, i, j, k)
    ensures before[Idx(i, j, stride)] == orig[Idx(i, j, stride)] && before[Idx(i, k, stride)] == orig[Idx(i, k, stride)]
  {
    IdxShift(i, j, stride);
    IdxShift(i, k, stride);
    NotInColumnBefore(Idx(i, j, stride), stride, i, j);
    NotInColumnBefore(Idx(i, j, stride), stride, i, k);
    NotInColumnBefore(Idx(i, k, stride), stride, i, j);
    NotInColumnBefore(Idx(i, k, stride), stride, i, k);
  }

  /** Exchanging row i of columns j and k extends an exchange of rows 0..i to rows 0..i+1. */
  lemma ExchangeRowExtends(before: seq<Complex>, orig: seq<Complex>, stride: nat, i: nat, j: nat, k: nat)
    requires j < stride && k < stride && Idx(i, j, stride) < |before| && Idx(i, k, stride) < |before|
    requires |orig| == |before| && ColumnsExchanged(before, orig, stride, i, j, k)
    requires before[Idx(i, j, stride)] == orig[Idx(i, j, stride)] && before[Idx(i, k, stride)] == orig[Idx(i, k, stride)]
    ensures ColumnsExchanged(ExchangeRow(before, stride, i, j, k), orig, stride, i + 1, j, k)
  {
    var after := ExchangeRow(before, stride, i, j, k);
    IdxShift(i, j, stride);
    IdxShift(i, k, stride);
    forall r | 0 <= r < i
      ensures At(after, Idx(r, j, stride)) == At(orig, Idx(r, k, stride))
      ensures At(after, Idx(r, k, stride)) == At(orig, Idx(r, j, stride))
    {
      IdxRowBefore(r, j, i, stride);
      IdxRowBefore(r, k, i, stride);
      assert At(after, Idx(r, j, stride)) == At(before, Idx(r, j, stride));
      assert At(after, Idx(r, k, stride)) == At(before, Idx(r, k, stride));
    }
  }

  /** Exchanging row i of columns j and k touches nothing outside rows 0..i+1 of those columns. */
  lemma ExchangeRowKeepsOthers(before: seq<Complex>, orig: seq<Complex>, stride: nat, i: nat, j: nat, k: nat)
    requires Idx(i, j, stride) < |before| && Idx(i, k, stride) < |before|
    requires OtherEntriesKept(before, orig, stride, i, j, k)
    ensures OtherEntriesKept(ExchangeRow(before, stride, i, j, k), orig, stride, i + 1, j, k)
  {
    var after := ExchangeRow(before, stride, i, j, k);
    forall p | 0 <= p < |after| && !InColumn(p, stride, i + 1, j) && !InColumn(p, stride, i + 1, k)
      ensures after[p] == orig[p]
    {
      InColumnGrow(p, stride, i, j);
      InColumnGrow(p, stride, i, k);
    }
  }

  /**
   * Interchanges rows 0..rows of columns j and k of the matrix held in buf
   * with the given row stride; no other entry changes.
   */
  method SwapColumns(buf: array<Complex>, stride: nat, rows: nat, j: nat, k: nat)
    requires j < stride && k < stride
    requires Fits(buf.Length, stride, rows, j + 1) && Fits(buf.Length, stride, rows, k + 1)
    modifies buf
    ensures forall r :: 0 <= r < rows ==>
      buf[Idx(r, j, stride)] == old(buf[Idx(r, k, stride)]) &&
      buf[Idx(r, k, stride)] == old(buf[Idx(r, j, stride)])
    ensures forall p :: 0 <= p < buf.Length && !InColumn(p, stride, rows, j) && !InColumn(p, stride, rows, k) ==>
      buf[p] == old(buf[p])
  {
    ghost var orig := buf[..];
    for i := 0 to rows
      modifies buf
      invariant ColumnsExchanged(buf[..], orig, stride, i, j, k) && OtherEntriesKept(buf[..], orig, stride, i, j, k)
    {
      RowNotYetExchanged(buf[..], orig, stride, i, j, k);
      ExchangeRowExtends(buf[..], orig, stride, i, j, k);
      ExchangeRowKeepsOthers(buf[..], orig, stride, i, j, k);
      assert buf[..][Idx(i, j, stride) := buf[Idx(i, k, stride)]][Idx(i, k, stride) := buf[Idx(i, j, stride)]]
        == ExchangeRow(buf[..], stride, i, j, k);
      var q := buf[Idx(i, j, stride)];
      buf[Idx(i, j, stride)] := buf[Idx(i, k, stride)];
      buf[Idx(i, k, stride)] := q;
    }
    forall r | 0 <= r < rows
      ensures buf[Idx(r, j, stride)] == orig[Idx(r, k, stride)]
      ensures buf[Idx(r, k, stride)] == orig[Idx(r, j, stride)]
    {
      assert At(buf[..], Idx(r, j, stride)) == At(orig, Idx(r, k, stride));
      assert At(buf[..], Idx(r, k, stride)) == At(orig, Idx(r, j, stride));
    }
  }

  /** perm[c] is the position, among 0..n, that the value now at c came from. */
  ghost predicate IsPermutation(perm: seq<nat>, n: nat) {
    && |perm| == n
    && (forall c :: 0 <= c < n ==> perm[c] < n)
    && (forall c, d :: 0 <= c < d < n ==> perm[c] != perm[d])
  }

  /**
   * Rows 0..rows of column c of `after` are those of column perm[c] of
   * `before`, for every c < |perm|, and every other entry is unchanged.
   */
  ghost predicate ColumnsPermuted(before: seq<Complex>, after: seq<Complex>, stride: nat, rows: nat, perm: seq<nat>)
    requires Fits(|before|, stride, rows, |perm|)
    requires forall c :: 0 <= c < |perm| ==> perm[c] < |perm|
  {
    && |after| == |before|
    && (forall r, c :: 0 <= r < rows && 0 <= c < |perm| ==>
          after[Idx(r, c, stride)] == before[Idx(r, perm[c], stride)])
    && (forall p :: 0 <= p < |after| && !InBlock(p, stride, rows, |perm|) ==> after[p] == before[p])
  }

  /**
   * `after` is `mid` with rows 0..rows of columns j and k interchanged, as
   * SwapColumns leaves its buffer.
   */
  ghost predicate ColumnsSwapped(mid: seq<Complex>, after: seq<Complex>, stride: nat, rows: nat, j: nat, k: nat)
    requires Fits(|mid|, stride, rows, j + 1) && Fits(|mid|, stride, rows, k + 1)
  {
    && |after| == |mid|
    && (forall r :: 0 <= r < rows ==>
          after[Idx(r, j, stride)] == mid[Idx(r, k, stride)] && after[Idx(r, k, stride)] == mid[Idx(r, j, stride)])
    && (forall p :: 0 <= p < |after| && !InColumn(p, stride, rows, j) && !InColumn(p, stride, rows, k) ==>
          after[p] == mid[p])
  }

  /** Interchanging two columns of a column-permuted matrix composes the permutation with that interchange. */
  lemma SwapComposesPermutation(before: seq<Complex>, mid: seq<Complex>, after: seq<Complex>,
                                stride: nat, rows: nat, perm: seq<nat>, j: nat, k: nat)
    requires j < |perm| && k < |perm| && |perm| <= stride
    requires Fits(|before|, stride, rows, |perm|)
    requires forall c :: 0 <= c < |perm| ==> perm[c] < |perm|
    requires ColumnsPermuted(before, mid, stride, rows, perm)
    requires Fits(|mid|, stride, rows, j + 1) && Fits(|mid|, stride, rows, k + 1)
    requires ColumnsSwapped(mid, after, stride, rows, j, k)
    ensures ColumnsPermuted(before, after, stride, rows, perm[j := perm[k]][k := perm[j]])
  {
    var perm' := perm[j := perm[k]][k := perm[j]];
    forall r, c | 0 <= r < rows && 0 <= c < |perm|
      ensures after[Idx(r, c, stride)] == before[Idx(r, perm'[c], stride)]
    {
      if c != j && c != k {
        forall r' | 0 <= r' < rows
          ensures Idx(r, c, stride) != Idx(r', j, stride) && Idx(r, c, stride) != Idx(r', k, stride)
        {
          IdxDistinct(r, c, r', j, stride);
          IdxDistinct(r, c, r', k, stride);
        }
      }
    }
    forall p | 0 <= p < |after| && !InBlock(p, stride, rows, |perm|)
      ensures after[p] == before[p]
    {
      assert !InColumn(p, stride, rows, j) && !InColumn(p, stride, rows, k);
    }
  }

  predicate Descending(xs: seq<real>) {
    forall a, b :: 0 <= a < b < |xs| ==> xs[a] >= xs[b]
  }

  /**
   * The values after the first k passes of the selection sort: s0 rearranged
   * by perm, the tail from n on untouched, and the first k in place (when
   * every value exceeds -1).
   */
  ghost predicate ValuesArranged(s0: seq<real>, cur: seq<real>, n: nat, perm: seq<nat>, k: nat, sorting: bool) {
    && n <= |s0| && |cur| == |s0| && cur[n..] == s0[n..]
    && IsPermutation(perm, n)
    && (forall c :: 0 <= c < n ==> cur[c] == s0[perm[c]])
    && multiset(cur[..n]) == multiset(s0[..n])
    && (sorting ==> forall a, b :: 0 <= a < k && a < b < n ==> cur[a] >= cur[b])
  }

  /** Rows 0..n of the columns of bc are those of b0 rearranged by perm, or bc is b0 when nb = 0. */
  ghost predicate ColumnsFollow(b0: seq<Complex>, bc: seq<Complex>, stride: nat, n: nat, nb: nat, perm: seq<nat>) {
    if 0 < nb then IsPermutation(perm, n) && Fits(|b0|, stride, n, n) && ColumnsPermuted(b0, bc, stride, n, perm)
    else bc == b0
  }

  /** What the selection sort keeps after its first k passes, for s, V and U together. */
  ghost predicate SortState(s0: seq<real>, cur: seq<real>, u0: seq<Complex>, uc: seq<Complex>,
                            v0: seq<Complex>, vc: seq<Complex>, m: nat, n: nat, nu: nat, nv: nat,
                            perm: seq<nat>, k: nat, sorting: bool)
  {
    && ValuesArranged(s0, cur, n, perm, k, sorting)
    && ColumnsFollow(v0, vc, n, n, nv, perm)
    && ColumnsFollow(u0, uc, m, n, nu, perm)
  }

  /** Exchanging two entries of a sequence keeps its multiset. */
  lemma ExchangeKeepsMultiset(xs: seq<real>, j: nat, k: nat, n: nat)
    requires j < n && k < n && n <= |xs|
    ensures multiset(xs[j := xs[k]][k := xs[j]][..n]) == multiset(xs[..n])
  {
    var ys := xs[j := xs[k]][k := xs[j]];
    assert ys[..n] == xs[..n][j := xs[k]][k := xs[j]];
  }

  /**
   * One pass of the selection sort, on values: when before[j] is the largest
   * of before[k..n], exchanging before[j] and before[k] (nothing, when j = k)
   * keeps the values a rearrangement of s0 and extends the sorted prefix.
   */
  lemma ExchangeStep(s0: seq<real>, before: seq<real>, perm: seq<nat>, n: nat, k: nat, j: nat, sorting: bool)
    requires k <= j < n && ValuesArranged(s0, before, n, perm, k, sorting)
    requires sorting ==> forall i :: k <= i < n ==> before[i] <= before[j]
    ensures ValuesArranged(s0, before[j := before[k]][k := before[j]], n, perm[j := perm[k]][k := perm[j]], k + 1, sorting)
  {
    var after, perm' := before[j := before[k]][k := before[j]], perm[j := perm[k]][k := perm[j]];
    ExchangeKeepsMultiset(before, j, k, n);
    assert after[n..] == before[n..];
    assert forall c :: 0 <= c < n ==> after[c] == s0[perm'[c]];
    if sorting {
      ExchangeExtendsSorted(before, n, k, j);
    }
    ExchangePermutation(perm, n, j, k);
  }

  /** Exchanging two entries of a permutation gives a permutation. */
  lemma ExchangePermutation(perm: seq<nat>, n: nat, j: nat, k: nat)
    requires IsPermutation(perm, n) && j < n && k < n
    ensures IsPermutation(perm[j := perm[k]][k := perm[j]], n)
  {
  }

  /** Moving the largest of xs[k..n] to position k extends a sorted prefix of length k by one. */
  lemma ExchangeExtendsSorted(xs: seq<real>, n: nat, k: nat, j: nat)
    requires k <= j < n <= |xs|
    requires forall a, b :: 0 <= a < k && a < b < n ==> xs[a] >= xs[b]
    requires forall i :: k <= i < n ==> xs[i] <= xs[j]
    ensures var ys := xs[j := xs[k]][k := xs[j]]; forall a, b :: 0 <= a < k + 1 && a < b < n ==> ys[a] >= ys[b]
  {
  }

  /**
   * Interchanges columns j and k of a buffer whose columns are those of buf0
   * rearranged by perm; afterwards they are those of buf0 rearranged by perm
   * with entries j and k exchanged.
   */
  method SwapPermutedColumns(buf: array<Complex>, stride: nat, rows: nat, n: nat, j: nat, k: nat,
                             ghost buf0: seq<Complex>, ghost perm: seq<nat>)
    requires j < n && k < n && n <= stride
    requires IsPermutation(perm, n)
    requires Fits(buf.Length, stride, rows, n) && |buf0| == buf.Length
    requires ColumnsPermuted(buf0, buf[..], stride, rows, perm)
    modifies buf
    ensures ColumnsSwapped(old(buf[..]), buf[..], stride, rows, j, k)
    ensures IsPermutation(perm[j := perm[k]][k := perm[j]], n)
    ensures ColumnsPermuted(buf0, buf[..], stride, rows, perm[j := perm[k]][k := perm[j]])
  {
    ghost var mid := buf[..];
    SwapColumns(buf, stride, rows, j, k);
    assert ColumnsSwapped(mid, buf[..], stride, rows, j, k);
    SwapComposesPermutation(buf0, mid, buf[..], stride, rows, perm, j, k);
  }

  /**
   * The selection sort as a reference: from pass k on, each pass exchanges
   * the pivot with position k, in the values and in the permutation alike.
   */
  function SelectionOrder(xs: seq<real>, perm: seq<nat>, k: nat, n: nat): (seq<real>, seq<nat>)
    requires k <= n <= |xs| && |perm| == n
    decreases n - k
  {
    if k == n then (xs, perm)
    else
      var j := Pivot(xs, k, n);
      SelectionOrder(xs[j := xs[k]][k := xs[j]], perm[j := perm[k]][k := perm[j]], k + 1, n)
  }

  /**
   * Exchanging the pivot with position k is one pass of the reference sort,
   * and keeps the values a rearrangement of s0 with a longer sorted prefix.
   */
  lemma PassStep(s0: seq<real>, before: seq<real>, perm: seq<nat>, n: nat, k: nat, j: nat, sorting: bool)
    requires k < n && ValuesArranged(s0, before, n, perm, k, sorting)
    requires sorting ==> forall i :: 0 <= i < n ==> s0[i] > -1.0
    requires IsPivot(before, k, n, j)
    ensures ValuesArranged(s0, before[j := before[k]][k := before[j]], n, perm[j := perm[k]][k := perm[j]], k + 1, sorting)
    ensures SelectionOrder(before[j := before[k]][k := before[j]], perm[j := perm[k]][k := perm[j]], k + 1, n)
         == SelectionOrder(before, perm, k, n)
  {
    PivotUnique(before, k, n, j, Pivot(before, k, n));
    assert sorting ==> before[k] == s0[perm[k]] && -1.0 < before[k];
    ExchangeStep(s0, before, perm, n, k, j, sorting);
  }

  /**
   * The remaining passes of the reference sort keep the values a
   * rearrangement of s0 and complete the sorted prefix.
   */
  lemma {:induction false} SelectionOrderArranges(s0: seq<real>, xs: seq<real>, perm: seq<nat>, k: nat, n: nat, sorting: bool)
    requires k <= n && ValuesArranged(s0, xs, n, perm, k, sorting)
    requires sorting ==> forall i :: 0 <= i < n ==> s0[i] > -1.0
    ensures ValuesArranged(s0, SelectionOrder(xs, perm, k, n).0, n, SelectionOrder(xs, perm, k, n).1, n, sorting)
    decreases n - k
  {
    if k < n {
      var j := Pivot(xs, k, n);
      var xs', perm' := xs[j := xs[k]][k := xs[j]], perm[j := perm[k]][k := perm[j]];
      PassStep(s0, xs, perm, n, k, j, sorting);
      SelectionOrderArranges(s0, xs', perm', k + 1, n, sorting);
      assert SelectionOrder(xs, perm, k, n) == SelectionOrder(xs', perm', k + 1, n);
    }
  }

  /**
   * The reference sort of s[0..n] leaves s[n..] alone, rearranges s[0..n]
   * by a permutation, and puts it in descending order when every value
   * exceeds -1.
   */
  lemma SelectionOrderSorts(xs: seq<real>, n: nat)
    requires n <= |xs|
    ensures var (ys, perm) := SelectionOrder(xs, seq(n, c => c), 0, n);
      && |ys| == |xs| && ys[n..] == xs[n..]
      && IsPermutation(perm, n)
      && (forall c :: 0 <= c < n ==> ys[c] == xs[perm[c]])
      && multiset(ys[..n]) == multiset(xs[..n])
      && ((forall i :: 0 <= i < n ==> xs[i] > -1.0) ==> Descending(ys[..n]))
  {
    var sorting := forall i :: 0 <= i < n ==> xs[i] > -1.0;
    assert ValuesArranged(xs, xs, n, seq(n, c => c), 0, sorting);
    SelectionOrderArranges(xs, xs, seq(n, c => c), 0, n, sorting);
    var (ys, perm) := SelectionOrder(xs, seq(n, c => c), 0, n);
    if sorting {
      assert forall a, b :: 0 <= a < b < n ==> ys[..n][a] >= ys[..n][b];
    }
  }

  /**
   * Pass k of the selection sort.  It searches the pivot j of s[k..n]; when
   * j differs from k it exchanges s[j] and s[k] and interchanges rows 0..n
   * of columns j and k of V (when nv > 0) and of U (when nu > 0); when j is
   * k it changes nothing.
   */
  method SortPass(s: RealVec, u: array<Complex>, v: array<Complex>, m: nat, n: nat, nu: nat, nv: nat, k: nat,
                  ghost s0: seq<real>, ghost u0: seq<Complex>, ghost v0: seq<Complex>,
                  ghost perm: seq<nat>, ghost sorting: bool)
    returns (ghost j: nat, ghost perm': seq<nat>)
    requires k < n <= |s0| && u != v
    requires 0 < nu ==> n <= m && Fits(u.Length, m, n, n)
    requires 0 < nv ==> Fits(v.Length, n, n, n)
    requires sorting ==> forall i :: 0 <= i < n ==> s0[i] > -1.0
    requires SortState(s0, s.elems, u0, u[..], v0, v[..], m, n, nu, nv, perm, k, sorting)
    modifies s, u, v
    ensures IsPivot(old(s.elems), k, n, j)
    ensures s.elems == old(s.elems)[j := old(s.elems[k])][k := old(s.elems[j])]
    ensures perm' == perm[j := perm[k]][k := perm[j]]
    ensures if 0 < nv && j != k then ColumnsSwapped(old(v[..]), v[..], n, n, j, k) else v[..] == old(v[..])
    ensures if 0 < nu && j != k then ColumnsSwapped(old(u[..]), u[..], m, n, j, k) else u[..] == old(u[..])
    ensures SortState(s0, s.elems, u0, u[..], v0, v[..], m, n, nu, nv, perm', k + 1, sorting)
    ensures SelectionOrder(s.elems, perm', k + 1, n) == SelectionOrder(old(s.elems), perm, k, n)
  {
    var pivot, g := SelectPivot(s, k, n);
    j := pivot;
    ghost var before := s.elems;
    PassStep(s0, before, perm, n, k, pivot, sorting);
    perm' := perm[pivot := perm[k]][k := perm[pivot]];
    if pivot != k {
      s.elems := s.elems[pivot := s.elems[k]];
      s.elems := s.elems[k := g];
      assert s.elems == before[pivot := before[k]][k := before[pivot]];
      if 0 < nv {
        SwapPermutedColumns(v, n, n, n, pivot, k, v0, perm);
      }
      if 0 < nu {
        SwapPermutedColumns(u, m, n, n, pivot, k, u0, perm);
      }
    } else {
      assert before[pivot := before[k]][k := before[pivot]] == before;
      assert perm' == perm;
    }
  }

  /**
   * The selection sort of s[0..n] into descending order.  Each exchange of
   * s[j] and s[k] also interchanges rows 0..n of columns j and k of V (when
   * nv > 0) and of U (when nu > 0), so every value keeps its columns.  The
   * values and the permutation are those of SelectionOrder, so the order
   * among equal values is the one the pivot search fixes.  The result is
   * sorted whenever every value exceeds -1, the start of the pivot search.
   */
  method SortDescending(s: RealVec, u: array<Complex>, v: array<Complex>, m: nat, n: nat, nu: nat, nv: nat)
    returns (ghost perm: seq<nat>)
    requires n <= |s.elems|
    requires u != v
    requires 0 < nu ==> n <= m && Fits(u.Length, m, n, n)
    requires 0 < nv ==> Fits(v.Length, n, n, n)
    modifies s, u, v
    ensures (s.elems, perm) == SelectionOrder(old(s.elems), seq(n, c => c), 0, n)
    ensures |s.elems| == |old(s.elems)| && s.elems[n..] == old(s.elems[n..])
    ensures IsPermutation(perm, n)
    ensures forall c :: 0 <= c < n ==> s.elems[c] == old(s.elems[perm[c]])
    ensures multiset(s.elems[..n]) == multiset(old(s.elems[..n]))
    ensures (forall i :: 0 <= i < n ==> old(s.elems[i]) > -1.0) ==> Descending(s.elems[..n])
    ensures if 0 < nv then ColumnsPermuted(old(v[..]), v[..], n, n, perm) else v[..] == old(v[..])
    ensures if 0 < nu then ColumnsPermuted(old(u[..]), u[..], m, n, perm) else u[..] == old(u[..])
  {
    ghost var s0, u0, v0 := s.elems, u[..], v[..];
    ghost var sorting := forall i :: 0 <= i < n ==> s0[i] > -1.0;
    perm := seq(n, c => c);
    assert s.elems[..n] == s0[..n];
    for k := 0 to n
      modifies s, u, v
      invariant SortState(s0, s.elems, u0, u[..], v0, v[..], m, n, nu, nv, perm, k, sorting)
      invariant SelectionOrder(s.elems, perm, k, n) == SelectionOrder(s0, seq(n, c => c), 0, n)
    {
      ghost var j;
      j, perm := SortPass(s, u, v, m, n, nu, nv, k, s0, u0, v0, perm, sorting);
    }
    if sorting {
      assert forall a, b :: 0 <= a < b < n ==> s.elems[..n][a] >= s.elems[..n][b];
    }
  }

  /** The magnitudes |x| of a sequence of reals, in order. */
  function Magnitudes(xs: seq<real>): seq<real> {
    seq(|xs|, i requires 0 <= i < |xs| => Abs(xs[i]))
  }

  /**
   * The work arrays b and c as the Householder reduction leaves them:
   * b[k] = colNorms[k] for k < n, c[0] = 0 (never written), c[k+1] =
   * rowNorms[k] for k < n-1, zero elsewhere.
   */
  method LoadBidiagonal(n: nat, colNorms: seq<real>, rowNorms: seq<real>) returns (b: array<real>, c: array<real>)
    requires 1 <= n <= NBIG && |colNorms| == n && |rowNorms| == n - 1
    ensures fresh(b) && fresh(c) && b.Length == NBIG && c.Length == NBIG
    ensures b[..n] == colNorms && c[..n] == [0.0] + rowNorms
  {
    b := new real[NBIG](_ => 0.0);
    c := new real[NBIG](_ => 0.0);
    c[1] := 0.0;
    for k := 0 to n
      modifies b, c
      invariant b[..k] == colNorms[..k]
      invariant c[0] == 0.0 && forall i :: 0 <= i < k && i < n - 1 ==> c[i + 1] == rowNorms[i]
    {
      b[k] := colNorms[k];
      if k < n - 1 {
        c[k + 1] := rowNorms[k];
      }
    }
    assert b[..n] == colNorms;
    assert c[..n] == [0.0] + rowNorms;
  }

  /**
   * Rows 0..n of column c of vc, for from <= c < n, are those of v0 negated
   * when converged[c] < 0; every other entry of vc is that of v0.
   */
  ghost predicate SignsApplied(vc: seq<Complex>, v0: seq<Complex>, n: nat, converged: seq<real>, from: nat) {
    && |vc| == |v0| && |converged| == n
    && (forall r, c :: 0 <= r < n && 0 <= c < n ==>
          At(vc, Idx(r, c, n)) == if from <= c && converged[c] < 0.0 then Neg(At(v0, Idx(r, c, n))) else At(v0, Idx(r, c, n)))
    && (forall p :: 0 <= p < |vc| && !InBlock(p, n, n, n) ==> vc[p] == v0[p])
  }

  /** Normalising the sign of index k extends the negated columns from k+1..n to k..n. */
  lemma SignStep(before: seq<Complex>, after: seq<Complex>, v0: seq<Complex>, n: nat, converged: seq<real>, k: nat)
    requires k < n && Fits(|before|, n, n, n) && |after| == |before|
    requires SignsApplied(before, v0, n, converged, k + 1)
    requires converged[k] < 0.0 ==> forall r :: 0 <= r < n ==> after[Idx(r, k, n)] == Neg(before[Idx(r, k, n)])
    requires forall p :: 0 <= p < |after| && !(converged[k] < 0.0 && InColumn(p, n, n, k)) ==> after[p] == before[p]
    ensures SignsApplied(after, v0, n, converged, k)
  {
    forall r, c | 0 <= r < n && 0 <= c < n && c != k
      ensures after[Idx(r, c, n)] == before[Idx(r, c, n)]
    {
      NotInOtherColumn(r, c, k, n);
    }
  }

  /**
   * The convergence points of the QR diagonalisation for k = n-1 down to 0:
   * s[k] takes the value the iteration converged to, then NormalizeSign makes
   * it non-negative, negating rows 0..n of column k of V when it was negative
   * and V is computed.
   */
  method InstallConverged(s: RealVec, v: array<Complex>, n: nat, nv: nat, converged: seq<real>)
    requires n <= |s.elems| && |converged| == n
    requires 0 < nv ==> Fits(v.Length, n, n, n)
    modifies s, v
    ensures |s.elems| == |old(s.elems)| && s.elems[n..] == old(s.elems[n..])
    ensures s.elems[..n] == Magnitudes(converged)
    ensures nv == 0 ==> v[..] == old(v[..])
    ensures 0 < nv ==> forall r, c :: 0 <= r < n && 0 <= c < n ==>
      v[Idx(r, c, n)] == if converged[c] < 0.0 then Neg(old(v[Idx(r, c, n)])) else old(v[Idx(r, c, n)])
    ensures forall p :: 0 <= p < v.Length && !InBlock(p, n, n, n) ==> v[p] == old(v[p])
  {
    ghost var v0 := v[..];
    for kk := 0 to n
      modifies s, v
      invariant |s.elems| == |old(s.elems)| && s.elems[n..] == old(s.elems[n..])
      invariant nv == 0 ==> v[..] == v0
      invariant 0 < nv ==> SignsApplied(v[..], v0, n, converged, n - kk)
      invariant forall i :: n - kk <= i < n ==> s.elems[i] == Abs(converged[i])
    {
      var k := n - 1 - kk;
      s.elems := s.elems[k := converged[k]];
      ghost var before := v[..];
      NormalizeSign(s, v, n, nv, k);
      if 0 < nv {
        SignStep(before, v[..], v0, n, converged, k);
      }
    }
    assert s.elems[..n] == Magnitudes(converged);
    if 0 < nv {
      forall r, c | 0 <= r < n && 0 <= c < n
        ensures v[Idx(r, c, n)] == if converged[c] < 0.0 then Neg(v0[Idx(r, c, n)]) else v0[Idx(r, c, n)]
      {
        assert At(v[..], Idx(r, c, n)) == if converged[c] < 0.0 then Neg(At(v0, Idx(r, c, n))) else At(v0, Idx(r, c, n));
      }
    }
  }

  /**
   * csvd with its floating-point phases taken as given: colNorms[k] is the
   * diagonal entry b[k] the Householder reduction leaves for column k,
   * rowNorms[k] the super-diagonal entry c[k+1] it leaves for row k, and
   * converged[k] the value s[k] holds when the QR iteration for index k
   * stops (before its sign is fixed).  The driver checks the dimensions, fills
   * b and c, computes eps, starts U and V at the identity, installs and
   * sign-normalises the converged values for k = n-1 down to 0, and sorts.
   * On success s[0..n] holds the magnitudes of the converged values in
   * descending order; t (returned as the ghost t0, with eps) starts with
   * t[0] = 0 <= eps, so the split scan never reads s[-1].
   */
  method Csvd(m: nat, n: nat, nu: nat, nv: nat, s: RealVec, u: array<Complex>, v: array<Complex>,
              colNorms: seq<real>, rowNorms: seq<real>, converged: seq<real>)
    returns (r: Outcome<DimensionError>, ghost eps: real, ghost t0: seq<real>)
    requires |colNorms| == n && |converged| == n && |rowNorms| == (if n == 0 then 0 else n - 1)
    requires u != v
    requires CheckDimensions(m, n).Pass? ==>
      && n <= |s.elems| && nu <= m && nv <= n
      && (0 < nu ==> Fits(u.Length, m, m, nu) && Fits(u.Length, m, n, n))
      && (0 < nv ==> Fits(v.Length, n, n, n))
    modifies s, u, v
    ensures r == CheckDimensions(m, n)
    ensures r.Fail? ==> s.elems == old(s.elems) && u[..] == old(u[..]) && v[..] == old(v[..])
    ensures r.Pass? ==> |s.elems| == |old(s.elems)| && s.elems[n..] == old(s.elems[n..])
    ensures r.Pass? ==> Descending(s.elems[..n]) && forall i :: 0 <= i < n ==> 0.0 <= s.elems[i]
    ensures r.Pass? ==> multiset(s.elems[..n]) == multiset(Magnitudes(converged))
    ensures r.Pass? ==> eps == ETA * LargestSum(colNorms, [0.0] + rowNorms) && 0.0 <= eps
    ensures r.Pass? ==> |t0| == NBIG && t0[..n] == [0.0] + rowNorms && Abs(t0[0]) <= eps
    ensures nu == 0 ==> u[..] == old(u[..])
    ensures nv == 0 ==> v[..] == old(v[..])
  {
    r, eps, t0 := CheckDimensions(m, n), 0.0, [];
    if r.Fail? {
      return;
    }
    var b, c := LoadBidiagonal(n, colNorms, rowNorms);
    var t := new real[NBIG](_ => 0.0);
    var e := SetupThreshold(b, c, s, t, n);
    ThresholdNonNegative(b[..n], c[..n]);
    eps, t0 := e, t[..];
    assert t0[0] == t0[..n][0];

    InitIdentity(u, m, nu);
    InitIdentity(v, n, nv);
    assert nu == 0 ==> u[..] == old(u[..]);
    assert nv == 0 ==> v[..] == old(v[..]);

    InstallConverged(s, v, n, nv, converged);
    assert forall i :: 0 <= i < n ==> s.elems[i] == s.elems[..n][i] >= 0.0;
    ghost var sorted := s.elems[..n];
    ghost var perm := SortDescending(s, u, v, m, n, nu, nv);
    assert Descending(s.elems[..n]) && multiset(s.elems[..n]) == multiset(sorted);
    forall i | 0 <= i < n
      ensures 0.0 <= s.elems[i]
    {
      assert s.elems[i] == sorted[perm[i]];
    }
  }
}
