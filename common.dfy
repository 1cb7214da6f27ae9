/**
 * Vocabulary shared by the model of the SVD routine and of the pseudo-inverse
 * builder: complex numbers over the reals (the source's Complex32, without
 * rounding), the row-major index arithmetic the buffers use, the failure
 * outcome of the routines, and the growable vector of reals (the source's
 * Vec<f32>).
 */
module Common {

  /** A complex number; the source stores its two parts as f32. */
  datatype Complex = Complex(re: real, im: real)

  const Zero: Complex := Complex(0.0, 0.0)
  const One: Complex := Complex(1.0, 0.0)

  function Add(x: Complex, y: Complex): Complex {
    Complex(x.re + y.re, x.im + y.im)
  }

  function Mul(x: Complex, y: Complex): Complex {
    Complex(x.re * y.re - x.im * y.im, x.re * y.im + x.im * y.re)
  }

  /** A complex number times a real one (Complex32 * f32). */
  function Scale(x: Complex, r: real): Complex {
    Complex(x.re * r, x.im * r)
  }

  function Conj(x: Complex): Complex {
    Complex(x.re, -x.im)
  }

  function Neg(x: Complex): Complex {
    Complex(-x.re, -x.im)
  }

  function Abs(x: real): real {
    if x < 0.0 then -x else x
  }

  /** The result of a routine that either succeeds or reports an error. */
  datatype Outcome<E> = Pass | Fail(error: E)

  /**
   * Position of entry (row, col) in a flat buffer whose rows are `stride`
   * apart: row * stride + col.  It is written as repeated addition so that
   * the solver only meets the product inside the lemmas below.
   */
  function Idx(row: nat, col: nat, stride: nat): nat {
    if row == 0 then col else Idx(row - 1, col, stride) + stride
  }

  lemma {:induction false} IdxIsProduct(row: nat, col: nat, stride: nat)
    ensures Idx(row, col, stride) == row * stride + col
  {
    if row != 0 {
      IdxIsProduct(row - 1, col, stride);
    }
  }

  /** Position p holds an entry in rows 0..rows and columns 0..cols of a buffer with the given stride. */
  ghost predicate InBlock(p: int, stride: nat, rows: nat, cols: nat) {
    exists r, c :: 0 <= r < rows && 0 <= c < cols && p == Idx(r, c, stride)
  }

  /** Position p holds an entry of column col, in rows 0..rows, of a buffer with the given stride. */
  ghost predicate InColumn(p: int, stride: nat, rows: nat, col: nat) {
    exists r :: 0 <= r < rows && p == Idx(r, col, stride)
  }

  /** A block one column wider holds the narrower block and its new column. */
  lemma InBlockGrow(p: int, stride: nat, rows: nat, cols: nat)
    ensures InBlock(p, stride, rows, cols + 1) <==> InBlock(p, stride, rows, cols) || InColumn(p, stride, rows, cols)
  {
    if InBlock(p, stride, rows, cols + 1) {
      var r, c :| 0 <= r < rows && 0 <= c < cols + 1 && p == Idx(r, c, stride);
      if c < cols {
        assert InBlock(p, stride, rows, cols);
      } else {
        assert InColumn(p, stride, rows, cols);
      }
    }
    if InBlock(p, stride, rows, cols) {
      var r, c :| 0 <= r < rows && 0 <= c < cols && p == Idx(r, c, stride);
      assert 0 <= c < cols + 1;
    }
    if InColumn(p, stride, rows, cols) {
      var r :| 0 <= r < rows && p == Idx(r, cols, stride);
      assert InBlock(p, stride, rows, cols + 1);
    }
  }

  /** Column col over rows+1 rows is column col over rows plus the entry of row `rows`. */
  lemma InColumnGrow(p: int, stride: nat, rows: nat, col: nat)
    ensures InColumn(p, stride, rows + 1, col) <==> InColumn(p, stride, rows, col) || p == Idx(rows, col, stride)
  {
    if InColumn(p, stride, rows + 1, col) && p != Idx(rows, col, stride) {
      var r :| 0 <= r < rows + 1 && p == Idx(r, col, stride);
      assert InColumn(p, stride, rows, col);
    }
  }

  /**
   * Every entry (r, c) with r < rows and c < cols has its position inside a
   * buffer of length len: the accesses the source makes do not go out of bounds.
   */
  ghost predicate Fits(len: int, stride: nat, rows: nat, cols: nat) {
    forall r, c :: 0 <= r < rows && 0 <= c < cols ==> Idx(r, c, stride) < len
  }

  lemma MulMonotone(a: nat, b: nat, c: nat)
    requires a <= b
    ensures a * c <= b * c
  {
  }

  /** Distinct (row, column) pairs with columns below the stride have distinct positions. */
  lemma IdxDistinct(row: nat, col: nat, row': nat, col': nat, stride: nat)
    requires col < stride && col' < stride && (row, col) != (row', col')
    ensures Idx(row, col, stride) != Idx(row', col', stride)
  {
    IdxShift(row, col, stride);
    IdxShift(row', col', stride);
    if row < row' {
      IdxRowBefore(row, col, row', stride);
    } else if row' < row {
      IdxRowBefore(row', col', row, stride);
    }
  }

  /** Every entry of an earlier row precedes the start of a later one. */
  lemma IdxRowBefore(row: nat, col: nat, later: nat, stride: nat)
    requires row < later && col < stride
    ensures Idx(row, col, stride) < Idx(later, 0, stride)
  {
    IdxIsProduct(row, col, stride);
    IdxIsProduct(later, 0, stride);
    MulMonotone(row + 1, later, stride);
  }

  /** An entry inside a block of `rows` rows and `cols` columns lies before (rows-1)*stride + cols. */
  lemma IdxInside(row: nat, col: nat, stride: nat, rows: nat, cols: nat)
    requires row < rows && col < cols
    ensures Idx(row, col, stride) < (rows - 1) * stride + cols
  {
    IdxIsProduct(row, col, stride);
    MulMonotone(row, rows - 1, stride);
  }

  /** A block fits when its last row ends inside the buffer. */
  lemma FitsBySize(len: int, stride: nat, rows: nat, cols: nat)
    requires 0 < rows && 0 < cols ==> (rows - 1) * stride + cols <= len
    ensures Fits(len, stride, rows, cols)
  {
    forall r, c | 0 <= r < rows && 0 <= c < cols
      ensures Idx(r, c, stride) < len
    {
      IdxInside(r, c, stride, rows, cols);
    }
  }

  /** Nothing at or after the start of row `rows` is in rows 0..rows of a column below the stride. */
  lemma NotInColumnBefore(p: int, stride: nat, rows: nat, col: nat)
    requires col < stride && Idx(rows, 0, stride) <= p
    ensures !InColumn(p, stride, rows, col)
  {
    if InColumn(p, stride, rows, col) {
      var r :| 0 <= r < rows && p == Idx(r, col, stride);
      IdxRowBefore(r, col, rows, stride);
    }
  }

  /** Entry col of row `row` sits col places after the row's start. */
  lemma {:induction false} IdxShift(row: nat, col: nat, stride: nat)
    ensures Idx(row, col, stride) == Idx(row, 0, stride) + col
  {
    if row != 0 {
      IdxShift(row - 1, col, stride);
    }
  }

  /** A block of rows*cols entries with row stride cols fits in a buffer of at least rows*cols entries. */
  lemma ProductFits(len: int, rows: nat, cols: nat)
    requires rows * cols <= len
    ensures Fits(len, cols, rows, cols)
  {
    if 0 < rows && 0 < cols {
      assert (rows - 1) * cols + cols == rows * cols;
    }
    FitsBySize(len, cols, rows, cols);
  }

  /** Any block inside a square of side `stride` fits in a buffer of stride*stride entries. */
  lemma SquareFits(len: int, stride: nat, rows: nat, cols: nat)
    requires rows <= stride && cols <= stride && stride * stride <= len
    ensures Fits(len, stride, rows, cols)
  {
    if 0 < rows && 0 < cols {
      MulMonotone(rows - 1, stride - 1, stride);
      assert (stride - 1) * stride + stride == stride * stride;
    }
    FitsBySize(len, stride, rows, cols);
  }

  /**
   * The entry at position p, and Zero outside the buffer.  Specification
   * functions read buffers through At so that they need no precondition; the
   * methods they specify only ever read inside the buffer.
   */
  function At(buf: seq<Complex>, p: int): Complex {
    if 0 <= p < |buf| then buf[p] else Zero
  }

  /** A vector of reals that may grow at its end (the source's Vec<f32>). */
  class RealVec {
    var elems: seq<real>

    constructor ()
      ensures elems == []
    {
      elems := [];
    }

    method Push(x: real)
      modifies this
      ensures elems == old(elems) + [x]
    {
      elems := elems + [x];
    }
  }
}
