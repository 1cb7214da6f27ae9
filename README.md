# Complex SVD scaffolding and pseudo-inverse, modelled in Dafny

The repository is a `no_std` Rust port of Businger and Golub's complex
singular value decomposition `csvd` (ACM Algorithm 358). It also has a
pseudo-inverse builder (`pinv`, `find_pinv_from_svd`) and an accumulating
matrix product (`matrix_mult`). This project models the index and control
logic around the floating-point work:

- the argument check of `csvd` and its error order;
- the identity start of U and V;
- the copy of the bidiagonal into `s` and `t`, and the negligibility threshold `eps`;
- the split-point scan;
- the sign normalisation of a converged value;
- the descending selection sort, which carries the columns of U and V along with their values;
- in `find_pinv_from_svd`: the thresholded reciprocals, the zero padding of `s`, and the triple loop that writes the entries of V · S+ · U* into INV at `i*n + j`. This fills INV with the whole product when m <= n or n = 1. When 2 <= n < m, later rows overwrite the ends of earlier rows, and part of the n·m buffer is never written;
- `pinv`'s buffer set-up and error propagation;
- `matrix_mult`'s dimension check and its accumulating product.

Complex entries are pairs of reals, so sums of products are exact. Buffers
are flat and row-major, with the source's strides:

- U (and the input A) have row stride m;
- V has row stride n;
- INV is written at `i*n + j` for `j < m`.

`Idx(row, col, stride)` is that position, and the lemmas in `Common` relate
it to `row*stride + col`.

Files:

- `common.dfy` (module `Common`): complex arithmetic, `Idx` and its lemmas, the `Outcome` result type, `At` (total buffer read), and the class `RealVec` for the growable `Vec<f32>`.
- `csvd.dfy` (module `Csvd`): src/csvd.rs.
- `pinv.dfy` (module `PseudoInverse`): src/lib.rs.

The floating-point phases of `csvd` are not computed. Their results enter
`Csvd.Csvd` as parameters:

- `colNorms`: the diagonal b;
- `rowNorms`: the super-diagonal c[1..n];
- `converged`: the value s[k] holds when the QR iteration for k stops.

## Model

| member | source | states |
|---|---|---|
| Common.IdxIsProduct | src/csvd.rs:250 | the position of entry (i, j) in a buffer with row stride m is i*m + j |
| Common.IdxDistinct | src/csvd.rs:257-260 | distinct (row, column) pairs with columns below the stride never share a position, so one write cannot clobber another entry of the block |
| Common.IdxRowBefore | src/lib.rs:196-199 | every entry of an earlier row lies before the start of a later row |
| Common.RealVec.constructor | src/lib.rs:142 | a new vector is empty |
| Common.RealVec.Push | src/lib.rs:190 | push appends exactly one value at the end |
| Csvd.MessageIdentifiesError | src/csvd.rs:109-123 | the four error texts are pairwise different, so the text returned names the rejection |
| Csvd.CheckDimensions | src/csvd.rs:109-123 | the four rejections in source order, each if and only if its condition holds and every earlier test passed; success if and only if 1 <= n <= NBIG and n <= m |
| Csvd.ClearColumn | src/csvd.rs:248-250 | rows 0..dim of column j become zero; no other position changes |
| Csvd.IdentityColumnStep | src/csvd.rs:247-251 | clearing column j and setting its diagonal to 1 extends the identity by one column and keeps every entry outside the block |
| Csvd.InitIdentity | src/csvd.rs:246-262 | afterwards entry (i, j), for i < dim and j < cols, is 1 on the diagonal and 0 elsewhere; entries outside that block are unchanged; nothing changes when cols = 0 |
| Csvd.LargestSumIsMaximum | src/csvd.rs:239-242 | the folded maximum is at least 0 and at least every b[k] + c[k], and equals 0 or one of them |
| Csvd.SetupThreshold | src/csvd.rs:234-244 | s[k] = b[k] and t[k] = c[k] for k < n with everything else kept, and eps = ETA * max(0, max_k (b[k] + c[k])) |
| Csvd.ThresholdNonNegative | src/csvd.rs:244 | eps >= 0 |
| Csvd.SplitPoint | src/csvd.rs:298-310 | given t[0] negligible, the scan stops at some l <= k with t[l] negligible or (l > 0 and s[l-1] negligible), and no index in l+1..k stops it: l is the largest such index and s[-1] is never read |
| Csvd.QrStepStoresT | src/csvd.rs:384-435 | the QR step's stores into t: rotation norms in t[l..k-1], then t[l] = 0 and t[k] = f, nothing else, so t[0] = 0 is kept |
| Csvd.NormalizeSign | src/csvd.rs:443-451 | s[k] becomes the magnitude of w; if w < 0 and nv > 0, rows 0..n of column k of V are negated; every other entry of s and V is unchanged |
| Csvd.Pivot | src/csvd.rs:457-466 | a reference definition of the pivot, computed from the right, meets the pivot characterisation: the first index of the maximum of s[k..n] when that maximum exceeds -1, and k otherwise |
| Csvd.PivotUnique | src/csvd.rs:457-466 | at most one index meets that characterisation, so the pivot of every pass is determined |
| Csvd.SelectPivot | src/csvd.rs:457-466 | the pivot search returns the index that characterisation names, and g = max(-1, max of s[k..n]) |
| Csvd.SwapColumns | src/csvd.rs:473-488 | rows 0..rows of columns j and k are interchanged and no other entry changes |
| Csvd.ExchangeRowExtends | src/csvd.rs:474-478 | exchanging row i of the two columns extends an exchange of rows 0..i to rows 0..i+1 |
| Csvd.ExchangeRowKeepsOthers | src/csvd.rs:474-478 | that exchange keeps every entry outside rows 0..i+1 of the two columns |
| Csvd.SwapComposesPermutation | src/csvd.rs:468-488 | interchanging columns j and k of a column-permuted matrix composes the permutation with the transposition (j k) |
| Csvd.SwapPermutedColumns | src/csvd.rs:473-488 | the column swap keeps the columns of U (or V) the original ones, rearranged by the new permutation |
| Csvd.ExchangeKeepsMultiset | src/csvd.rs:468-470 | exchanging s[j] and s[k] keeps the multiset of s[0..n] |
| Csvd.ExchangeStep | src/csvd.rs:468-470 | moving the maximum of s[k..n] to position k keeps s a rearrangement of the original values and extends the sorted prefix by one |
| Csvd.PassStep | src/csvd.rs:457-470 | exchanging s[k] with the pivot is one step of the reference sort, keeps s a rearrangement of the input and extends the sorted prefix |
| Csvd.SelectionOrderArranges | src/csvd.rs:456-499 | the remaining passes of the reference sort keep s a rearrangement of the input and complete the sorted prefix |
| Csvd.SelectionOrderSorts | src/csvd.rs:456-499 | the reference sort of s[0..n] keeps s[n..], rearranges s[0..n] by a permutation (same multiset), and leaves it descending when every value exceeds -1 |
| Csvd.SortPass | src/csvd.rs:457-498 | j is the pivot of s[k..n]; s becomes old s with s[j] and s[k] exchanged (unchanged when j = k); the permutation gets the same exchange; when j != k, rows 0..n of columns j and k of V (if nv > 0) and of U (stride m, if nu > 0) are interchanged and nothing else changes, and otherwise V and U are untouched; the pass is one step of the reference sort |
| Csvd.SortDescending | src/csvd.rs:456-499 | s and the permutation are exactly those of the reference sort, so the order among equal values is fixed; s[0..n] ends as a permutation of its input, descending whenever every value exceeds -1; the tail is kept; when nv > 0 (nu > 0) rows 0..n of the columns of V (U) move with their values and every other entry, including rows n..m of U, is unchanged; V (U) is untouched when nv = 0 (nu = 0) |
| Csvd.LoadBidiagonal | src/csvd.rs:126-198 | b[0..n] holds the column norms; c[0] = 0 (never written) and c[k+1] holds the row norm of row k |
| Csvd.SignStep | src/csvd.rs:443-451 | normalising the sign of index k extends the negated columns of V from k+1..n to k..n and keeps every other entry |
| Csvd.InstallConverged | src/csvd.rs:292-451 | after the convergence points for k = n-1 down to 0, s[0..n] holds the magnitudes of the converged values. When nv > 0, rows 0..n of column c of V are negated exactly when converged[c] < 0. Every entry of V outside rows 0..n of columns 0..n is unchanged, and V is untouched when nv = 0 |
| Csvd.Csvd | src/csvd.rs:103-499 | the result is the argument check, and on failure nothing is written. On success s[0..n] is descending, non-negative and the multiset of the converged magnitudes; eps = ETA * max(0, b[k] + c[k]) >= 0; t[0] = 0 <= eps; U (V) is untouched when nu = 0 (nv = 0) |
| PseudoInverse.Reciprocal | src/lib.rs:175-186 | above the cut-off 0.0001 the result r is positive with r * x = 1; at or below it (0 and negatives included) r is exactly 0, so nothing is divided by zero |
| PseudoInverse.TakeReciprocals | src/lib.rs:179-186 | s[i] becomes Reciprocal(s[i]) for i < n and the rest of s is kept |
| PseudoInverse.PadWithZeros | src/lib.rs:188-192 | s gains exactly max(0, m - n) zeros at its end |
| PseudoInverse.PinvSumReadsLeadingValues | src/lib.rs:198-199 | an entry depends on s[0..n] only, so the padding is never read |
| PseudoInverse.AccumulateEntry | src/lib.rs:196-200 | INV[p] is cleared and then receives the sum over k < n of V[i][k] * s[k] * conj(U[j][k]), added in order; no other position changes |
| PseudoInverse.FillRow | src/lib.rs:195-201 | row i of INV, at positions i*n .. i*n + m - 1, receives entries (i, 0) .. (i, m-1); no other position changes |
| PseudoInverse.RowStep | src/lib.rs:194-202 | writing row r keeps every earlier entry that no later row overwrote, and every position no row covers |
| PseudoInverse.FillInverse | src/lib.rs:194-202 | every entry (i, j) whose position no later row overwrites holds entry (i, j) of V * S+ * U*; positions no row writes keep their old values |
| PseudoInverse.NarrowEntriesSurvive | src/lib.rs:194-202 | when m <= n no write is overwritten, so INV holds the whole product |
| PseudoInverse.SingleRowWhole | src/lib.rs:194-202 | with one row (n = 1) every entry survives and every one of the m positions is written |
| PseudoInverse.WideEntriesCollide | src/lib.rs:194-202 | when 2 <= n < m, entry (0, n) lands on entry (1, 0) and is replaced by it, and position (n-1)*n + m inside the n*m buffer is never written |
| PseudoInverse.FindPinvFromSvd | src/lib.rs:171-203 | s grows by max(0, m - n) zeros after its thresholded reciprocals; INV holds V * S+ * U* at every surviving position; unwritten positions are kept |
| PseudoInverse.Pinv | src/lib.rs:137-165 | the result is csvd's check with nu = m and nv = n, and on failure INV is untouched; on success the singular values are descending, S+ has length m, the reciprocals come first and the padding is zero, U and V have m*m and n*n entries, and INV holds V * S+ * U* at every surviving position, entirely so when m = n or n = 1 |
| PseudoInverse.RowColSumIdentity | src/lib.rs:251-257 | multiplying by the identity yields entry A[i][j] |
| PseudoInverse.AccumulateProduct | src/lib.rs:253-255 | C[p] gains the sum over k < aCols of A[i][k] * B[k][j], in order; nothing else changes |
| PseudoInverse.MultRow | src/lib.rs:252-256 | row i of C gains its row of A * B; positions outside row i are unchanged |
| PseudoInverse.MultStep | src/lib.rs:251-257 | accumulating row i into C, whose rows 0..i-1 are done and whose later positions are untouched, gives rows 0..i |
| PseudoInverse.MatrixMult | src/lib.rs:205-260 | fails with "Matrix dimension not compatible!" if and only if aCols != bRows, and leaves C unchanged then; otherwise C[i][j] ends as its old value plus the sum over k of A[i][k] * B[k][j] (accumulated, not overwritten); positions from aRows*bCols on are unchanged |

## Left out

- The Householder bidiagonalisation (src/csvd.rs:134-230), the cancellation and origin-shift QR sweeps (src/csvd.rs:316-437) and the back transformation (src/csvd.rs:502-565). These are f32 arithmetic on `sqrt` and `powf`, and their results hold only within rounding. The QR `loop` also has no iteration bound.
- Csvd.Csvd: the results of those phases are parameters (`colNorms`, `rowNorms`, `converged`). It does not model the rotations they apply to U and V, so it states nothing about the final contents of U and V beyond "untouched when nu = 0 (nv = 0)".
- Csvd.Csvd: the input matrix A, which csvd overwrites in the Householder phase, is not a parameter of the model.
- Csvd.QrStepStoresT: the stores of the cancellation loop (`t[i] = cs * t[i]`) are left out. That loop only runs when l > 0 (see Csvd.SplitPoint), so it never writes t[0].
- PseudoInverse.Pinv: the U and V in its INV clause are the buffers the modelled csvd leaves. These are identity columns, with the columns of V sign-flipped, rearranged by the sort; they are not the source's unitary factors, because the rotations are not modelled (see Csvd.Csvd). The INV clause therefore fixes the layout and the order of summation, not the numerical values.
- `mmax` and `nmax` are not parameters; the Rust body never reads them.
- The p > 0 path (extra columns of A) is not modelled; p = 0 is the only configuration.
- Csvd.InitIdentity: requires cols <= dim. The source does not check this. With nu > m, the writes at src/csvd.rs:250 would spill into the next row of U. The doc comment describes U and V as the first NU and NV columns of the M-column U and the N-column V (src/csvd.rs:56-64). `pinv` passes nu = m and nv = n (src/lib.rs:159).
- Csvd.Csvd: requires nu <= m and nv <= n, for the same reason. The argument check at src/csvd.rs:109-123 tests only n and m.
- Buffer lengths the source would index out of range (a Rust panic) are excluded by preconditions rather than modelled as errors. This covers `matrix_mult`'s slicing before its dimension check.
- Integer overflow of `usize` products is not modelled; integers are unbounded.
- Csvd.SortDescending: the claim that s ends descending is made only when every value exceeds -1, which holds after sign normalisation. When some value is at most -1, the result need not be sorted: such a value is never chosen as a pivot and stays where earlier exchanges leave it.
- The Vec push loops of `pinv` for U and V are modelled as freshly allocated zero-filled arrays of m*m and n*n entries. The push loop for s is modelled.
- `aligned_alloc` and its variants (src/lib.rs:21-132) are unsafe memory-layout plumbing.
- src/main.rs and src/test.rs are not part of this model. The first is an older prototype the library does not export; the second is a test harness.
- Logging, and f32 rounding everywhere: reals are exact, and `1/s[i]` is an exact reciprocal.
