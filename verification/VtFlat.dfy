/** Row-major storage: a grid of rows laid out in one array, as apps/terminal/vt100.c keeps it. */
module VtFlat {
  import opened VtModel

  /** Where row `n` starts. */
  function Off(n: nat, cols: nat): nat {
    n * cols
  }

  lemma OffAdd(a: nat, b: nat, cols: nat)
    ensures Off(a + b, cols) == Off(a, cols) + Off(b, cols)
  {}

  /** Rows do not overlap. */
  lemma OffBefore(a: nat, b: nat, cols: nat)
    requires a < b
    ensures Off(a, cols) + cols <= Off(b, cols)
  {
    var d := b - a - 1;
    assert d * cols >= 0;
    assert b * cols == a * cols + cols + d * cols;
  }

  /** The array holds the grid, row after row. */
  predicate Stored(a: seq<Cell>, g: seq<Row>, cols: nat) {
    && |a| == Off(|g|, cols)
    && (forall r :: 0 <= r < |g| ==> |g[r]| == cols)
    && forall r, c {:trigger g[r][c]} ::
         0 <= r < |g| && 0 <= c < cols && Off(r, cols) + c < |a| ==> a[Off(r, cols) + c] == g[r][c]
  }

  /** `b` is `a` with `n` cells copied from `src` to `dst`, as memmove does. */
  predicate CellsCopied(a: seq<Cell>, b: seq<Cell>, dst: nat, src: nat, n: nat) {
    && |a| == |b| && dst + n <= |a| && src + n <= |a|
    && forall k {:trigger b[k]} :: 0 <= k < |b| ==>
         b[k] == if dst <= k < dst + n then a[k - dst + src] else a[k]
  }

  lemma CellOffset(r: nat, c: nat, rows: nat, cols: nat)
    requires r < rows && c < cols
    ensures Off(r, cols) + c < Off(rows, cols)
  {
    OffBefore(r, rows, cols);
  }

  lemma CellRead(a: seq<Cell>, g: seq<Row>, cols: nat, r: nat, c: nat)
    requires Stored(a, g, cols) && r < |g| && c < cols
    ensures Off(r, cols) + c < |a| && a[Off(r, cols) + c] == g[r][c]
  {
    CellOffset(r, c, |g|, cols);
    var x := g[r][c];
  }

  /** Copying whole rows copies the rows of the grid. */
  lemma RowsCopied(a: seq<Cell>, b: seq<Cell>, g: seq<Row>, cols: nat, dst: nat, src: nat, n: nat)
    requires Stored(a, g, cols) && dst + n <= |g| && src + n <= |g|
    requires CellsCopied(a, b, Off(dst, cols), Off(src, cols), Off(n, cols))
    ensures Stored(b, RowsMoved(g, dst, src, n), cols)
  {
    var h := RowsMoved(g, dst, src, n);
    forall r, c {:trigger h[r][c]} | 0 <= r < |h| && 0 <= c < cols
      ensures Off(r, cols) + c < |b| && b[Off(r, cols) + c] == h[r][c]
    {
      RowCopied(a, b, g, cols, dst, src, n, r, c);
    }
  }

  lemma CopiedAt(a: seq<Cell>, b: seq<Cell>, dst: nat, src: nat, n: nat, k: nat)
    requires CellsCopied(a, b, dst, src, n) && k < |b|
    ensures dst <= k < dst + n ==> b[k] == a[k - dst + src]
    ensures k < dst || dst + n <= k ==> b[k] == a[k]
  {}

  lemma RowCopied(a: seq<Cell>, b: seq<Cell>, g: seq<Row>, cols: nat, dst: nat, src: nat, n: nat, r: nat, c: nat)
    requires Stored(a, g, cols) && dst + n <= |g| && src + n <= |g| && r < |g| && c < cols
    requires CellsCopied(a, b, Off(dst, cols), Off(src, cols), Off(n, cols))
    ensures Off(r, cols) + c < |b|
    ensures b[Off(r, cols) + c] == g[if dst <= r < dst + n then src + (r - dst) else r][c]
  {
    CellRead(a, g, cols, r, c);
    OffAdd(dst, n, cols);
    CopiedAt(a, b, Off(dst, cols), Off(src, cols), Off(n, cols), Off(r, cols) + c);
    if r < dst {
      OffBefore(r, dst, cols);
    } else if r < dst + n {
      var m := r - dst;
      OffAdd(dst, m, cols);
      OffAdd(src, m, cols);
      OffBefore(m, n, cols);
      CellRead(a, g, cols, src + m, c);
    } else {
      OffAdd(dst + n, r - (dst + n), cols);
    }
  }

  /** Copying cells within one row changes only that row. */
  lemma RowCellsCopied(a: seq<Cell>, b: seq<Cell>, g: seq<Row>, cols: nat,
                       r: nat, to: nat, from: nat, dst: nat, src: nat, n: nat)
    requires Stored(a, g, cols) && r < |g| && dst + n <= cols && src + n <= cols
    requires to == Off(r, cols) + dst && from == Off(r, cols) + src && CellsCopied(a, b, to, from, n)
    ensures Stored(b, g[r := CellsMoved(g[r], dst, src, n)], cols)
  {
    var h := g[r := CellsMoved(g[r], dst, src, n)];
    forall i, c {:trigger h[i][c]} | 0 <= i < |h| && 0 <= c < cols
      ensures Off(i, cols) + c < |b| && b[Off(i, cols) + c] == h[i][c]
    {
      CellCopied(a, b, g, cols, r, dst, src, n, i, c);
    }
  }

  lemma CellCopied(a: seq<Cell>, b: seq<Cell>, g: seq<Row>, cols: nat,
                   r: nat, dst: nat, src: nat, n: nat, i: nat, c: nat)
    requires Stored(a, g, cols) && r < |g| && dst + n <= cols && src + n <= cols && i < |g| && c < cols
    requires CellsCopied(a, b, Off(r, cols) + dst, Off(r, cols) + src, n)
    ensures Off(i, cols) + c < |b|
    ensures b[Off(i, cols) + c] == g[r := CellsMoved(g[r], dst, src, n)][i][c]
  {
    Apart(i, c, r, |g|, cols);
    CellRead(a, g, cols, i, c);
    CopiedAt(a, b, Off(r, cols) + dst, Off(r, cols) + src, n, Off(i, cols) + c);
    if i == r && dst <= c < dst + n {
      CellRead(a, g, cols, i, c - dst + src);
    }
  }

  /** A cell of another row lies outside row `r`. */
  lemma Apart(i: nat, c: nat, r: nat, rows: nat, cols: nat)
    requires i < rows && r < rows && c < cols
    ensures Off(i, cols) + c < Off(rows, cols)
    ensures i < r ==> Off(i, cols) + c < Off(r, cols)
    ensures r < i ==> Off(r, cols) + cols <= Off(i, cols)
  {
    CellOffset(i, c, rows, cols);
    if i < r {
      OffBefore(i, r, cols);
    } else if r < i {
      OffBefore(r, i, cols);
    }
  }

  lemma CellStored(a: seq<Cell>, g: seq<Row>, cols: nat, r: nat, c: nat, x: Cell)
    requires Stored(a, g, cols) && r < |g| && c < cols
    ensures Off(r, cols) + c < |a| && a[Off(r, cols) + c] == g[r][c]
    ensures Stored(a[Off(r, cols) + c := x], g[r := g[r][c := x]], cols)
  {
    CellRead(a, g, cols, r, c);
    var b, h := a[Off(r, cols) + c := x], g[r := g[r][c := x]];
    forall i, j {:trigger h[i][j]} | 0 <= i < |h| && 0 <= j < cols
      ensures Off(i, cols) + j < |b| && b[Off(i, cols) + j] == h[i][j]
    {
      Apart(i, j, r, |g|, cols);
      CellRead(a, g, cols, i, j);
      assert h[i][j] == if i == r && j == c then x else g[i][j];
    }
  }

  lemma RowStored(a: seq<Cell>, g: seq<Row>, cols: nat, r: nat)
    requires Stored(a, g, cols) && r < |g|
    ensures Off(r, cols) + cols <= |a| && a[Off(r, cols)..Off(r, cols) + cols] == g[r]
  {
    OffBefore(r, |g|, cols);
    var s := a[Off(r, cols)..Off(r, cols) + cols];
    forall c | 0 <= c < cols
      ensures s[c] == g[r][c]
    {
      CellRead(a, g, cols, r, c);
    }
  }
}
