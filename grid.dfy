/**
 * The sheet's cell grid as the script sees it through the spreadsheet service:
 * a sequence of rows, each a sequence of cell values. Row and column numbers are
 * 1-based, as in `getRange(row, column, …)` and `deleteRow(row)`; row 1 is the header.
 *
 * A range write or a row deletion that the service would reject is modelled as a
 * range outside the grid's extent (`RangeFits`, `RowExists`).
 */
module Cells {

  /** A cell value. The model restricts cells to text; "" is the empty cell. */
  type Value = string

  type Grid = seq<seq<Value>>

  /** The `width` cells starting at (row, col) exist: the service accepts a write there. */
  predicate RangeFits(g: Grid, row: int, col: int, width: int)
  {
    1 <= row <= |g| && 1 <= col && 1 <= width && col - 1 + width <= |g[row - 1]|
  }

  /** Row `row` exists: the service accepts `deleteRow(row)`. */
  predicate RowExists(g: Grid, row: int)
  {
    1 <= row <= |g|
  }

  /** Two grids have the same rows, each of the same length. */
  predicate SameShape(g: Grid, h: Grid)
  {
    |g| == |h| && forall i :: 0 <= i < |g| ==> |g[i]| == |h[i]|
  }

  /** No element occurs twice. */
  predicate Distinct<T(==)>(s: seq<T>)
  {
    forall i, j :: 0 <= i < j < |s| ==> s[i] != s[j]
  }

  /** Cell (r, c), 1-based, exists in the grid. */
  predicate InGrid(g: Grid, r: int, c: int)
  {
    1 <= r <= |g| && 1 <= c <= |g[r - 1]|
  }

  /** `getRange(row, col, 1, |vs|).setValues([vs])`: cells (row, col..col+|vs|-1) become `vs`;
      every other cell keeps its value and the grid keeps its shape. */
  function WriteRange(g: Grid, row: int, col: int, vs: seq<Value>): (h: Grid)
    requires RangeFits(g, row, col, |vs|)
    ensures SameShape(g, h)
    ensures forall r, c :: InGrid(g, r, c) ==>
      h[r - 1][c - 1] == if r == row && col <= c < col + |vs| then vs[c - col] else g[r - 1][c - 1]
  {
    var line := g[row - 1];
    g[row - 1 := line[..col - 1] + vs + line[col - 1 + |vs|..]]
  }

  /** `deleteRow(row)`: the rows below move up by one. */
  function DeleteRow(g: Grid, row: int): (h: Grid)
    requires RowExists(g, row)
    ensures |h| == |g| - 1
    ensures forall i :: 0 <= i < |h| ==> h[i] == if i < row - 1 then g[i] else g[i + 1]
  {
    g[..row - 1] + g[row..]
  }

  /** The grid without the rows whose numbers are in `s`, where the first row of `g`
      has number `first`; the other rows keep their relative order. */
  function Without(g: Grid, s: set<int>, first: int): (h: Grid)
    decreases |g|
  {
    if g == [] then []
    else (if first in s then [] else [g[0]]) + Without(g[1..], s, first + 1)
  }

  lemma {:induction false} WithoutAppend(g: Grid, h: Grid, s: set<int>, first: int)
    ensures Without(g + h, s, first) == Without(g, s, first) + Without(h, s, first + |g|)
    decreases |g|
  {
    if g == [] {
      assert g + h == h;
    } else {
      assert (g + h)[1..] == g[1..] + h;
      WithoutAppend(g[1..], h, s, first + 1);
    }
  }

  /** Only the numbers of rows of `g` matter to `Without`. */
  lemma {:induction false} WithoutLocal(g: Grid, s: set<int>, t: set<int>, first: int)
    requires forall n :: first <= n < first + |g| ==> (n in s <==> n in t)
    ensures Without(g, s, first) == Without(g, t, first)
    decreases |g|
  {
    if g != [] {
      WithoutLocal(g[1..], s, t, first + 1);
    }
  }

  /** Removing no row of `g` leaves `g`. */
  lemma {:induction false} WithoutNone(g: Grid, s: set<int>, first: int)
    requires forall n :: n in s ==> n < first || first + |g| <= n
    ensures Without(g, s, first) == g
    decreases |g|
  {
    if g != [] {
      WithoutNone(g[1..], s, first + 1);
      assert [g[0]] + g[1..] == g;
    }
  }

  /** Removing rows never adds any. */
  lemma {:induction false} WithoutShorter(g: Grid, s: set<int>, first: int)
    ensures |Without(g, s, first)| <= |g|
    decreases |g|
  {
    if g != [] {
      WithoutShorter(g[1..], s, first + 1);
    }
  }

  /** Once the rows `s`, all numbered above `row`, are gone, row `row` is still in
      place, and deleting it removes exactly the original rows `s + {row}`: the rows
      above were not renumbered by the earlier deletions. */
  lemma DeleteBelow(g: Grid, row: int, s: set<int>)
    requires RowExists(g, row)
    requires forall n :: n in s ==> n > row
    ensures RowExists(Without(g, s, 1), row)
    ensures DeleteRow(Without(g, s, 1), row) == Without(g, s + {row}, 1)
  {
    var pre, mid, post := g[..row - 1], [g[row - 1]], g[row..];
    var t := s + {row};
    var rest := Without(post, s, row + 1);
    assert g == (pre + mid) + post;
    calc {
      Without((pre + mid) + post, s, 1);
      { WithoutAppend(pre + mid, post, s, 1); }
      Without(pre + mid, s, 1) + rest;
      { WithoutNone(pre + mid, s, 1); }
      (pre + mid) + rest;
    }
    assert DeleteRow((pre + mid) + rest, row) == pre + rest;
    calc {
      Without((pre + mid) + post, t, 1);
      { WithoutAppend(pre + mid, post, t, 1); }
      Without(pre + mid, t, 1) + Without(post, t, row + 1);
      { WithoutLocal(post, t, s, row + 1); }
      Without(pre + mid, t, 1) + rest;
      { WithoutAppend(pre, mid, t, 1); }
      Without(pre, t, 1) + Without(mid, t, row) + rest;
      { WithoutNone(pre, t, 1); }
      pre + rest;
    }
  }
}
