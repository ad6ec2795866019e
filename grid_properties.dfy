/**
  What the row-major layout of `Grid` gives its callers: which coordinates
  `get` finds, how rows and columns cover the buffer, how `map` and `or` act
  cell by cell, and a few client programs that exercise the operations
  together.
*/
module GridProperties {
  import opened Options
  import opened Griddy

  /** `get` finds every cell with x < width and y < height, at offset x + y * width. */
  lemma GetCell<T>(g: Grid<T>, x: nat, y: nat)
    requires g.Valid() && x < g.width && y < g.height
    ensures x + y * g.width < |g.data| && g.Get(x, y) == Some(g.data[x + y * g.width])
  {
    RowMajorInBounds(g.width, g.height, x, y);
  }

  /** `get` finds nothing in a row at or beyond the height, whatever x is. */
  lemma GetBeyondLastRow<T>(g: Grid<T>, x: nat, y: nat)
    requires g.Valid() && g.height <= y
    ensures g.Get(x, y) == None
  {
    MulMonotone(g.height, y, g.width);
  }

  /** `get` is absent exactly when the linear offset is at or past width * height. */
  lemma GetAbsentIff<T>(g: Grid<T>, x: nat, y: nat)
    requires g.Valid()
    ensures g.Get(x, y) == None <==> g.width * g.height <= x + y * g.width
  {
  }

  /**
    The bounds check is on the offset only: a column at or past the width is
    the same cell as that column minus the width, one row further down.
  */
  lemma GetWrapsIntoNextRow<T>(g: Grid<T>, x: nat, y: nat)
    requires g.width <= x
    ensures g.Get(x, y) == g.Get(x - g.width, y + 1)
  {
    MulSucc(y, g.width);
  }

  /** On a 3 x 2 grid, `get(3, 0)` is the cell (0, 1) and `get(0, 2)` is absent. */
  lemma GetAliasingThreeByTwo<T>(g: Grid<T>)
    requires g.Valid() && g.width == 3 && g.height == 2
    ensures g.Get(3, 0) == g.Get(0, 1) == Some(g.data[3])
    ensures g.Get(0, 2) == None
  {
  }

  /** Every row below the height is a slice `iter_row` accepts. */
  lemma RowInBounds<T>(g: Grid<T>, row: nat)
    requires g.Valid() && row < g.height
    ensures row * g.width + g.width <= |g.data|
  {
    MulSucc(row, g.width);
    MulMonotone(row + 1, g.height, g.width);
  }

  /** The first n rows of the grid, concatenated. */
  ghost function ConcatRows<T>(g: Grid<T>, n: nat): seq<T>
    reads g
    requires g.Valid() && n <= g.height
  {
    if n == 0 then []
    else
      RowInBounds(g, n - 1);
      ConcatRows(g, n - 1) + g.IterRow(n - 1)
  }

  /**
    The rows `iter_row` yields tile the buffer in order: the first n rows
    are its first n * width cells, so all height rows are `flatten()`.
  */
  lemma {:induction false} RowsCoverBuffer<T>(g: Grid<T>, n: nat)
    requires g.Valid() && n <= g.height
    ensures n * g.width <= |g.data| && ConcatRows(g, n) == g.data[..n * g.width]
    ensures n == g.height ==> ConcatRows(g, n) == g.Flatten()
  {
    if n > 0 {
      RowsCoverBuffer(g, n - 1);
      RowInBounds(g, n - 1);
      MulSucc(n - 1, g.width);
      PrefixSplit(g.data, (n - 1) * g.width, n * g.width);
    }
  }

  /** A prefix of s up to j is its prefix up to i followed by the slice [i, j). */
  lemma PrefixSplit<T>(s: seq<T>, i: nat, j: nat)
    requires i <= j <= |s|
    ensures s[..j] == s[..i] + s[i..j]
  {
  }

  /**
    For a column below the width, `iter_col` yields exactly height cells, and
    the y-th of them is the cell `get(col, y)` finds.
  */
  lemma IterColCells<T>(g: Grid<T>, col: nat)
    requires g.Valid() && col < g.width && col <= |g.data|
    ensures |g.IterCol(col)| == g.height
    ensures forall y :: 0 <= y < g.height ==> g.Get(col, y) == Some(g.IterCol(col)[y])
  {
    var r, w, h := g.IterCol(col), g.width, g.height;
    var n := |r|;
    if n < h {
      MulSucc(n, w);
      MulMonotone(n + 1, h, w);
      assert false;
    } else if h < n {
      assert false;
    }
  }

  /**
    For a column at or past the width (and inside the buffer), `iter_col`
    yields fewer than height cells: only the column of the full width
    gives one cell per row.
  */
  lemma IterColPastWidth<T>(g: Grid<T>, col: nat)
    requires g.Valid() && 0 < g.width <= col <= |g.data|
    ensures |g.IterCol(col)| < g.height
  {
    var r, w, h := g.IterCol(col), g.width, g.height;
    if |r| > 0 {
      var k := |r| - 1;
      assert col + k * w < |g.data| && r[k] == g.data[col + k * w];
      MulSucc(k, w);
      MulCancelLess(|r|, h, w);
    }
  }

  /** Cell by cell, `map(f)` applies f to whatever `get` finds at the same coordinate. */
  lemma MapCells<T, U>(g: Grid<T>, r: Grid<U>, f: T -> U)
    requires r.width == g.width && r.data == MapSeq(g.data, f)
    ensures forall x, y :: r.Get(x, y) == if g.Get(x, y).Some? then Some(f(g.Get(x, y).value)) else None
  {
  }

  /**
    Cell by cell, `a.or(b)` finds a cell exactly where `a` does, and that cell
    is `Option::or` of the two cells at the same coordinate.
  */
  lemma OrCells<T>(a: Grid<Option<T>>, b: Grid<Option<T>>, r: Grid<Option<T>>)
    requires a.width == b.width == r.width && |a.data| == |b.data|
    requires r.data == ZipOr(a.data, b.data)
    ensures forall x, y :: r.Get(x, y) == if a.Get(x, y).Some? then Some(a.Get(x, y).value.Or(b.Get(x, y).value)) else None
  {
  }

  /** `from_vec(vec, width)` followed by `flatten()` or `into_vec()` gives back vec. */
  method FromVecRoundTrip<T>(vec: seq<T>, width: nat) returns (height: nat, flat: seq<T>, owned: seq<T>)
    requires width > 0 && |vec| % width == 0
    ensures height * width == |vec|
    ensures flat == vec && owned == vec
  {
    var g := new Grid<T>.FromVec(vec, width);
    height := g.Height();
    flat := g.Flatten();
    owned := g.IntoVec();
  }

  /** `fill(v)` then `iter()` yields width * height copies of v, whatever the grid held. */
  method FillThenIter<T>(g: Grid<T>, value: T) returns (cells: seq<T>)
    requires g.Valid()
    modifies g
    ensures |cells| == g.width * g.height
    ensures forall i :: 0 <= i < |cells| ==> cells[i] == value
  {
    g.Fill(value);
    cells := g.Iter();
  }

  /** After `clear()` the grid is empty and its size is (0, 0). */
  method ClearThenEmpty<T>(width: nat, height: nat, value: T) returns (empty: bool, size: (nat, nat))
    ensures empty && size == (0, 0)
  {
    var g := new Grid<T>.Init(width, height, value);
    g.Clear();
    empty := g.IsEmpty();
    size := g.Size();
  }

  /** On the 3 x 2 grid 0..5, `get(3, 0)` aliases into row 1 while `get(0, 2)` is absent. */
  method AliasingOnThreeByTwo() returns (wrapped: Option<int>, below: Option<int>)
    ensures wrapped == Some(3) && below == None
  {
    var g := new Grid<int>.FromVec([0, 1, 2, 3, 4, 5], 3);
    wrapped := g.Get(3, 0);
    below := g.Get(0, 2);
  }

  /** `or` of two 2 x 2 grids whose present cells are disjoint holds every present cell. */
  method OrDisjoint() returns (cells: seq<Option<int>>)
    ensures cells == [Some(1), Some(2), Some(3), Some(4)]
  {
    var a := new Grid<Option<int>>.FromVec([Some(1), None, None, Some(4)], 2);
    var b := new Grid<Option<int>>.FromVec([None, Some(2), Some(3), None], 2);
    var r := Or(a, b);
    cells := r.IntoVec();
  }
}
