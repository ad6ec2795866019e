/**
  A dense two-dimensional grid over one row-major buffer: the cell at
  column x and row y is stored at linear offset x + y * width.

  The sequence functions at the top model the standard-library pieces the
  grid is built from (`vec![v; n]`, `map`/`collect`, `zip`, `step_by`); the
  class `Grid` holds the three fields of the Rust struct.
*/
module Griddy {
  import opened Options

  /** `vec![value; n]`, and `resize_with(n, default)` on an empty vector: n copies of value. */
  function Repeat<T>(value: T, n: nat): (r: seq<T>)
    ensures |r| == n
    ensures forall i :: 0 <= i < n ==> r[i] == value
  {
    if n == 0 then [] else Repeat(value, n - 1) + [value]
  }

  /** `s.into_iter().map(f).collect()`: f applied to every element, in order. */
  function MapSeq<T, U>(s: seq<T>, f: T -> U): (r: seq<U>)
    ensures |r| == |s|
    ensures forall i :: 0 <= i < |s| ==> r[i] == f(s[i])
  {
    if s == [] then [] else [f(s[0])] + MapSeq(s[1..], f)
  }

  /**
    `a.into_iter().zip(b.into_iter()).map(|(x, y)| x.or(y)).collect()`:
    pairs elements by position, stops at the end of the shorter input, and
    keeps the left element when it is present.
  */
  function ZipOr<T>(a: seq<Option<T>>, b: seq<Option<T>>): (r: seq<Option<T>>)
    ensures |r| == if |a| <= |b| then |a| else |b|
    ensures forall i :: 0 <= i < |r| ==> r[i] == if a[i].Some? then a[i] else b[i]
  {
    if a == [] || b == [] then [] else [a[0].Or(b[0])] + ZipOr(a[1..], b[1..])
  }

  /**
    `s.iter().step_by(step)`: the first element, then every step-th one after
    it. The result holds exactly the elements at indices k * step below |s|.
  */
  function StepBy<T>(s: seq<T>, step: nat): (r: seq<T>)
    requires step > 0
    ensures |s| <= |r| * step
    ensures forall k :: 0 <= k < |r| ==> k * step < |s| && r[k] == s[k * step]
    decreases |s|
  {
    if |s| == 0 then []
    else if |s| <= step then
      assert 1 * step == step;
      [s[0]]
    else
      var rest := StepBy(s[step..], step);
      StepByCons(s, step, rest);
      [s[0]] + rest
  }

  /** One step of StepBy: prepending s[0] to the stepped rest s[step..] keeps its contract. */
  lemma StepByCons<T>(s: seq<T>, step: nat, rest: seq<T>)
    requires 0 < step < |s|
    requires |s[step..]| <= |rest| * step
    requires forall k :: 0 <= k < |rest| ==> k * step < |s[step..]| && rest[k] == s[step..][k * step]
    ensures |s| <= (|rest| + 1) * step
    ensures forall k :: 0 <= k < |rest| + 1 ==> k * step < |s| && ([s[0]] + rest)[k] == s[k * step]
  {
    MulSucc(|rest|, step);
    forall k | 1 <= k < |rest| + 1
      ensures k * step < |s| && ([s[0]] + rest)[k] == s[k * step]
    {
      var j := k - 1;
      MulSucc(j, step);
      assert j * step < |s[step..]| && rest[j] == s[step..][j * step];
      assert s[step..][j * step] == s[k * step];
    }
  }

  /** Stepping through the suffix s[col..] visits the offsets col + k * step of s. */
  lemma StepBySuffix<T>(s: seq<T>, col: nat, step: nat, r: seq<T>)
    requires col <= |s|
    requires |s[col..]| <= |r| * step
    requires forall k :: 0 <= k < |r| ==> k * step < |s[col..]| && r[k] == s[col..][k * step]
    ensures |s| <= col + |r| * step
    ensures forall k :: 0 <= k < |r| ==> col + k * step < |s| && r[k] == s[col + k * step]
  {
    forall k | 0 <= k < |r|
      ensures col + k * step < |s| && r[k] == s[col + k * step]
    {
      assert k * step < |s[col..]| && r[k] == s[col..][k * step];
    }
  }

  /** (n + 1) * w == n * w + w. */
  lemma MulSucc(n: nat, w: nat)
    ensures (n + 1) * w == n * w + w
  {
  }

  /** Offset i of a buffer with rows of w cells is column i % w of row i / w. */
  lemma RowMajorIndex(w: nat, n: nat)
    ensures w > 0 ==> forall i :: 0 <= i < n ==> i % w < w && i % w + (i / w) * w == i
  {
    if w > 0 {
      forall i | 0 <= i < n
        ensures i % w < w && i % w + (i / w) * w == i
      {
        assert i == (i / w) * w + i % w;
      }
    }
  }

  /** Multiplying by a natural number reflects strict order. */
  lemma MulCancelLess(a: nat, b: nat, w: nat)
    requires a * w < b * w
    ensures a < b
  {
    if b <= a {
      MulMonotone(b, a, w);
      assert false;
    }
  }

  /** Every in-range coordinate lands inside a buffer of w * h cells. */
  lemma RowMajorInBounds(w: nat, h: nat, x: nat, y: nat)
    ensures x < w && y < h ==> x + y * w < w * h
  {
    if x < w && y < h {
      MulSucc(y, w);
      MulMonotone(y + 1, h, w);
    }
  }

  class Grid<T> {
    var width: nat
    var height: nat
    var data: seq<T>

    /** The representation invariant: one buffer cell per grid cell. */
    ghost predicate Valid()
      reads this
    {
      |data| == width * height
    }

    /** The struct literal `Grid { width, height, data }`. */
    constructor FromParts(width: nat, height: nat, data: seq<T>)
      requires |data| == width * height
      ensures Valid()
      ensures this.width == width && this.height == height && this.data == data
    {
      this.width := width;
      this.height := height;
      this.data := data;
    }

    /** `Grid::new`: width * height cells, each the element type's default value. */
    constructor New(width: nat, height: nat, default: T)
      ensures Valid()
      ensures this.width == width && this.height == height
      ensures data == Repeat(default, width * height)
    {
      this.width := width;
      this.height := height;
      this.data := Repeat(default, width * height);
    }

    /** `Grid::init`: width * height clones of value. */
    constructor Init(width: nat, height: nat, value: T)
      ensures Valid()
      ensures this.width == width && this.height == height
      ensures data == Repeat(value, width * height)
    {
      this.width := width;
      this.height := height;
      this.data := Repeat(value, width * height);
    }

    /**
      `Grid::from_vec`: adopts vec as the buffer and derives the height. The
      source panics when width is 0 (remainder by zero) and when the length
      is not a multiple of width.
    */
    constructor FromVec(vec: seq<T>, width: nat)
      requires width > 0 && |vec| % width == 0
      ensures Valid()
      ensures this.width == width && height == |vec| / width && data == vec
    {
      this.width := width;
      this.height := |vec| / width;
      this.data := vec;
    }

    /**
      `Grid::get`: the cell at linear offset x + y * width, if that offset is
      inside the buffer. Only the offset is bounds-checked, so x >= width
      reaches into a later row.
    */
    function Get(x: nat, y: nat): (r: Option<T>)
      reads this
      ensures r.Some? ==> x + y * width < |data| && r.value == data[x + y * width]
      ensures Valid() ==> (r.None? <==> width * height <= x + y * width)
      ensures Valid() && x < width && y < height ==> r.Some?
    {
      var i := x + y * width;
      if i < |data| then Some(data[i])
      else
        RowMajorInBounds(width, height, x, y);
        None
    }

    /** `Grid::get_unchecked`: the caller guarantees the offset is inside the buffer. */
    function GetUnchecked(x: nat, y: nat): (r: T)
      reads this
      requires x + y * width < |data|
      ensures Get(x, y) == Some(r)
    {
      data[x + y * width]
    }

    /** `Grid::size`: (width, height). */
    function Size(): (r: (nat, nat))
      reads this
      ensures r == (Width(), Height())
      ensures r.0 == Cols() && r.1 == Rows()
    {
      (width, height)
    }

    /** `Grid::width`: the number of cells per row of the buffer. */
    function Width(): (r: nat)
      reads this
      ensures Valid() ==> |data| == r * height
    {
      width
    }

    /** `Grid::height`: the number of rows the buffer holds. */
    function Height(): (r: nat)
      reads this
      ensures Valid() ==> |data| == width * r
    {
      height
    }

    /** `Grid::rows`: the number of rows, which is the height. */
    function Rows(): (r: nat)
      reads this
      ensures r == Height()
    {
      height
    }

    /** `Grid::cols`: the number of columns, which is the width. */
    function Cols(): (r: nat)
      reads this
      ensures r == Width()
    {
      width
    }

    /** `Grid::is_empty`: the buffer holds no cell. */
    function IsEmpty(): (r: bool)
      reads this
      requires Valid()
      ensures r <==> Width() == 0 || Height() == 0
    {
      |data| == 0
    }

    /**
      `Grid::iter`: every cell in row-major order, so the i-th element is
      column i % width of row i / width.
    */
    function Iter(): (r: seq<T>)
      reads this
      ensures Valid() ==> |r| == width * height
      ensures width > 0 ==> forall i :: 0 <= i < |r| ==> Get(i % width, i / width) == Some(r[i])
    {
      RowMajorCells();
      assert width > 0 ==> forall i :: 0 <= i < |data| ==> Get(i % width, i / width) == Some(data[i]);
      data
    }

    /** Offset i of the buffer is the cell `Get` finds at column i % width, row i / width. */
    lemma RowMajorCells()
      ensures width > 0 ==> forall i :: 0 <= i < |data| ==> Get(i % width, i / width) == Some(data[i])
    {
      if width > 0 {
        forall i | 0 <= i < |data|
          ensures Get(i % width, i / width) == Some(data[i])
        {
          var c, r := i % width, i / width;
          RowMajorIndex(width, i + 1);
          assert c + r * width == i;
        }
      }
    }

    /** `Grid::flatten`: the buffer itself, in row-major order. */
    function Flatten(): (r: seq<T>)
      reads this
      ensures r == Iter()
    {
      data
    }

    /** `Grid::into_vec`: the buffer, without the width and height. */
    function IntoVec(): (r: seq<T>)
      reads this
      ensures r == Flatten()
    {
      data
    }

    /**
      `Grid::iter_row`: the slice [row * width, row * width + width) of the
      buffer. The source's slice panics unless that range is inside the buffer.
    */
    function IterRow(row: nat): (r: seq<T>)
      reads this
      requires row * width + width <= |data|
      ensures |r| == width
      ensures forall x :: 0 <= x < width ==> Get(x, row) == Some(r[x])
    {
      data[row * width .. row * width + width]
    }

    /**
      `Grid::iter_col`: `data[col..]` stepped by width, that is the cells at
      offsets col, col + width, col + 2 * width, ... up to the end of the
      buffer. The source panics when col > |data| (slice) and when width is 0
      (`step_by(0)`).
    */
    function IterCol(col: nat): (r: seq<T>)
      reads this
      requires width > 0 && col <= |data|
      ensures |data| <= col + |r| * width
      ensures forall k :: 0 <= k < |r| ==> col + k * width < |data| && r[k] == data[col + k * width]
    {
      var r := StepBy(data[col..], width);
      StepBySuffix(data, col, width, r);
      r
    }

    /** `Grid::clear`: zero width, zero height and an empty buffer. */
    method Clear()
      modifies this
      ensures Valid() && IsEmpty()
      ensures width == 0 && height == 0 && data == []
    {
      width := 0;
      height := 0;
      data := [];
    }

    /**
      Writing value through the reference `Grid::get_mut(x, y)` hands out.
      found says whether get_mut returned one; only that cell changes.
    */
    method GetMut(x: nat, y: nat, value: T) returns (found: bool)
      requires Valid()
      modifies this
      ensures Valid() && width == old(width) && height == old(height)
      ensures found <==> old(Get(x, y)).Some?
      ensures data == if found then old(data)[x + y * width := value] else old(data)
      ensures found ==> Get(x, y) == Some(value)
    {
      found := x + y * width < |data|;
      if found {
        data := data[x + y * width := value];
      }
    }

    /** Writing value through `Grid::get_unchecked_mut(x, y)`, whose offset the caller guarantees. */
    method GetUncheckedMut(x: nat, y: nat, value: T)
      requires Valid()
      requires x + y * width < |data|
      modifies this
      ensures Valid() && width == old(width) && height == old(height)
      ensures data == old(data)[x + y * width := value]
    {
      data := data[x + y * width := value];
    }

    /** `Grid::fill`: every cell becomes a clone of value. */
    method Fill(value: T)
      requires Valid()
      modifies this
      ensures Valid() && width == old(width) && height == old(height)
      ensures data == Repeat(value, |old(data)|)
    {
      var i := 0;
      while i < |data|
        invariant width == old(width) && height == old(height)
        invariant |data| == |old(data)|
        invariant 0 <= i <= |data|
        invariant forall k :: 0 <= k < i ==> data[k] == value
      {
        data := data[i := value];
        i := i + 1;
      }
    }

    /**
      `Grid::fill_with`: the producer is called once per cell, in row-major
      order; produced lists the values it returns, and the i-th goes to
      offset i.
    */
    method FillWith(produced: seq<T>)
      requires Valid()
      requires |data| <= |produced|
      modifies this
      ensures Valid() && width == old(width) && height == old(height)
      ensures data == produced[..|old(data)|]
    {
      var i := 0;
      while i < |data|
        invariant width == old(width) && height == old(height)
        invariant |data| == |old(data)|
        invariant 0 <= i <= |data|
        invariant forall k :: 0 <= k < i ==> data[k] == produced[k]
      {
        data := data[i := produced[i]];
        i := i + 1;
      }
    }

    /**
      What a caller can do through `Grid::iter_mut`: the k-th cell it yields
      (row-major offset k) is overwritten with update(k, current value).
      A caller that leaves a cell alone is an update returning that value.
    */
    method IterMut(update: (nat, T) -> T)
      requires Valid()
      modifies this
      ensures Valid() && width == old(width) && height == old(height)
      ensures |data| == |old(data)|
      ensures forall i :: 0 <= i < |data| ==> data[i] == update(i, old(data)[i])
    {
      var i := 0;
      while i < |data|
        invariant width == old(width) && height == old(height)
        invariant |data| == |old(data)|
        invariant 0 <= i <= |data|
        invariant forall k :: 0 <= k < i ==> data[k] == update(k, old(data)[k])
        invariant forall k :: i <= k < |data| ==> data[k] == old(data)[k]
      {
        data := data[i := update(i, data[i])];
        i := i + 1;
      }
    }

    /**
      What a caller can do through `Grid::iter_row_mut(row)`: the k-th cell
      of the row is overwritten with update(k, current value); no cell outside
      the row changes.
    */
    method IterRowMut(row: nat, update: (nat, T) -> T)
      requires Valid()
      requires row * width + width <= |data|
      modifies this
      ensures Valid() && width == old(width) && height == old(height)
      ensures |data| == |old(data)|
      ensures forall i :: 0 <= i < |data| ==>
        data[i] == if row * width <= i < row * width + width then update(i - row * width, old(data)[i]) else old(data)[i]
    {
      var start := row * width;
      var i := start;
      while i < start + width
        invariant width == old(width) && height == old(height)
        invariant |data| == |old(data)|
        invariant start <= i <= start + width
        invariant forall k :: 0 <= k < |data| ==>
          data[k] == if start <= k < i then update(k - start, old(data)[k]) else old(data)[k]
      {
        data := data[i := update(i - start, data[i])];
        i := i + 1;
      }
    }

    /**
      What a caller can do through `Grid::iter_col_mut(col)`: the cells at
      offsets col + k * width are overwritten with update(k, current value);
      every other cell keeps its value.
    */
    method IterColMut(col: nat, update: (nat, T) -> T)
      requires Valid()
      requires width > 0 && col <= |data|
      modifies this
      ensures Valid() && width == old(width) && height == old(height)
      ensures |data| == |old(data)|
      ensures forall i :: 0 <= i < |data| ==>
        data[i] == if col <= i && (i - col) % width == 0 then update((i - col) / width, old(data)[i]) else old(data)[i]
    {
      var i := col;
      while i < |data|
        invariant width == old(width) && height == old(height)
        invariant |data| == |old(data)|
        invariant col <= i && (i - col) % width == 0
        invariant forall k :: 0 <= k < |data| ==>
          data[k] == if col <= k < i && (k - col) % width == 0 then update((k - col) / width, old(data)[k]) else old(data)[k]
      {
        StrideStep(i - col, width);
        data := data[i := update((i - col) / width, data[i])];
        i := i + width;
      }
    }

    /** `Grid::map`: a grid of the same shape whose cells are f of this grid's cells. */
    method Map<U>(f: T -> U) returns (r: Grid<U>)
      requires Valid()
      ensures fresh(r) && r.Valid()
      ensures r.width == width && r.height == height
      ensures r.data == MapSeq(data, f)
    {
      r := new Grid<U>.FromParts(width, height, MapSeq(data, f));
    }
  }

  /**
    Between two consecutive multiples d and d + w of w, no offset is a multiple
    of w: the column iterator visits exactly one cell per row.
  */
  lemma StrideStep(d: nat, w: nat)
    requires w > 0 && d % w == 0
    ensures forall k :: d < k < d + w ==> k % w != 0
    ensures (d + w) % w == 0
  {
    forall k | d < k < d + w
      ensures k % w != 0
    {
      var q := d / w;
      assert d == q * w;
      assert k == q * w + (k - d);
      assert 0 < k - d < w;
      DivModUnique(k, w, q, k - d);
    }
    assert d + w == (d / w + 1) * w;
    DivModUnique(d + w, w, d / w + 1, 0);
  }

  /** Division with remainder is unique: a = q * w + r with 0 <= r < w fixes a % w. */
  lemma DivModUnique(a: nat, w: nat, q: nat, r: nat)
    requires w > 0 && r < w && a == q * w + r
    ensures a % w == r
  {
    var q', r' := a / w, a % w;
    assert a == q' * w + r';
    if q' < q {
      MulMonotone(q' + 1, q, w);
      assert false;
    } else if q < q' {
      MulMonotone(q + 1, q', w);
      assert false;
    }
  }

  /** Multiplying by a natural number preserves order. */
  lemma {:induction false} MulMonotone(a: nat, b: nat, w: nat)
    requires a <= b
    ensures a * w <= b * w
    decreases b - a
  {
    if a < b {
      MulMonotone(a, b - 1, w);
      assert b * w == (b - 1) * w + w;
    }
  }

  /** `Grid<Option<T>>::or`: cell by cell, the left cell when present, else the right one. */
  method Or<T>(a: Grid<Option<T>>, b: Grid<Option<T>>) returns (r: Grid<Option<T>>)
    requires a.Valid() && b.Valid()
    requires a.width == b.width && a.height == b.height
    ensures fresh(r) && r.Valid()
    ensures r.width == a.width && r.height == a.height
    ensures r.data == ZipOr(a.data, b.data)
  {
    r := new Grid<Option<T>>.FromParts(a.width, a.height, ZipOr(a.IntoVec(), b.IntoVec()));
  }
}
