# Grid: a dense row-major 2-D grid

This project models `Grid<T>`, a generic two-dimensional grid. The grid keeps
`width`, `height` and one linear buffer `data`. The cell at column `x` and row
`y` lives at offset `x + y * width`. A row is a contiguous slice of the buffer.
A column is a strided walk through it, with stride `width`.

The model has three modules:

- `Options` (options.dfy): Rust's `Option<T>` with `Option::or`.
- `Griddy` (grid.dfy): the sequence functions the grid is built from, the
  class `Grid<T>` and the `or` merge of two `Grid<Option<T>>`.
  - The sequence functions model `vec![v; n]`, `map`/`collect`,
    `zip`/`map(or)` and `step_by`.
  - The class has the struct's three fields, with `data` as a `seq<T>`.
    `Valid()` is the representation invariant `|data| == width * height`.
  - The lookups (`get`, `get_unchecked`, the size accessors, `is_empty`,
    `iter`, `iter_row`, `iter_col`, `flatten`, `into_vec`) are functions that
    read the object.
  - The in-place operations (`clear`, `fill`, `fill_with`, `get_mut`,
    `get_unchecked_mut`, `iter_mut`, `iter_row_mut`, `iter_col_mut`) are
    methods that modify it.
  - `map` and `or` build a fresh grid.
- `GridProperties` (grid_properties.dfy): lemmas about what the row-major
  layout gives callers, plus small client programs that combine operations.

`get` checks only the linear offset against the buffer length, and the model
keeps that. So a column `x >= width` reaches into the next row
(`GetWrapsIntoNextRow`). On a 3 x 2 grid, `get(3, 0)` is the cell (0, 1), while
`get(0, 2)` is absent.

Where a source operation panics, the model has a `requires`: `from_vec` with
width 0 or a length that is not a multiple of the width, an `iter_row` slice
past the end, `iter_col` with `col` past the end or width 0, and `or` on grids
of different shape.

The unchecked accessors `get_unchecked` and `get_unchecked_mut` do not panic
out of bounds; there they are undefined behaviour. The model gives them the
in-bounds offset as a `requires`.

`iter_row` and `iter_col` accept exactly the arguments their slicing and
`step_by` accept:

- `iter_row(row)` accepts a row when the slice `[row*width, row*width+width)`
  lies inside the buffer. With width 0, every row does.
- `iter_col(col)` accepts a column when the width is positive and
  `col <= |data|`. On a grid of height 0 the buffer is empty, so only column 0
  is accepted.
- Among accepted columns, `iter_col(col)` yields exactly `height` cells when
  `col < width` (`IterColCells`), and fewer than `height` cells when
  `col >= width` (`IterColPastWidth`).

## Model

| member | source | states |
|---|---|---|
| `Griddy.Repeat` | src/lib.rs:34 | `vec![value; n]` has exactly n elements, each equal to value |
| `Griddy.MapSeq` | src/lib.rs:143 | mapping keeps the length, and element i of the result is f of element i of the input |
| `Griddy.ZipOr` | src/lib.rs:156-161 | the zip stops at the shorter input; element i is the left element when present, else the right one |
| `Griddy.StepBy` | src/lib.rs:103 | `step_by(step)` yields exactly the elements at indices k * step below the length, in order, with none skipped at the end |
| `Griddy.Grid.FromParts` | src/lib.rs:20-24 | the struct literal: given a buffer of width * height cells, the grid has exactly those fields and the invariant holds (also used at src/lib.rs:140-144 and 153-162) |
| `Griddy.Grid.New` | src/lib.rs:13-25 | the grid has the given width and height; its width * height cells are all the default value; the invariant holds |
| `Griddy.Grid.Init` | src/lib.rs:27-36 | the grid has the given width and height; its width * height cells are all value; the invariant holds |
| `Griddy.Grid.FromVec` | src/lib.rs:38-46 | requires width > 0 and the length to be a multiple of the width (otherwise the source panics); height is length / width, the buffer is the vector, and the invariant holds |
| `Griddy.Grid.Get` | src/lib.rs:56-58 | a cell is found only at an offset inside the buffer, and it is the cell at x + y * width; under the invariant it is absent exactly when x + y * width >= width * height; every x < width, y < height is found |
| `Griddy.Grid.GetUnchecked` | src/lib.rs:48-50 | whenever the offset x + y * width is inside the buffer, the unchecked read is the element `get` returns |
| `Griddy.Grid.Size` | src/lib.rs:64-66 | `size()` is (width(), height()), which is also (cols(), rows()) |
| `Griddy.Grid.Width` | src/lib.rs:68-70 | under the invariant, the width times the height is the buffer length |
| `Griddy.Grid.Height` | src/lib.rs:72-74 | under the invariant, the width times the height is the buffer length |
| `Griddy.Grid.Rows` | src/lib.rs:76-78 | `rows()` is `height()` |
| `Griddy.Grid.Cols` | src/lib.rs:80-82 | `cols()` is `width()` |
| `Griddy.Grid.IsEmpty` | src/lib.rs:84-86 | under the invariant, the grid is empty exactly when its width or its height is 0 |
| `Griddy.Grid.Iter` | src/lib.rs:94-96 | yields width * height cells in row-major order: element i is the cell `get` finds at column i % width, row i / width |
| `Griddy.Grid.Flatten` | src/lib.rs:120-122 | the buffer in the same row-major order `iter()` yields |
| `Griddy.Grid.IntoVec` | src/lib.rs:124-126 | the same sequence `flatten()` exposes |
| `Griddy.Grid.IterRow` | src/lib.rs:110-113 | requires the row slice to be inside the buffer; yields exactly width cells, and cell x is what `get(x, row)` finds |
| `Griddy.Grid.IterCol` | src/lib.rs:102-104 | requires width > 0 and col <= length; element k is the cell at offset col + k * width, and every such offset inside the buffer is yielded |
| `Griddy.Grid.Clear` | src/lib.rs:88-92 | afterwards width and height are 0, the buffer is empty, the grid is empty, and the invariant holds |
| `Griddy.Grid.GetMut` | src/lib.rs:60-62 | a write through `get_mut` happens exactly when `get` would find the cell, and it changes only offset x + y * width, which `get(x, y)` then finds holding the value; width and height are unchanged |
| `Griddy.Grid.GetUncheckedMut` | src/lib.rs:52-54 | for an in-bounds offset, a write changes only that offset; width and height are unchanged |
| `Griddy.Grid.Fill` | src/lib.rs:128-133 | every cell becomes value; width, height and length are unchanged |
| `Griddy.Grid.FillWith` | src/lib.rs:135-137 | the i-th produced value goes to offset i, for every offset of the buffer; width and height are unchanged |
| `Griddy.Grid.IterMut` | src/lib.rs:98-100 | writes through the mutable iterator reach every cell in row-major order; the k-th cell yielded is offset k; the shape is unchanged |
| `Griddy.Grid.IterRowMut` | src/lib.rs:115-118 | the k-th cell yielded is offset row * width + k; cells outside the row keep their values |
| `Griddy.Grid.IterColMut` | src/lib.rs:106-108 | the k-th cell yielded is offset col + k * width; every other cell keeps its value |
| `Griddy.Grid.Map` | src/lib.rs:139-145 | a fresh grid with the same width and height, whose cell at each offset is f of the original cell there; the invariant holds |
| `Griddy.Or` | src/lib.rs:148-163 | requires equal width and height (otherwise the source panics); a fresh grid of that shape whose cells are the left cell when present, else the right one |
| `GridProperties.GetCell` | src/lib.rs:56-58 | every coordinate with x < width and y < height is found, at offset x + y * width |
| `GridProperties.GetBeyondLastRow` | src/lib.rs:56-58 | no coordinate with y >= height is found, whatever x is |
| `GridProperties.GetAbsentIff` | src/lib.rs:56-58 | `get` is absent exactly when x + y * width >= width * height |
| `GridProperties.GetWrapsIntoNextRow` | src/lib.rs:56-58 | for x >= width, `get(x, y)` is the same as `get(x - width, y + 1)`: the offset-only bounds check aliases into the next row |
| `GridProperties.GetAliasingThreeByTwo` | src/lib.rs:56-58 | on any 3 x 2 grid, `get(3, 0)` is the cell (0, 1) and `get(0, 2)` is absent |
| `GridProperties.RowInBounds` | src/lib.rs:110-113 | every row below the height is a slice `iter_row` accepts |
| `GridProperties.RowsCoverBuffer` | src/lib.rs:110-122 | the first n rows concatenated are the first n * width cells of the buffer, so all rows in order are `flatten()` |
| `GridProperties.IterColCells` | src/lib.rs:102-104 | for col < width, `iter_col(col)` yields exactly height cells, and cell y is what `get(col, y)` finds |
| `GridProperties.IterColPastWidth` | src/lib.rs:102-104 | for width <= col <= length, `iter_col(col)` yields fewer than height cells |
| `GridProperties.MapCells` | src/lib.rs:139-145 | at every coordinate, the mapped grid finds f of the cell the source grid finds, and finds nothing where it finds nothing |
| `GridProperties.OrCells` | src/lib.rs:148-163 | at every coordinate, the merged grid finds a cell exactly where the left grid does, and that cell is `Option::or` of the two cells there |
| `GridProperties.FromVecRoundTrip` | src/lib.rs:120-126 | `from_vec(vec, width)` then `flatten()` or `into_vec()` gives back exactly vec, and height * width is the length |
| `GridProperties.FillThenIter` | src/lib.rs:128-133 | on any valid grid, after `fill(v)`, `iter()` yields width * height copies of v, whatever the grid held before |
| `GridProperties.ClearThenEmpty` | src/lib.rs:84-92 | after `clear()`, `is_empty()` holds and `size()` is (0, 0) |
| `GridProperties.AliasingOnThreeByTwo` | src/lib.rs:56-58 | on the 3 x 2 grid holding 0..5, `get(3, 0)` is Some(3) and `get(0, 2)` is None |
| `GridProperties.OrDisjoint` | src/lib.rs:148-163 | merging [Some(1), None, None, Some(4)] with [None, Some(2), Some(3), None] on 2 x 2 grids gives [Some(1), Some(2), Some(3), Some(4)] |

## Left out

- `usize` overflow in `x + y * width`, `row * width + width` and `width * height`: the model uses unbounded `nat`.
- Allocation: `Vec::with_capacity` (src/lib.rs:17) has no observable effect.
- Iterator laziness, the `Iter`, `IterMut` and `StepBy` types, and borrow lifetimes: iterators are modelled by the sequence they yield, and mutable iterators by the writes a caller makes through them.
- Undefined behaviour of `get_unchecked` and `get_unchecked_mut` out of bounds: the model only states their in-bounds precondition.
- Ownership transfer: `into_vec`, `map` and `or` consume their grids in the source; in the model the original grid stays readable.
- Griddy.Grid.New: `T::default` is called once per cell in the source; the model takes one default value, so a `Default` that returns different values per call is not captured.
- Griddy.Grid.FillWith: the `FnMut` producer is modelled by the sequence of values it returns, so its own side effects are not modelled.
- Griddy.Grid.Map: the `FnMut` transform is a pure function, so side effects and dependence on call order are not modelled.
- Griddy.Grid.IterMut: a caller's writes are modelled as one function of position and current value, applied to every yielded cell. A caller may also read other state, and that is not modelled.
- Griddy.Grid.GetMut: modelled as one write of a value through the returned reference. Keeping the reference for several writes is the same as the last write.
