# Minesweeper board engine, modelled in Dafny

This project models the board engine of a small minesweeper game, the
`Minesweeper` struct of `src/minesweeper.rs`. It holds a `width` x `height` grid,
the set of mines, the set of opened cells (`open_case`), the set of flagged
cells and a `lost` flag. It offers these operations:

- construction, which places the mines by drawing random positions until there
  are `mine_count` distinct ones;
- `iter_neighbors`, which lists the cells around a position, clipped at the edges;
- `neighboring_mines`, which counts the mines among those cells and casts the count to `u8`;
- `open`, which reveals a cell and, from a cell with no neighbouring mine,
  floods recursively into its neighbours;
- `toggle_flag`;
- the per-cell logic of the textual rendering (`Display::fmt`).

The project has two files:

- `grid.dfy` (module `Grid`) holds the pure part: positions, the board's cells,
  `Neighbors` (built like `iter_neighbors`: a clipped column range flat-mapped
  over a clipped row range, with the centre filtered out), `CountMines`,
  `NeighboringMines` and Rust's truncating `as u8` cast (`AsU8`).
- `minesweeper.dfy` (module `Minesweeper`) holds the state. `PlaceMines` is the
  construction loop. The class `Minesweeper` has the struct's fields. `Open`,
  `OpenNeighbors` (the recursive `for` loop inside `open`) and `ToggleFlag`
  change the fields in place. `View` and `Render` are the rendering's cell
  logic and its nested row/column loops.

The random draws of `random_range` are a parameter, `draws`. This is the
sequence of on-board positions the generator would produce, consumed in order.

The board invariant `Minesweeper.Valid()` says:

- the board is at least 1 x 1;
- the mines, opened cells and flagged cells all lie on the board;
- no cell is both opened and flagged;
- `lost` holds exactly when some opened cell is a mine.

The constructor establishes it, and `Open` and `ToggleFlag` preserve it.

`Open` also returns a ghost `order`: the cells it opens, in the order it
opens them. The order starts at `pos`, and every later cell in it is a
neighbour of an earlier cell that has no neighbouring mine. The flood fill
is also closed: every unflagged neighbour of such a cell is opened.
`FloodDetermined` shows that these two facts fix the set of opened cells.

Some behaviour one might expect of such an engine is absent from the code,
and the model follows the code:

- `open` reports `NoMine(0)` whatever the neighbour count. It does not report the count.
- Construction has no "invalid mine count" error. The loop simply never ends
  when the board has fewer cells than `mine_count`. The model says this
  through a requirement on `draws`.
- The code has no win query, no reset and no worklist flood fill, so the model has none.

## Model

| member | source | states |
|---|---|---|
| Grid.Range | src/minesweeper.rs:71-72 | the inclusive range `lo..=hi`: its length is `hi - lo + 1` (0 when empty), and element `k` is `lo + k` |
| Grid.Span | src/minesweeper.rs:71 | `c.max(1) - 1 ..= (c + 1).min(size - 1)` holds exactly the coordinates within distance 1 of `c` that are below `size`, each once; it has at most 3 of them, and at most 1 when `c` is off the board |
| Grid.Product | src/minesweeper.rs:71-72 | the `flat_map` of columns over rows (each column paired with every row by `Column`, the inner `map(move |j| (i, j))`) holds exactly the pairs of a column and a row, `|cols| * |rows|` of them, without repeats when neither input repeats |
| Grid.Without | src/minesweeper.rs:73 | the `filter(pos != (x, y))` keeps exactly the other elements; it drops at least one element when the centre is present, and keeps elements distinct |
| Grid.Neighbors | src/minesweeper.rs:68-74 | `iter_neighbors(p)` yields exactly the on-board positions at Chebyshev distance 1 from `p` (never `p` itself), each once, and at most 8 of them |
| Grid.CountMines | src/minesweeper.rs:77-79 | the `filter(contains).count()` is at most the length of the sequence; it is 0 exactly when no element is a mine; for a sequence without repeats it is the number of distinct mines in it |
| Grid.AsU8 | src/minesweeper.rs:79 | Rust's `as u8` keeps the low 8 bits, so it leaves any value below 256 unchanged |
| Grid.NeighboringMines | src/minesweeper.rs:76-80 | `neighboring_mines(p)` equals the number of mines among the neighbours of `p`; it lies in `[0, 8]`, so the `as u8` cast never truncates; it is 0 exactly when no neighbour is a mine |
| Grid.CellsCardinality | src/minesweeper.rs:58-60 | a `width` x `height` board has exactly `width * height` positions (the room the placement loop can fill) |
| Grid.OnBoardAtMostCells | src/minesweeper.rs:58-60 | any set of on-board positions, such as the mine set, has at most `width * height` members |
| Minesweeper.PlaceMines | src/minesweeper.rs:55-61 | the placement loop ends with exactly `mine_count` distinct mines, all on the board; they are the distinct positions of the shortest prefix of the draws that holds `mine_count` of them |
| Minesweeper.MineCountFitsBoard | src/minesweeper.rs:58-60 | the placement loop can only end when `mine_count <= width * height` |
| Minesweeper.Minesweeper.constructor | src/minesweeper.rs:50-66 | `new` gives a valid board of the given size with no opened or flagged cell, `lost` false, and exactly `mine_count` mines, all taken from the draws |
| Minesweeper.Minesweeper.Open | src/minesweeper.rs:82-105 | `open` returns `None` and opens nothing after a loss, on an opened cell or on a flagged cell; on a mine it opens only that cell, sets `lost` and returns `Some(Mine)`; on a non-mine with a neighbouring mine it opens only that cell; otherwise it opens the cell, never sets `lost`, opens no mine and returns `Some(NoMine(0))`; the newly opened cells are exactly those of the ghost `order`, each once, in the order they are opened: `pos` first, then each one a neighbour of an earlier zero cell; the flood fill is closed (every unflagged neighbour of a newly opened zero cell is opened); it never touches the flags or the mines and keeps the board invariant |
| Minesweeper.Minesweeper.OpenNeighbors | src/minesweeper.rs:97-101 | the `for` loop over the neighbours of a just-opened zero cell leaves each neighbour opened or flagged, opens no mine, never sets `lost`, opens exactly the cells of its ghost `order`, each once, and `order` after the zero cell is an opening order from it; the flood fill stays closed |
| Minesweeper.FloodStep | src/minesweeper.rs:98-100 | one recursive `open` of a neighbour keeps what the loop maintains: the opened cells are those listed so far, each once, no mine is opened, the flood is closed, and the list is an opening order from the zero cell |
| Minesweeper.FloodFromRoot | src/minesweeper.rs:95-101 | the flood from the just-opened zero cell, with all its neighbours opened or flagged, opens exactly the zero cell followed by the loop's cells, each once, opens no mine and is closed for the whole `open` call |
| Minesweeper.OnlyRootOpened | src/minesweeper.rs:88-102 | when `pos` is a mine or has a neighbouring mine, `open` opens the one cell `pos`, which is a closed flood and an opening order from `pos` |
| Minesweeper.ConcatOrder | src/minesweeper.rs:97-101 | the cells a recursive `open` of a neighbour of a zero cell opens, appended to an opening order that starts at that zero cell, still form an opening order |
| Minesweeper.ClosedFloodHoldsOrder | src/minesweeper.rs:95-101 | a closed flood fill holds every cell of an opening order from a cell it holds, when those cells were neither opened nor flagged before |
| Minesweeper.FloodDetermined | src/minesweeper.rs:82-105 | two flood fills from the same board and the same `pos` that are both closed and both follow an opening order open the same cells, so the contract of `Open` determines the opened cells exactly |
| Minesweeper.NeighbourClosedReaches | src/minesweeper.rs:68-74 | the neighbour relation connects the board: a set holding one cell and every neighbour of its members holds every cell |
| Minesweeper.FloodFillsMineFreeBoard | src/minesweeper.rs:95-101 | on a board without mines or flags, a closed flood fill from a fresh board opens every cell |
| Minesweeper.OpenMineFreeBoard | src/minesweeper.rs:82-105 | opening any cell of a new board without mines opens every cell, does not lose, and every cell then shows the digit 0 |
| Minesweeper.Toggled | src/minesweeper.rs:111-118 | toggling flips the membership of `pos` in the flag set and changes no other membership |
| Minesweeper.ToggledTwice | src/minesweeper.rs:107-119 | toggling the same position twice restores the flag set |
| Minesweeper.Minesweeper.ToggleFlag | src/minesweeper.rs:107-119 | `toggle_flag` changes nothing after a loss or on an opened cell; otherwise it toggles `pos` in the flag set; it never changes the opened cells, the mines or `lost`, and it keeps the board invariant (so flags and opened cells stay disjoint) |
| Minesweeper.Minesweeper.View | src/minesweeper.rs:30-41 | the cell view shows a flag exactly on flagged cells, a hidden cell exactly on unopened unflagged cells, and a mine exactly on opened mines, which appear only after a loss; a digit appears only on an opened non-mine and is its number of neighbouring mines, at most 8 |
| Minesweeper.Minesweeper.Render | src/minesweeper.rs:27-46 | the rendering has `height` rows of `width` cells, top to bottom and left to right; the cell in row `y` and column `x` is the view of `(x, y)` |

## Left out

- `src/lib.rs` is not part of this model. It holds the WebAssembly exports and a thread-local singleton board (10 x 10, 9 mines) with no logic of its own.
- The random generator (`crate::rand::random_range`) is not part of this model. Its results are the `draws` parameter. The model states nothing about their distribution.
- Minesweeper.Minesweeper.constructor: requires that `draws` holds at least `mine_count` distinct positions. The source instead loops forever when the generator cannot supply them, for example when `mine_count > width * height`. The model does not describe a loop that never ends.
- Minesweeper.PlaceMines: the same requirement on `draws` as the constructor, for the same reason.
- Minesweeper.Minesweeper.Open: requires an on-board position, and the board invariant requires `width >= 1` and `height >= 1`. The source checks neither. An off-board `open` would insert a position outside the grid, and `width - 1` underflows on an empty board.
- Minesweeper.Minesweeper.ToggleFlag: requires an on-board position. The source does not check it.
- Minesweeper.Minesweeper.Open: recursion depth is not modelled. The source recurses once per cell of the flood, so a large mine-free board can exhaust the call stack. The model's recursion has no such limit, and `OpenMineFreeBoard` holds for boards of every size.
- Grid.Neighbors: positions are unbounded naturals. The `usize` overflow of `x + 1` at `usize::MAX` is not modelled. Every on-board position is far below that value.
- The emoji and digit text of `Display::fmt` and its `Formatter` error propagation are not modelled. `Render` returns the grid of cell views the text is made from.
- The test `it_works` only prints, and asserts nothing.
