# Game of Life core, modelled in Dafny

This project models the core of `game_of_life`, a Rust implementation of
Conway's Game of Life (`src/lib.rs`). It covers:

- one generation of the rule (`step`), advanced in place on a boolean grid;
- the two edge-case methods for neighbours that fall outside the grid
  (`EdgeCaseMethod::AssumeDead` and `EdgeCaseMethod::Torodial`, read by
  `safe_index_grid`);
- the GOLN text format and its reader (`parse_goln`,
  `map_split_once_to_usize`): a header line `<width>x<height>`, then one
  `<x>,<y>` line per live cell;
- a grid filled from a source of random bits (`random_grid`).

The project has four modules:

- `Wrappers` (`wrappers.dfy`) holds the `Option` type. Every `unwrap()` that
  would panic is a `None` result.
- `Text` (`text.dfy`) holds `str::split_once`, `str::lines` and
  `str::parse::<usize>` with a 64-bit `usize`. It also has a decimal writer,
  the inverse used by the round-trip lemmas.
- `Engine` (`engine.dfy`) holds the edge-case methods, neighbour counting,
  the rule, and `step` as methods over an `array2<bool>`.
- `Codec` (`codec.dfy`) holds the GOLN reader as a function (`Decode`) and
  as the imperative grid builder (`ParseGoln`). It also has the GOLN writer
  (`Encode`) and `random_grid`.

The grid (`Grid<bool>` of the external `grid` crate) is an `array2<bool>`
indexed `g[y, x]`:

- `g.Length0` is the number of rows (the height);
- `g.Length1` is the number of columns (the width).

An array's dimensions cannot change, so `step` keeps the grid's size by
construction.

`Step` is proved against the specification function `NextCell`: after the
call, every cell is `NextCell` of the grid as it was before the call. The
method follows the source's two phases:

1. `CollectFlips` scans the grid in row-major order, writes nothing, and
   returns exactly the list `ScanFlips` of the cells whose value the rule
   changes, each listed once.
2. `ToggleAll` inverts exactly those cells.

Choices the model makes where `src/lib.rs` leaves the behaviour to code
it calls:

- A cell line naming a cell outside the grid makes `grid[(y, x)]` panic at
  src/lib.rs:30. Here it is a `None` result, like every other failure of
  the reader (each `unwrap()` at src/lib.rs:22, :25, :29, :38 and :39).
- Line splitting is that of Rust's `str::lines` (src/lib.rs:19):
  - a final line ending adds no empty line;
  - a `\r` before a `\n` is dropped.
- Number reading is that of `str::parse::<usize>` (src/lib.rs:38-39),
  so `+7` reads as 7.
- `Grid::new` (src/lib.rs:11 and :27) belongs to the external `grid` crate
  and is called without a check. The model refuses a zero width or height:
  `Decode` and `ParseGoln` reject such a header, and `RandomGrid` returns
  `None`. See "Left out" for what this does not capture.

## Model

| member | source | states |
|---|---|---|
| Engine.Wrap | src/lib.rs:94-107 | One toroidal wrap brings any coordinate within one grid length of the grid into `[0, n)`, and leaves an in-range coordinate unchanged |
| Engine.WrapIsRemainder | src/lib.rs:94-107 | On the whole wrap range, the single wrap equals the coordinate modulo the dimension |
| Engine.AssumeDeadReadsInside | src/lib.rs:83-89 | Under `AssumeDead`, a read is alive exactly when the coordinates are inside the grid and name a live cell; everything outside reads as dead |
| Engine.SafeIndex | src/lib.rs:81-112 | A read of a coordinate inside the grid is the stored cell under either edge-case method; outside reads are given by `AssumeDeadReadsInside` and `TorodialReadsModulo` |
| Engine.TorodialReadsModulo | src/lib.rs:90-110 | Under `Torodial`, a read returns the cell at `(y mod rows, x mod cols)`, an index that is always in bounds |
| Engine.Offset | src/lib.rs:51-58 | The eight neighbour offsets are within one step on each axis and never the cell itself |
| Engine.OffsetsDistinct | src/lib.rs:51-58 | The eight offsets are pairwise distinct, so with `Offset` they are exactly the eight Moore neighbours and each is read once |
| Engine.LiveAmong | src/lib.rs:55-59 | Counting the first `k` neighbour reads gives at most `k` |
| Engine.LiveNeighbours | src/lib.rs:55-59 | The live-neighbour count of a cell is at most 8 |
| Engine.Qualifies | src/lib.rs:61-67 | The flip test (a live cell with a count outside 2..=3, a dead cell with exactly 3) holds exactly when the rule changes the cell's value |
| Engine.DeadGridCountsNone | src/lib.rs:55-59 | In an all-dead grid, every neighbour count is 0 under either edge-case method |
| Engine.DeadGridStaysDead | src/lib.rs:61-67 | In an all-dead grid, no cell is born and no cell qualifies for a flip |
| Engine.AssumeDeadCountsNoMore | src/lib.rs:83-110 | A cell never has more live neighbours under `AssumeDead` than under `Torodial` |
| Engine.InteriorCountsAgree | src/lib.rs:83-110 | A cell whose whole neighbourhood is inside the grid has the same count under both edge-case methods |
| Engine.MarksAreRuleChanges | src/lib.rs:61-67 | The flip test agrees with the rule: a cell is marked exactly when its next value differs from its current value |
| Engine.ScanFlipsMembers | src/lib.rs:46-69 | When the scan reaches `(x, y)`, it has met exactly the marked cells that come before `(x, y)` in row-major order |
| Engine.ScanFlipsOrdered | src/lib.rs:46-69 | The scan lists cells in strictly increasing row-major order |
| Engine.FlipListExact | src/lib.rs:44-69 | The complete flip list holds exactly the marked cells of the grid, and none of them twice |
| Engine.CollectFlips | src/lib.rs:44-69 | The first phase of `step` returns the row-major flip list. That list holds exactly the cells whose value the rule changes, each once |
| Engine.ToggleAll | src/lib.rs:74-76 | Toggling the flip list inverts exactly the marked cells and leaves every other cell as it was |
| Engine.Step | src/lib.rs:43-79 | After a step, every cell is the rule applied to the previous generation. The result is true exactly when some cell changed; when it is false the grid is untouched |
| Wrappers.AllOrNone | src/lib.rs:28-31 | Unwrapping a sequence of results succeeds exactly when every result is present, and then yields all the values in order |
| Text.SplitOnce | src/lib.rs:23-29 | A split removes exactly the one separator: the two parts together are one character shorter than the string. Its full meaning is stated by `SplitOnceMeaning` |
| Text.SplitOnceMeaning | src/lib.rs:23 | `split_once` fails exactly when the separator is absent; otherwise the string is the first part, the separator and the rest, with no separator in the first part |
| Text.SplitOnceJoin | src/lib.rs:29 | A string joined at a separator that does not occur in its first part splits back into the same two parts |
| Text.StripCarriageReturn | src/lib.rs:19 | A line loses exactly one final `\r` if it has one, and is otherwise unchanged |
| Text.Lines | src/lib.rs:19 | The empty text, and only it, has no lines |
| Text.LinesOfJoin | src/lib.rs:19 | Joining plain lines with `\n` and splitting the result into lines gives the same lines back |
| Text.Accumulate | src/lib.rs:38-39 | The checked digit loop never yields a value above `usize::MAX` |
| Text.AccumulateDigits | src/lib.rs:38-39 | Continuing the digit loop succeeds exactly when the rest is all digits and the whole number fits in a `usize`, and then yields that number |
| Text.ParseUsize | src/lib.rs:38-39 | A parsed `usize` never exceeds `usize::MAX` |
| Text.ParseUsizeMeaning | src/lib.rs:38-39 | `parse::<usize>` succeeds exactly on an optional `+` followed by one or more digits whose value fits, and yields that value |
| Text.MapSplitOnceToUsize | src/lib.rs:36-41 | Both numbers of a parsed pair are at most `usize::MAX` |
| Text.MapSplitOnceToUsizeMeaning | src/lib.rs:36-41 | A pair of strings parses exactly when both halves are `usize` texts, and then yields the two numbers they denote |
| Text.NatText | src/lib.rs:38 | A written number is a non-empty string of digits |
| Text.NatTextValue | src/lib.rs:38 | The digits of a written number denote that number |
| Text.ParseNatText | src/lib.rs:38 | Every `usize` written in decimal parses back to itself |
| Codec.ParsePair | src/lib.rs:23-25 | A line read as a number pair yields two numbers that fit in a `usize` |
| Codec.ParsePairOfJoin | src/lib.rs:23-25 | A line made of two parts around a separator reads exactly when both parts are `usize` texts, and yields their values |
| Codec.ParseCells | src/lib.rs:28-29 | There is one reading per cell line |
| Codec.ParseCellsAt | src/lib.rs:28-29 | The `i`-th reading is the reading of the `i`-th cell line |
| Codec.Assemble | src/lib.rs:20-31 | A document put together from the header and the cell readings is valid: both dimensions are non-zero `usize` values and every cell is on the grid |
| Codec.AssembleMeaning | src/lib.rs:20-31 | A document is put together exactly when the header read with two non-zero numbers and every cell line read as an on-grid cell; it then has the header's size and the cells in line order |
| Codec.Decode | src/lib.rs:18-34 | Every document the reader accepts is valid |
| Codec.DecodeAccepts | src/lib.rs:18-34 | A text is accepted exactly when its first line is a header with two non-zero numbers and every further line is a cell on the grid. The accepted document lists those cells in line order. Every other text fails: no line, a missing separator, a number that does not parse, a zero dimension, or a cell off the grid |
| Codec.ReadNumberPair | src/lib.rs:36-41 | Two `usize` values written around a non-digit separator read back as the same pair |
| Codec.ReadCellLines | src/lib.rs:28-29 | Written cell lines read back as the same cells |
| Codec.DecodeEncode | src/lib.rs:18-34 | Reading a written document returns it when it is valid, and refuses it otherwise (a zero dimension or a cell off the grid) |
| Codec.DecodeEncodeDecode | src/lib.rs:18-34 | Writing an accepted document and reading it again gives the same document |
| Codec.MarkCells | src/lib.rs:28-31 | The cell loop succeeds exactly when every line reads as an on-grid cell. Its grid then has exactly the listed cells alive |
| Codec.ParseGoln | src/lib.rs:18-34 | Building a grid from a text fails exactly when `Decode` rejects the text. Otherwise it returns a new grid of `height` rows and `width` columns in which exactly the listed cells are alive |
| Codec.RandomGrid | src/lib.rs:10-16 | A random grid has `height` rows and `width` columns, and the `k`-th random bit fills the `k`-th cell in row-major order. A zero dimension is refused |

## Left out

- `rand::random()` (src/lib.rs:13) is an external pseudorandom source. `RandomGrid` takes it as the parameter `draw`, so nothing about the distribution of cells is modelled.
- `pub mod res` and its pattern constant are not part of this model.
- `src/main.rs` is not part of this model: the window, input, drawing and frame timing.
- The external `grid` crate is not modelled beyond a fixed-size two-dimensional array. That leaves out:
  - its allocation;
  - any overflow of `rows * cols`;
  - its column-major option.
- Coordinate lists separated by `;` are not modelled, since the code reads one pair per line.
- The reader takes a text of Unicode scalar values as `seq<char>`. UTF-8 validity of the input is not modelled.
- `Engine.SafeIndex`: the toroidal read requires each coordinate to be within one grid length of the grid, which the neighbour offsets always are. Coordinates further out, which the code never produces, are not modelled.
- Codec.Decode: refuses a zero width or height by choice. `parse_goln` passes the header to `Grid::new` unchecked, and whether that panics or returns an empty grid depends on the `grid` crate's version, which is not part of this model.
- Codec.ParseGoln: returns `None` for a zero width or height, by the same choice as `Codec.Decode`; the code's result there depends on the `grid` crate's version.
- Codec.RandomGrid: returns `None` for a zero width or height by the same choice; `random_grid` may instead return an empty grid, depending on the `grid` crate's version.
- Text.SplitOnce: its own contract states only the lengths of the two parts. That the split fails exactly when the separator is absent and otherwise cuts at its first occurrence is stated by `Text.SplitOnceMeaning`, so that readers of every line do not carry that fact into each proof.
