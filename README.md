# textris falling-block engine, modelled in Dafny

This project models the engine of textris, a terminal falling-block game written in Rust, and
proves properties of that model. The engine has three parts:

- `Game` (src/tris/game.rs). It keeps a row-major board of `w*h` colours and the falling piece
  at offset `(x, y)`, together with the score, the fall clock and a game-over flag. It offers
  bounds-checked reads and writes of the board, plus collision and out-of-bounds scans of the
  piece's box. The piece commands (slide, down, drop, the two rotations) are accepted or
  rejected. `merge` writes the piece into the board, removes full rows and scores them.
- `U16Block` (src/tris/block.rs). A piece is a 16-bit mask whose bit `y*4 + x` is
  cell `(x, y)` of a 4x4 grid, with a bounding box `0..=mx` x `0..=my`. It rotates in place,
  both ways, and renders as hex.
- `Colour` (src/tris/colour.rs). A cell is `Empty` or `Value(v)`, with derived equality and a
  text rendering.

Files and modules:

- `words.dfy`, module `Words`: Rust's `u16`. It defines `1 << p`, `&` and `|`, built bit by
  bit, and the facts the masks need.
- `colour.dfy`, module `Colours`: the `Colour` datatype, its equality and its rendering.
- `block.dfy`, module `Blocks`:
  - the `Shape` value (mask and box) and the table of canonical shapes;
  - the two rotations, defined by the cells of their results;
  - the class `U16Block`, whose rotation methods run the source's nested loops.
- `board.dfy`, module `Boards`: the board as a value. It has the cell read and write, the
  full-row test, the collision and out-of-bounds predicates, the row shift of
  `move_lines_down`, the stamp of the piece that `merge` writes, and the row removal of
  `remove_lines`.
- `game.dfy`, module `Games`: the class `Game`. It holds the board in an `array` and has one
  method or function per operation. Each is proved against the functions of `Boards`.

The source's quirks are modelled as written:

- `move_lines_down` never moves row 0, and it empties row 1.
- The `I` shape has a bit at `x = 3`, outside its box (`mx = 2`), and a rotation drops it.
- The `B` shape names the constant `0x0020` twice, so it has three cells.
- The rotations never swap `mx` and `my`.

There are no constraints between commands and the game-over flag. Only `new_game` clears the
flag, and the piece commands do not look at it.

## Model

| member | source | states |
|---|---|---|
| `Words.Shl1` | src/tris/block.rs:57-61 | `1 << p` has exactly bit p set; the shift amount must be below 16. |
| `Words.BitOr` | src/tris/block.rs:62 | a bit of `a \| b` is set iff it is set in a or in b. |
| `Words.BitAnd` | src/tris/block.rs:58 | a bit of `a & b` is set iff it is set in both a and b. |
| `Words.MaskTest` | src/tris/block.rs:57-58 | the test `value & m == m` with `m = 1 << p` holds exactly when bit p of value is set. |
| `Colours.Equal` | src/tris/colour.rs:3-7 | the derived equality holds iff the two colours are the same value: same variant, and for `Value` the same payload. |
| `Colours.Decimal` | src/tris/colour.rs:13 | the decimal rendering of a number is a non-empty string of digits with no leading zero. |
| `Colours.DecimalRoundTrip` | src/tris/colour.rs:13 | reading the decimal rendering back gives the number. |
| `Colours.DecimalInjective` | src/tris/colour.rs:13 | distinct numbers render to distinct decimal strings. |
| `Colours.Render` | src/tris/colour.rs:9-15 | `Empty` renders as "empty"; `Value(v)` renders as '#' followed by `Decimal(v)`, the digits without leading zeros that read back as v; the string starts with '#' exactly for a `Value`. |
| `Colours.RenderInjective` | src/tris/colour.rs:11-14 | distinct colours render to distinct strings. |
| `Blocks.Canonical` | src/tris/block.rs:24-34 | the table of `U16Block::new`, masks folded: every box fits the 4x4 grid, and every mask lies below 1024. I alone has a box that is not square. |
| `Blocks.Shape.Get` | src/tris/game.rs:130 | the `block.get(bx, by)` test that game.rs makes: the cell is inside the box and its bit `by*4 + bx` is set. |
| `Blocks.OccEqual` | src/tris/block.rs:18 | a mask is determined by the 16 cells of its 4x4 grid. |
| `Blocks.Shape.Dims` | src/tris/game.rs:126 | the box of a shape is at least 1x1, and every occupied cell lies inside it. |
| `Blocks.CanonicalBits` | src/tris/block.rs:24-34 | each mask of the shape table has exactly the bits of the constants the source ors together. B's repeated constant leaves it three bits. |
| `Blocks.CanonicalShapes` | src/tris/block.rs:24-34 | every canonical box fits the 4x4 grid; every shape but I has a square box holding all its set bits. |
| `Blocks.TRotation` | src/tris/block.rs:107-121 | the T shape is 0x0072 in a 3x3 box, and one clockwise rotation makes it 0x0262 in the same box. |
| `Blocks.ILosesCell` | src/tris/block.rs:32 | the I shape has the cell (3, 1) outside its box; a clockwise rotation followed by an anticlockwise one loses that cell, so it does not restore the shape. |
| `Blocks.IVanishes` | src/tris/block.rs:32 | the I shape turned clockwise, anticlockwise and clockwise again has no cell left inside its box. |
| `Blocks.FixedCanonical` | src/tris/block.rs:32 | the corrected table: the masks are the source's, and only I changes, its box widened to 0..=3 x 0..=3. |
| `Blocks.TurnsKeepCells` | src/tris/block.rs:50-96 | on a square box holding all its set bits, any sequence of turns keeps the number of cells. |
| `Blocks.FixedPiecesNeverVanish` | src/tris/block.rs:24-34 | with the corrected table, every piece keeps a cell inside its box after any sequence of turns. |
| `Blocks.BHasThreeCells` | src/tris/block.rs:29 | the B shape's cells are exactly (0, 0), (0, 1) and (1, 1). |
| `Blocks.RotatedCw` | src/tris/block.rs:46-70 | reference definition of the clockwise turn: cell (x, y) of the result is set iff (y, my - x) is a set cell of the box; the box is unchanged. |
| `Blocks.RotatedAcw` | src/tris/block.rs:72-96 | reference definition of the anticlockwise turn: cell (x, y) of the result is set iff (mx - y, x) is a set cell of the box; the box is unchanged. |
| `Blocks.CwImage` | src/tris/block.rs:55-64 | the source-side view of the clockwise turn: each set cell (x, y) inside the box lands on (my - y, x), and nothing else is set. |
| `Blocks.RotationsKeepBox` | src/tris/block.rs:50-96 | a square box with all its set bits inside stays square, and keeps all its set bits inside, under both rotations. |
| `Blocks.RotationsInverse` | src/tris/block.rs:46-96 | on a square box with all its set bits inside, clockwise then anticlockwise restores the shape, and so does the reverse order. |
| `Blocks.FourRotations` | src/tris/block.rs:50-70 | on a square box with all its set bits inside, four clockwise turns restore the shape. |
| `Blocks.CwCells` | src/tris/block.rs:55-64 | on a square box, the cells of the clockwise image are the cells of the shape under the map (x, y) to (m - y, x). |
| `Blocks.CwKeepsCellCount` | src/tris/block.rs:50-70 | on a square box, the clockwise turn keeps the number of cells. |
| `Blocks.AcwKeepsCellCount` | src/tris/block.rs:76-96 | on a square box with all its set bits inside, the anticlockwise turn keeps the number of cells. |
| `Blocks.Hex` | src/tris/block.rs:98-100 | the rendering is "0x" followed by exactly four lowercase hex digits, and those digits denote the value. |
| `Blocks.HexDigits` | src/tris/block.rs:99 | n is padded with zeros to exactly k lowercase hex digits, and those digits denote n. |
| `Blocks.HexInjective` | src/tris/block.rs:98-100 | distinct masks render to distinct strings. |
| `Blocks.U16Block.Setup` | src/tris/block.rs:36-42 | the block holds the given mask and box. |
| `Blocks.U16Block.New` | src/tris/block.rs:24-34 | a new block holds the table's shape for its type. |
| `Blocks.U16Block.RotateClockwise` | src/tris/block.rs:50-70 | the row-by-row loop leaves exactly the clockwise image. Set bits outside the box are dropped, and mx and my are kept. With the box inside 4x4, no shift amount reaches 16 and `my - y` never goes below zero. |
| `Blocks.U16Block.RotateAnticlockwise` | src/tris/block.rs:76-96 | the row-by-row loop leaves exactly the anticlockwise image. Set bits outside the box are dropped, and mx and my are kept. With the box inside 4x4, no shift amount reaches 16 and `mx - x` never goes below zero. |
| `Blocks.U16Block.String` | src/tris/block.rs:98-100 | the block renders as "0x" followed by four lowercase hex digits that denote its mask. |
| `Boards.Cell` | src/tris/game.rs:87-94 | `get` on the board as a value: `b[y*w + x]` for an in-range cell, and Empty elsewhere. |
| `Boards.FullLine` | src/tris/game.rs:244-252 | `is_full_line`: every cell of the row is filled. |
| `Boards.Collides` | src/tris/game.rs:143-157 | `collision`: some set cell of the box, at the offset, is filled. |
| `Boards.OutOfBounds` | src/tris/game.rs:125-141 | `out_of_bounds`: some set cell of the box, at the offset, is off the board. |
| `Boards.Blocked` | src/tris/game.rs:161 | the test of every piece command, `collision \|\| out_of_bounds`. |
| `Boards.Shifted` | src/tris/game.rs:254-265 | `move_lines_down(y)` on the board as a value. It keeps the board's size, and `Boards.ShiftedCell` gives its cells. |
| `Boards.Stamp` | src/tris/game.rs:212-218 | the piece written into the board as a value. It keeps the board's size, and `Boards.StampCell` gives its cells. |
| `Boards.IndexBound` | src/tris/game.rs:91 | the index `y*w + x` of an in-range cell lies on the board. |
| `Boards.IndexInjective` | src/tris/game.rs:121 | distinct in-range cells have distinct indices. |
| `Boards.Write` | src/tris/game.rs:116-123 | a write keeps the board's size. |
| `Boards.CellAfterWrite` | src/tris/game.rs:87-94 | after a write, an in-range written cell reads back the colour written, and every other cell reads as before. |
| `Boards.WriteOutOfRange` | src/tris/game.rs:117-119 | a write out of range leaves the board unchanged. |
| `Boards.FullLineInRange` | src/tris/game.rs:244-252 | only a row of the board can be full; a row outside `[0, h)` never is. |
| `Boards.FreePlacement` | src/tris/game.rs:125-157 | when a placement is neither colliding nor out of bounds, each set cell of the piece lies on an empty in-range cell. |
| `Boards.BlockedBelow` | src/tris/game.rs:199-207 | a piece with a set cell is blocked at every offset that pushes that cell below the last row, which is why `drop` ends. |
| `Boards.InvisibleNeverBlocked` | src/tris/game.rs:125-157 | a piece with no cell in its box is blocked nowhere. |
| `Boards.IBlockedAtFloor` | src/tris/game.rs:159-164 | the I piece resting on the floor fits, but its clockwise turn reaches one row below the board. |
| `Boards.ShiftedCell` | src/tris/game.rs:254-265 | after `move_lines_down(y)`, in every column, rows 2..=y hold the old colour of the row above, row 1 is empty (when y >= 1), and row 0 and the rows past y are unchanged. |
| `Boards.ShiftedRowAbove` | src/tris/game.rs:254-265 | the row shifted away, when it is row 2 or lower, receives the row above it. |
| `Boards.StampCell` | src/tris/game.rs:209-218 | after the piece is written, every on-board cell under a set cell of the box has the piece's colour, and every other cell is unchanged. |
| `Boards.ClearRows` | src/tris/game.rs:228-242 | removing the full rows among the k rows of the box keeps the board's size; it removes at most k rows, and the board is unchanged when it removes none. |
| `Boards.ClearRowsAbove` | src/tris/game.rs:233-238 | a box entirely above the board removes no row. |
| `Boards.Award` | src/tris/game.rs:221-223 | a merge that removes count rows scores `1 << count`, which is at least 2, when count > 0, and nothing otherwise. |
| `Games.Elapsed` | src/tris/game.rs:70-71 | the time since the last fall is never negative, and it is `now - last` when `now` is not earlier. |
| `Games.VanishingI` | src/tris/game.rs:159-167 | of two clockwise turns of an I piece, when the first is refused, the second is accepted and leaves a piece with no cell in its box. |
| `Games.Game.Init` | src/tris/game.rs:22-37 | the fields `new` builds: an all-empty board of w*h cells, at offset (0, 0), with score 0, no game over, and the one-second fall rate. |
| `Games.Game.New` | src/tris/game.rs:18-43 | the result is the error "too small" exactly when w < 4 or h < 4. Otherwise it is a fresh game with an empty w*h board, score 0, no game over, and the first piece placed at (w / 2 + dx, dy). The piece's block is fresh, and the fall clock starts at `now` with the one-second rate. |
| `Games.Game.NewGame` | src/tris/game.rs:45-52 | every cell is emptied and a new piece is placed; the score is 0 and the game-over flag is cleared. |
| `Games.Game.GetScore` | src/tris/game.rs:54-56 | the score, which is never negative. |
| `Games.Game.Random` | src/tris/game.rs:58-67 | the new piece is at (w / 2 + dx, dy); the game is over iff it was already over or the new placement collides. |
| `Games.Game.Tick` | src/tris/game.rs:69-81 | before the fall rate has elapsed, nothing changes. After it, when the piece is free to move, it moves down one row and the fall clock restarts at `now`; nothing else changes. Otherwise the piece is merged and the next one placed, with its colour. The game is then over iff it was already over or the new piece collides on the merged board. The block is either the old one or a fresh one. |
| `Games.Game.Dims` | src/tris/game.rs:83-85 | the board's dimensions, each at least 4. |
| `Games.Game.Get` | src/tris/game.rs:87-94 | reading the array agrees with the board's cell: `board[y*w + x]` in range, and Empty at any other (x, y). |
| `Games.Game.DisplayGet` | src/tris/game.rs:96-107 | an on-board cell the piece covers shows the piece's colour, and any other cell shows what `get` reads. That is the cell of the board as `merge` would write it. |
| `Games.Game.Filled` | src/tris/game.rs:109-114 | a cell is filled iff it holds a colour, so no out-of-range cell is filled. |
| `Games.Game.Set` | src/tris/game.rs:116-123 | the board becomes the write of the cell. An in-range cell then reads back the colour, and every other (x, y) reads as before. |
| `Games.Game.OutOfBounds` | src/tris/game.rs:125-141 | the scan answers true iff some set cell of the box, at the given offset, is off the board. |
| `Games.Game.Collision` | src/tris/game.rs:143-157 | the scan answers true iff some set cell of the box, at the given offset, lies on a filled cell. Only in-range cells are read, for any offset. |
| `Games.Game.Blocked` | src/tris/game.rs:180 | the combined test `collision \|\| out_of_bounds` at an offset. |
| `Games.Game.RotateClockwise` | src/tris/game.rs:159-167 | it succeeds iff the turned piece is not blocked where it stands, and then the piece is turned. On failure the piece is turned back, to `Acw(Cw(old))`, which `Blocks.RotationsInverse` shows is the old shape for square boxes holding all their set bits. Position and board are untouched. |
| `Games.Game.RotateAnticlockwise` | src/tris/game.rs:169-177 | as above, with the two rotations exchanged: on failure the shape is `Cw(Acw(old))`, which `Blocks.RotationsInverse` shows is the old shape for square boxes holding all their set bits. |
| `Games.Game.Slide` | src/tris/game.rs:179-186 | it succeeds iff the piece is not blocked dx columns over, and then only x changes, by dx. On failure nothing changes. |
| `Games.Game.Down` | src/tris/game.rs:188-197 | it succeeds iff the piece is not blocked one row down, and then only y (by one) and the fall clock change. On failure nothing changes. |
| `Games.Game.Drop` | src/tris/game.rs:199-207 | for a piece with a set cell, it ends. x is unchanged and y has not decreased, every row passed was free, the next row is blocked, and the board is unchanged. |
| `Games.Game.Merge` | src/tris/game.rs:209-226 | the board becomes the piece written in and then the full rows removed. The count returned is between 0 and the box height, and the score grows by exactly `1 << count` when count > 0. |
| `Games.Game.StampPiece` | src/tris/game.rs:210-218 | the nested loops at the head of `merge` leave exactly the board with the piece's colour written into every on-board cell that a set cell of its box covers. |
| `Games.Game.RemoveLines` | src/tris/game.rs:228-242 | the rows y, y + 1, … of the box are tested in turn, each on the board as the earlier shifts left it, and each full one is shifted away; the result is how many were removed. |
| `Games.Game.IsFullLine` | src/tris/game.rs:244-252 | the scan answers true iff every cell of the row is filled, and only for a row of the board. |
| `Games.Game.MoveLinesDown` | src/tris/game.rs:254-265 | the column walk with `index` and `prev` leaves exactly the shifted board of `Boards.ShiftedCell`, and every index it touches lies on the board. |
| `Games.Game.IsGameOver` | src/tris/game.rs:267-269 | the game-over flag. |

## Left out

- The terminal, keyboard and command-line layers (src/gameloop/mod.rs, src/output, src/input,
  src/main.rs) are I/O plumbing over `Game`'s calls. src/tris/mod.rs only re-exports names.
- Clock: `Instant::now()` is replaced by an argument `now`, an instant in nanoseconds, to
  `Tick`, `Down`, `Random`, `New`, `NewGame` and `Init`. `duration_since` saturates at zero, as current Rust does. `Tick` passes its one `now` on to
  `Down` and `Random`. The source reads `Instant::now()` again inside those calls, so the model
  takes those later reads to return the same instant as the first. A monotonic clock allows
  that, but it is only one of the outcomes it allows.
- The `Block` API that game.rs calls (`new`, `random`, `get`, `dims`, `colour`, `test`) is not
  part of this model, because block.rs does not define it.
  - The piece is a `U16Block` plus a colour field.
  - `get(bx, by)` is "inside the box and bit `by*4 + bx` set", and `dims` is `(mx + 1, my + 1)`.
  - What `Block::random` picks (the shape, the colour and the spawn offset `(dx, dy)`) is an
    argument of `Random`, `NewGame`, `New` and `Tick`.
  - The placeholder piece that `Game::new` builds before `new_game` replaces it is the T shape
    with colour Empty.
  - The test `game_merge`, which calls `Block::test`, is not modelled.
- Integer widths of game.rs: `isize` and `usize` arithmetic (`w * h`, `x + dx`, `y + 1`, the
  score) is unbounded here, so overflow of very large boards, offsets or scores is not
  modelled. The `u16` arithmetic of block.rs is modelled exactly.
- Games.Game.Drop: requires the piece to have a set cell. A piece without one can be reached
  (see "## Findings"). With such a piece the source's loop never finds a blocked row. In a
  debug build it stops when `y += 1` overflows and panics. In a release build `y` wraps round and
  the loop never ends. This case is not covered.
- Games.Game.RotateClockwise: on failure it promises `Acw(Cw(old))`, which is the old shape
  only for a square box holding all its set bits. For the I shape it is not, because of
  `Blocks.ILosesCell`.
- Games.Game.RotateAnticlockwise: the same applies, with the two rotations exchanged.
- Games.Game.MoveLinesDown: requires `row < h`. For a larger row the source indexes past the
  board and panics. `remove_lines` calls it only with full rows, and those are on the board.
- `fmt::Display` for `Colour` writes to a formatter that can fail. The model returns the string,
  and write errors are not modelled.
- Blocks.Canonical: the table's masks are written folded (0x0072 for T, and so on).
  `Blocks.SourceBits` lists, for each shape, the bit positions of the constants the source ors
  together, transcribed from src/tris/block.rs:26-32. `Blocks.CanonicalBits` proves that each
  folded mask has exactly those bits set.

## Findings

| source | as written | input that shows it | evidently intended | confidence | as-written member | corrected member |
|---|---|---|---|---|---|---|
| src/tris/block.rs:32 | the I shape's box is `0..=2 x 0..=3`, but its bit 7 is the cell (3, 1), outside that box | an I piece resting on the floor (y = h - 2). `rotate_clockwise` is refused and turns it back, which loses a cell. A second `rotate_clockwise` is accepted and leaves no cell in the box. From then on `down` always succeeds, `drop` never ends and `tick` never locks the piece. | a box that holds every cell of the piece (`0..=3 x 0..=3` for I), so that no sequence of turns loses a cell | not executed; high that the piece vanishes, medium that this box was the one meant | `Games.VanishingI` (with `Blocks.IVanishes`, `Boards.IBlockedAtFloor`) | `Blocks.FixedCanonical` (with `Blocks.FixedPiecesNeverVanish`) |

`Game` keeps the source's table, so its operations model the code as written. With the
corrected table, every piece reachable through `random` and the rotations meets the
precondition of `Games.Game.Drop`.
