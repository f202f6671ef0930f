/**
 * The board of src/tris/game.rs as a value: a row-major sequence of w*h colours whose cell
 * (x, y) sits at index y*w + x, with the reads, writes, tests and row operations the game
 * performs on it. The Game class (game.dfy) works on an array and is proved against these.
 */
module Boards {
  import opened Words
  import opened Colours
  import opened Blocks

  /** A board of w columns and h rows. */
  predicate Sized(b: seq<Colour>, w: int, h: int)
  {
    w > 0 && h >= 0 && |b| == w * h
  }

  predicate InRange(w: int, h: int, x: int, y: int)
  {
    0 <= x < w && 0 <= y < h
  }

  /** The index of an in-range cell lies on the board. */
  lemma IndexBound(w: int, h: int, x: int, y: int)
    requires InRange(w, h, x, y)
    ensures 0 <= y * w + x < w * h
  {
    assert y * w + x < (y + 1) * w;
    assert (y + 1) * w <= h * w;
  }

  lemma MulAtLeast(d: int, w: int)
    requires d >= 1 && w > 0
    ensures d * w >= w
  {
    assert d * w == (d - 1) * w + w;
  }

  /** Index y*w + x holds column x of row y. */
  lemma IndexCoords(w: int, x: int, y: int)
    requires w > 0 && 0 <= x < w
    ensures (y * w + x) / w == y && (y * w + x) % w == x
  {
    var i := y * w + x;
    var q, r := i / w, i % w;
    assert (y - q) * w == r - x;
    if y > q {
      MulAtLeast(y - q, w);
    } else if q > y {
      MulAtLeast(q - y, w);
    }
  }

  /** Distinct in-range cells have distinct indices. */
  lemma IndexInjective(w: int, x: int, y: int, x': int, y': int)
    requires w > 0 && 0 <= x < w && 0 <= x' < w
    requires y * w + x == y' * w + x'
    ensures x == x' && y == y'
  {
    IndexCoords(w, x, y);
    IndexCoords(w, x', y');
  }

  /** A row index of an index in row 2 or lower is at least w. */
  lemma RowAbove(w: int, i: int)
    requires w > 0 && 0 <= i && i / w >= 1
    ensures i - w >= 0
  {
    assert i == (i / w) * w + i % w;
    assert (i / w) * w >= w;
  }

  /** Every index of the board is the index of an in-range cell. */
  lemma Coords(w: int, h: int, i: int)
    requires w > 0 && 0 <= i < w * h
    ensures InRange(w, h, i % w, i / w) && i == (i / w) * w + i % w
  {
    if i / w >= h {
      MulAtLeast(i / w - h + 1, w);
    }
  }

  /** `get`: the colour of an in-range cell, and Empty anywhere else. */
  function Cell(b: seq<Colour>, w: int, h: int, x: int, y: int): Colour
    requires Sized(b, w, h)
  {
    if InRange(w, h, x, y) then
      IndexBound(w, h, x, y);
      b[y * w + x]
    else
      Empty
  }

  /** `set`: an in-range cell takes colour c; a write out of range does nothing. */
  function Write(b: seq<Colour>, w: int, h: int, x: int, y: int, c: Colour): (r: seq<Colour>)
    requires Sized(b, w, h)
    ensures Sized(r, w, h)
  {
    if InRange(w, h, x, y) then
      IndexBound(w, h, x, y);
      b[y * w + x := c]
    else
      b
  }

  /**
   * Reading after a write: the written cell, when in range, reads back the colour written;
   * every other cell reads as before.
   */
  lemma CellAfterWrite(b: seq<Colour>, w: int, h: int, x: int, y: int, c: Colour, x': int, y': int)
    requires Sized(b, w, h)
    ensures Cell(Write(b, w, h, x, y, c), w, h, x', y') ==
      if InRange(w, h, x, y) && x' == x && y' == y then c else Cell(b, w, h, x', y')
  {
    if InRange(w, h, x, y) && InRange(w, h, x', y') {
      IndexBound(w, h, x, y);
      IndexBound(w, h, x', y');
      if (x', y') != (x, y) {
        if y' * w + x' == y * w + x {
          IndexInjective(w, x, y, x', y');
        }
        assert y' * w + x' != y * w + x;
      }
    }
  }

  /** A write out of range leaves the board as it was. */
  lemma WriteOutOfRange(b: seq<Colour>, w: int, h: int, x: int, y: int, c: Colour)
    requires Sized(b, w, h) && !InRange(w, h, x, y)
    ensures Write(b, w, h, x, y, c) == b
  {
  }

  /** A write changes at most the one index of its cell. */
  lemma WriteAt(b: seq<Colour>, w: int, h: int, x: int, y: int, c: Colour, i: int)
    requires Sized(b, w, h) && 0 <= i < |b|
    ensures Write(b, w, h, x, y, c)[i] == if InRange(w, h, x, y) && i == y * w + x then c else b[i]
  {
  }

  /** `filled`: the cell holds a colour; no cell out of range is filled. */
  predicate Filled(b: seq<Colour>, w: int, h: int, x: int, y: int)
    requires Sized(b, w, h)
  {
    Cell(b, w, h, x, y).Value?
  }

  /** `is_full_line`: every cell of row y is filled. */
  predicate FullLine(b: seq<Colour>, w: int, h: int, y: int)
    requires Sized(b, w, h)
  {
    forall x | 0 <= x < w :: Filled(b, w, h, x, y)
  }

  /** Only a row of the board can be full. */
  lemma FullLineInRange(b: seq<Colour>, w: int, h: int, y: int)
    requires Sized(b, w, h) && FullLine(b, w, h, y)
    ensures 0 <= y < h
  {
    assert Filled(b, w, h, 0, y);
  }

  /** `collision`: some set cell of the piece's box, placed at offset (px, py), is filled. */
  ghost predicate Collides(b: seq<Colour>, w: int, h: int, s: Shape, px: int, py: int)
    requires Sized(b, w, h)
  {
    exists cx, cy | 0 <= cx < s.Dims().0 && 0 <= cy < s.Dims().1 ::
      s.Get(cx, cy) && Filled(b, w, h, px + cx, py + cy)
  }

  /** `out_of_bounds`: some set cell of the piece's box, placed at offset (px, py), is off the board. */
  ghost predicate OutOfBounds(w: int, h: int, s: Shape, px: int, py: int)
  {
    exists cx, cy | 0 <= cx < s.Dims().0 && 0 <= cy < s.Dims().1 ::
      s.Get(cx, cy) && !InRange(w, h, px + cx, py + cy)
  }

  /** The test every piece command makes: `collision(..) || out_of_bounds(..)`. */
  ghost predicate Blocked(b: seq<Colour>, w: int, h: int, s: Shape, px: int, py: int)
    requires Sized(b, w, h)
  {
    Collides(b, w, h, s, px, py) || OutOfBounds(w, h, s, px, py)
  }

  /** A placement that is not blocked puts each set cell of the piece on an empty cell of the board. */
  lemma FreePlacement(b: seq<Colour>, w: int, h: int, s: Shape, px: int, py: int, cx: int, cy: int)
    requires Sized(b, w, h) && !Blocked(b, w, h, s, px, py) && s.Get(cx, cy)
    ensures InRange(w, h, px + cx, py + cy) && Cell(b, w, h, px + cx, py + cy) == Empty
  {
    assert 0 <= cx < s.Dims().0 && 0 <= cy < s.Dims().1;
  }

  /** A piece with a set cell is blocked at every offset low enough to push that cell off the board. */
  lemma BlockedBelow(b: seq<Colour>, w: int, h: int, s: Shape, px: int, py: int, cx: int, cy: int)
    requires Sized(b, w, h) && s.Get(cx, cy) && py + cy >= h
    ensures Blocked(b, w, h, s, px, py)
  {
    assert 0 <= cx < s.Dims().0 && 0 <= cy < s.Dims().1;
  }

  /** A piece with no cell in its box is never blocked, wherever it stands. */
  lemma InvisibleNeverBlocked(b: seq<Colour>, w: int, h: int, s: Shape, px: int, py: int)
    requires Sized(b, w, h) && forall x, y :: !s.Get(x, y)
    ensures !Blocked(b, w, h, s, px, py)
  {
  }

  /**
   * The I piece resting on the floor (its top row at h - 2) fits, but its clockwise turn does
   * not: the turn moves the cell (2, 1) of its box to (2, 2), one row below the board.
   */
  lemma IBlockedAtFloor(w: int, h: int, px: int)
    requires w >= 4 && h >= 4 && 0 <= px <= w - 3
    ensures !OutOfBounds(w, h, Canonical(I), px, h - 2)
    ensures OutOfBounds(w, h, RotatedCw(Canonical(I)), px, h - 2)
  {
    var s := Canonical(I);
    IBits();
    forall cx, cy | 0 <= cx < s.Dims().0 && 0 <= cy < s.Dims().1 && s.Get(cx, cy)
      ensures InRange(w, h, px + cx, h - 2 + cy)
    {
      assert cy * 4 + cx in {1, 5, 6, 7};
    }
    var c := RotatedCw(s);
    assert Occ(c.value, 2, 2) == CwSource(s, 2, 2);
    assert c.Get(2, 2) && !InRange(w, h, px + 2, h - 2 + 2);
  }

  /**
   * `move_lines_down(y)`: in every column, rows 2..=y take the colour of the row above,
   * row 1 becomes Empty, and row 0 and the rows below y keep theirs. Row 0 is never moved.
   */
  function Shifted(b: seq<Colour>, w: int, y: int): (r: seq<Colour>)
    requires w > 0
    ensures |r| == |b|
  {
    seq(|b|, i requires 0 <= i < |b| =>
      if 2 <= i / w <= y then
        RowAbove(w, i);
        b[i - w]
      else if i / w == 1 && 1 <= y then
        Empty
      else
        b[i])
  }

  /** The cells of a shifted board, row by row. */
  lemma ShiftedCell(b: seq<Colour>, w: int, h: int, y: int, x: int, r: int)
    requires Sized(b, w, h) && InRange(w, h, x, r)
    ensures Sized(Shifted(b, w, y), w, h)
    ensures Cell(Shifted(b, w, y), w, h, x, r) ==
      if 2 <= r <= y then Cell(b, w, h, x, r - 1)
      else if r == 1 && 1 <= y then Empty
      else Cell(b, w, h, x, r)
  {
    IndexBound(w, h, x, r);
    IndexCoords(w, x, r);
    assert r * w + x - w == (r - 1) * w + x;
  }

  /** A full row at or below row 2 receives the row above it. */
  lemma ShiftedRowAbove(b: seq<Colour>, w: int, h: int, y: int)
    requires Sized(b, w, h) && 2 <= y < h
    ensures forall x | 0 <= x < w :: Cell(Shifted(b, w, y), w, h, x, y) == Cell(b, w, h, x, y - 1)
  {
    forall x | 0 <= x < w
      ensures Cell(Shifted(b, w, y), w, h, x, y) == Cell(b, w, h, x, y - 1)
    {
      ShiftedCell(b, w, h, y, x, y);
    }
  }

  /** The piece written onto the board: each set cell of its box at offset (px, py) that is on the board takes colour c. */
  function Stamp(b: seq<Colour>, w: int, s: Shape, px: int, py: int, c: Colour): (r: seq<Colour>)
    requires w > 0
    ensures |r| == |b|
  {
    seq(|b|, i requires 0 <= i < |b| => if s.Get(i % w - px, i / w - py) then c else b[i])
  }

  /** The cells of a stamped board. */
  lemma StampCell(b: seq<Colour>, w: int, h: int, s: Shape, px: int, py: int, c: Colour, x: int, y: int)
    requires Sized(b, w, h)
    ensures Sized(Stamp(b, w, s, px, py, c), w, h)
    ensures Cell(Stamp(b, w, s, px, py, c), w, h, x, y) ==
      if InRange(w, h, x, y) && s.Get(x - px, y - py) then c else Cell(b, w, h, x, y)
  {
    if InRange(w, h, x, y) {
      IndexBound(w, h, x, y);
      IndexCoords(w, x, y);
    }
  }

  /**
   * The board part way through the `move_lines_down` loops: the columns left of cx, and the
   * rows 0..=k of column cx, hold the shifted board; every other cell still holds the original.
   */
  function ShiftPrefix(b0: seq<Colour>, w: int, y: int, cx: int, k: int): (r: seq<Colour>)
    requires w > 0
    ensures |r| == |b0|
  {
    var t := Shifted(b0, w, y);
    seq(|b0|, i requires 0 <= i < |b0| => if i % w < cx || (i % w == cx && i / w <= k) then t[i] else b0[i])
  }

  /** Before the first column nothing has changed. */
  lemma ShiftStart(b0: seq<Colour>, w: int, h: int, y: int)
    requires Sized(b0, w, h)
    ensures ShiftPrefix(b0, w, y, 0, 0) == b0
  {
    forall i | 0 <= i < |b0|
      ensures ShiftPrefix(b0, w, y, 0, 0)[i] == b0[i]
    {
      Coords(w, h, i);
    }
  }

  /**
   * One pass of the inner loop: the cell of row k + 1 in column cx, still original, takes
   * prev, which is Empty before row 1 and the original colour of row k after it.
   */
  lemma ShiftStep(b0: seq<Colour>, w: int, h: int, y: int, cx: int, k: int, prev: Colour)
    requires Sized(b0, w, h) && 0 <= cx < w && 0 <= k < y < h
    requires prev == if k == 0 then Empty else Cell(b0, w, h, cx, k)
    ensures 0 <= cx + (k + 1) * w < |b0|
    ensures ShiftPrefix(b0, w, y, cx, k)[cx + (k + 1) * w] == Cell(b0, w, h, cx, k + 1)
    ensures ShiftPrefix(b0, w, y, cx, k)[cx + (k + 1) * w := prev] == ShiftPrefix(b0, w, y, cx, k + 1)
  {
    var j := cx + (k + 1) * w;
    IndexBound(w, h, cx, k + 1);
    IndexCoords(w, cx, k + 1);
    if k > 0 {
      IndexBound(w, h, cx, k);
    }
    assert j - w == cx + k * w;
    var b' := ShiftPrefix(b0, w, y, cx, k)[j := prev];
    forall i | 0 <= i < |b0|
      ensures b'[i] == ShiftPrefix(b0, w, y, cx, k + 1)[i]
    {
      Coords(w, h, i);
    }
  }

  /** When the inner loop ends, column cx is done and column cx + 1 starts. */
  lemma ShiftColumnDone(b0: seq<Colour>, w: int, h: int, y: int, cx: int, k: int)
    requires Sized(b0, w, h) && 0 <= cx < w && 0 <= k && (k == y || (y < 0 && k == 0))
    ensures ShiftPrefix(b0, w, y, cx, k) == ShiftPrefix(b0, w, y, cx + 1, 0)
  {
    forall i | 0 <= i < |b0|
      ensures ShiftPrefix(b0, w, y, cx, k)[i] == ShiftPrefix(b0, w, y, cx + 1, 0)[i]
    {
      Coords(w, h, i);
    }
  }

  /** After the last column the whole board is shifted. */
  lemma ShiftDone(b0: seq<Colour>, w: int, h: int, y: int)
    requires Sized(b0, w, h)
    ensures ShiftPrefix(b0, w, y, w, 0) == Shifted(b0, w, y)
  {
    forall i | 0 <= i < |b0|
      ensures ShiftPrefix(b0, w, y, w, 0)[i] == Shifted(b0, w, y)[i]
    {
      Coords(w, h, i);
    }
  }

  /**
   * The board part way through the stamping loops of `merge`: the set cells of the piece
   * visited before (cx, cy), row by row, carry colour c; every other cell holds the original.
   */
  function StampPrefix(b0: seq<Colour>, w: int, s: Shape, px: int, py: int, c: Colour, cx: int, cy: int): (r: seq<Colour>)
    requires w > 0
    ensures |r| == |b0|
  {
    seq(|b0|, i requires 0 <= i < |b0| =>
      if s.Get(i % w - px, i / w - py) && VisitedBefore(i % w - px, i / w - py, cx, cy) then c else b0[i])
  }

  lemma StampStart(b0: seq<Colour>, w: int, h: int, s: Shape, px: int, py: int, c: Colour)
    requires Sized(b0, w, h)
    ensures StampPrefix(b0, w, s, px, py, c, 0, 0) == b0
  {
    forall i | 0 <= i < |b0|
      ensures StampPrefix(b0, w, s, px, py, c, 0, 0)[i] == b0[i]
    {
    }
  }

  /** Visiting box cell (cx, cy): when it is set, the board cell it covers, if any, takes colour c. */
  lemma StampStep(b0: seq<Colour>, w: int, h: int, s: Shape, px: int, py: int, c: Colour, cx: int, cy: int)
    requires Sized(b0, w, h)
    ensures var b := StampPrefix(b0, w, s, px, py, c, cx, cy);
      Sized(b, w, h) &&
      (if s.Get(cx, cy) then Write(b, w, h, px + cx, py + cy, c) else b) == StampPrefix(b0, w, s, px, py, c, cx + 1, cy)
  {
    var b := StampPrefix(b0, w, s, px, py, c, cx, cy);
    var b' := if s.Get(cx, cy) then Write(b, w, h, px + cx, py + cy, c) else b;
    forall i | 0 <= i < |b0|
      ensures b'[i] == StampPrefix(b0, w, s, px, py, c, cx + 1, cy)[i]
    {
      Coords(w, h, i);
      if s.Get(cx, cy) {
        WriteAt(b, w, h, px + cx, py + cy, c, i);
        if InRange(w, h, px + cx, py + cy) {
          IndexCoords(w, px + cx, py + cy);
        }
      }
    }
  }

  /** At the end of a row of the box, the next row starts. */
  lemma StampNextRow(b0: seq<Colour>, w: int, h: int, s: Shape, px: int, py: int, c: Colour, cy: int)
    requires Sized(b0, w, h)
    ensures StampPrefix(b0, w, s, px, py, c, s.Dims().0, cy) == StampPrefix(b0, w, s, px, py, c, 0, cy + 1)
  {
    forall i | 0 <= i < |b0|
      ensures StampPrefix(b0, w, s, px, py, c, s.Dims().0, cy)[i] == StampPrefix(b0, w, s, px, py, c, 0, cy + 1)[i]
    {
    }
  }

  /** After the last row of the box the piece is stamped. */
  lemma StampDone(b0: seq<Colour>, w: int, h: int, s: Shape, px: int, py: int, c: Colour)
    requires Sized(b0, w, h)
    ensures StampPrefix(b0, w, s, px, py, c, 0, s.Dims().1) == Stamp(b0, w, s, px, py, c)
  {
    forall i | 0 <= i < |b0|
      ensures StampPrefix(b0, w, s, px, py, c, 0, s.Dims().1)[i] == Stamp(b0, w, s, px, py, c)[i]
    {
    }
  }

  /**
   * `remove_lines`, for a piece at row offset top whose box is k rows high: rows top,
   * top + 1, ... are tested in turn, each on the board as the earlier shifts left it, and
   * each full one is shifted away. The result is the board and the number of rows removed.
   */
  function ClearRows(b: seq<Colour>, w: int, h: int, top: int, k: nat): (r: (seq<Colour>, nat))
    requires Sized(b, w, h)
    ensures Sized(r.0, w, h) && r.1 <= k
    ensures r.1 == 0 ==> r.0 == b
    decreases k
  {
    if k == 0 then
      (b, 0)
    else
      var p := ClearRows(b, w, h, top, k - 1);
      var row := top + k - 1;
      if FullLine(p.0, w, h, row) then (Shifted(p.0, w, row), p.1 + 1) else p
  }

  /** Rows off the board are never full, so a piece whose box lies above the board clears nothing. */
  lemma {:induction false} ClearRowsAbove(b: seq<Colour>, w: int, h: int, top: int, k: nat)
    requires Sized(b, w, h) && top + k <= 0
    ensures ClearRows(b, w, h, top, k) == (b, 0)
    decreases k
  {
    if k > 0 {
      ClearRowsAbove(b, w, h, top, k - 1);
      if FullLine(b, w, h, top + k - 1) {
        FullLineInRange(b, w, h, top + k - 1);
      }
    }
  }

  /** The score a merge adds for count removed rows: `1 << count`, when any. */
  function Award(count: nat): (a: nat)
    ensures count == 0 <==> a == 0
    ensures count > 0 ==> a == Pow2(count) && a >= 2
  {
    if count > 0 then Pow2(count) else 0
  }
}
