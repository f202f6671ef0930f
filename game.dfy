/**
 * The game engine of src/tris/game.rs: a w x h board of colours held in an array, the falling
 * piece (a U16Block and its colour) at offset (x, y), the score, the fall clock and the
 * game-over flag. Each method is proved against the board model of board.dfy.
 */
module Games {
  import opened Words
  import opened Colours
  import opened Blocks
  import opened Boards

  datatype Result<T> = Ok(value: T) | Err(error: string)

  /** `Duration::from_millis(1000).as_nanos()`: one fall step a second. */
  const FallRateNanos: int := 1_000_000_000

  /** `now.duration_since(last).as_nanos()` for instants given in nanoseconds; zero when `now` is earlier. */
  function Elapsed(now: int, last: int): (e: nat)
    ensures e <= if now >= last then now - last else 0
    ensures e >= now - last
  {
    if now >= last then now - last else 0
  }

  /**
   * Two clockwise turns of a fresh I piece: when the first is refused (as it is on the floor,
   * Boards.IBlockedAtFloor), the second is always accepted and leaves a piece with no cell in
   * its box. From there `down` always succeeds, so `drop` never ends and `tick` never locks it.
   */
  method VanishingI(g: Game) returns (first: bool, second: bool)
    requires g.Valid() && g.Piece() == Canonical(I)
    modifies g.block
    ensures !first ==> second && forall x, y :: !g.Piece().Get(x, y)
  {
    first := g.RotateClockwise();
    IVanishes();
    if !first {
      InvisibleNeverBlocked(g.board[..], g.w, g.h, RotatedCw(g.Piece()), g.x, g.y);
    }
    second := g.RotateClockwise();
  }

  class Game {
    var x: int
    var y: int
    var block: U16Block
    var colour: Colour
    const w: int
    const h: int
    const board: array<Colour>
    var score: int
    var lastFall: int
    const fallRateNanos: int
    var gameOver: bool

    /** The board is w*h cells of at least 4 x 4, the piece box fits its mask and the score is never negative. */
    ghost predicate Valid()
      reads this, block
    {
      w >= 4 && h >= 4 && board.Length == w * h && block.Model().Valid() && score >= 0
    }

    /** The piece's shape. */
    ghost function Piece(): Shape
      reads this, block
    {
      block.Model()
    }

    /** The fields `Game::new` builds before it calls `new_game`; the initial piece is replaced there. */
    constructor Init(w: int, h: int, now: int)
      requires w >= 4 && h >= 4
      ensures Valid() && fresh(board) && this.w == w && this.h == h
      ensures x == 0 && y == 0 && score == 0 && !gameOver && lastFall == now
      ensures fallRateNanos == FallRateNanos
      ensures forall i | 0 <= i < board.Length :: board[i] == Empty
    {
      var b := U16Block.New(T);
      CanonicalShapes(T);
      x, y := 0, 0;
      block := b;
      colour := Empty;
      this.w := w;
      this.h := h;
      board := new Colour[w * h](_ => Empty);
      score := 0;
      lastFall := now;
      fallRateNanos := FallRateNanos;
      gameOver := false;
    }

    /**
     * `Game::new`: "too small" when either side is below 4; otherwise an empty board of w*h
     * cells with the first piece (shape t, colour c, spawn offset (dx, dy)) placed.
     */
    static method New(w: int, h: int, t: BlockType, c: Colour, dx: int, dy: int, now: int) returns (r: Result<Game>)
      ensures r.Err? <==> w < 4 || h < 4
      ensures r.Err? ==> r.error == "too small"
      ensures r.Ok? ==> fresh(r.value) && fresh(r.value.board) && r.value.Valid()
      ensures r.Ok? ==> r.value.w == w && r.value.h == h && r.value.board.Length == w * h
      ensures r.Ok? ==> forall i | 0 <= i < r.value.board.Length :: r.value.board[i] == Empty
      ensures r.Ok? ==> r.value.score == 0 && !r.value.gameOver
      ensures r.Ok? ==> r.value.Piece() == Canonical(t) && r.value.colour == c
      ensures r.Ok? ==> r.value.x == w / 2 + dx && r.value.y == dy
      ensures r.Ok? ==> fresh(r.value.block) && r.value.lastFall == now && r.value.fallRateNanos == FallRateNanos
    {
      if w < 4 || h < 4 {
        return Err("too small");
      }
      var g := new Game.Init(w, h, now);
      g.NewGame(t, c, dx, dy, now);
      return Ok(g);
    }

    /** `new_game`: empties every cell, places a new piece, and resets the score and the game-over flag. */
    method NewGame(t: BlockType, c: Colour, dx: int, dy: int, now: int)
      requires Valid()
      modifies this, board
      ensures Valid() && fresh(block)
      ensures forall i | 0 <= i < board.Length :: board[i] == Empty
      ensures Piece() == Canonical(t) && colour == c && x == w / 2 + dx && y == dy && lastFall == now
      ensures score == 0 && !gameOver
    {
      var i := 0;
      while i < w * h
        modifies board
        invariant 0 <= i <= w * h
        invariant forall j | 0 <= j < i :: board[j] == Empty
      {
        board[i] := Empty;
        i := i + 1;
      }
      Random(t, c, dx, dy, now);
      score := 0;
      gameOver := false;
    }

    /** `get_score`. */
    function GetScore(): (s: int)
      reads this, block
      requires Valid()
      ensures s == score && s >= 0
    {
      score
    }

    /**
     * `random`: the next piece, of shape t and colour c, at offset (w / 2 + dx, dy). The game
     * is over once that placement collides, and stays over if it was.
     */
    method Random(t: BlockType, c: Colour, dx: int, dy: int, now: int)
      requires Valid()
      modifies this
      ensures Valid() && fresh(block) && Piece() == Canonical(t) && colour == c
      ensures x == w / 2 + dx && y == dy && lastFall == now && score == old(score)
      ensures gameOver == (old(gameOver) || Collides(board[..], w, h, Canonical(t), x, y))
    {
      block := U16Block.New(t);
      CanonicalShapes(t);
      colour := c;
      x := w / 2 + dx;
      y := dy;
      lastFall := now;
      var hit := Collision(x, y);
      if hit {
        gameOver := true;
      }
    }

    /**
     * `tick`: before a full fall step has elapsed since the last fall, nothing happens. After
     * it, the piece moves down a row or, when it cannot, is merged and the next piece placed.
     */
    method Tick(now: int, t: BlockType, c: Colour, dx: int, dy: int) returns (r: bool)
      requires Valid()
      modifies this, block, board
      ensures Valid()
      ensures r == (Elapsed(now, old(lastFall)) >= fallRateNanos)
      ensures !r ==> x == old(x) && y == old(y) && block == old(block) && Piece() == old(Piece())
      ensures !r ==> board[..] == old(board[..]) && score == old(score) && lastFall == old(lastFall)
      ensures !r ==> colour == old(colour) && gameOver == old(gameOver)
      ensures r && !Boards.Blocked(old(board[..]), w, h, old(Piece()), old(x), old(y) + 1) ==>
        x == old(x) && y == old(y) + 1 && board[..] == old(board[..]) && score == old(score) &&
        block == old(block) && Piece() == old(Piece()) && lastFall == now &&
        colour == old(colour) && gameOver == old(gameOver)
      ensures r && Boards.Blocked(old(board[..]), w, h, old(Piece()), old(x), old(y) + 1) ==>
        var p := ClearRows(Stamp(old(board[..]), w, old(Piece()), old(x), old(y), old(colour)), w, h, old(y), old(Piece()).Dims().1);
        board[..] == p.0 && score == old(score) + Award(p.1) &&
        Piece() == Canonical(t) && colour == c && x == w / 2 + dx && y == dy && lastFall == now &&
        gameOver == (old(gameOver) || Collides(board[..], w, h, Canonical(t), x, y))
      ensures old(gameOver) ==> gameOver
      ensures block == old(block) || fresh(block)
    {
      if Elapsed(now, lastFall) < fallRateNanos {
        return false;
      }
      var moved := Down(now);
      if !moved {
        var _ := Merge();
        Random(t, c, dx, dy, now);
      }
      return true;
    }

    /** `dims`. */
    function Dims(): (d: (int, int))
      reads this, block
      requires Valid()
      ensures d == (w, h) && d.0 >= 4 && d.1 >= 4
    {
      (w, h)
    }

    /** `get`: reading the array agrees with the board model's cell. */
    function Get(x: int, y: int): (c: Colour)
      reads this, block, board
      requires Valid()
      ensures c == Cell(board[..], w, h, x, y)
    {
      if x < 0 || x >= w || y < 0 || y >= h then
        Empty
      else
        IndexBound(w, h, x, y);
        board[y * w + x]
    }

    /**
     * `display_get`: on the board, a cell the piece covers shows the piece's colour and any
     * other cell shows what `get` reads; that is the board as a merge would stamp it.
     */
    function DisplayGet(x: int, y: int): (c: Colour)
      reads this, block, board
      requires Valid()
      ensures InRange(w, h, x, y) && Piece().Get(x - this.x, y - this.y) ==> c == colour
      ensures !(InRange(w, h, x, y) && Piece().Get(x - this.x, y - this.y)) ==> c == Get(x, y)
      ensures c == Cell(Stamp(board[..], w, Piece(), this.x, this.y, colour), w, h, x, y)
    {
      StampCell(board[..], w, h, Piece(), this.x, this.y, colour, x, y);
      if x < 0 || x >= w || y < 0 || y >= h then
        Empty
      else if block.Model().Get(x - this.x, y - this.y) then
        colour
      else
        IndexBound(w, h, x, y);
        board[y * w + x]
    }

    /** `filled`: the cell holds a colour. */
    function Filled(x: int, y: int): (r: bool)
      reads this, block, board
      requires Valid()
      ensures r == Boards.Filled(board[..], w, h, x, y)
      ensures r ==> InRange(w, h, x, y)
    {
      match Get(x, y)
      case Empty => false
      case _ => true
    }

    /** `set`: writes an in-range cell and ignores any other; no other cell changes. */
    method Set(x: int, y: int, c: Colour)
      requires Valid()
      modifies board
      ensures board[..] == Write(old(board[..]), w, h, x, y, c)
      ensures forall x', y' :: Get(x', y') == if InRange(w, h, x, y) && x' == x && y' == y then c else old(Get(x', y'))
    {
      ghost var b0 := board[..];
      if x < 0 || x >= w || y < 0 || y >= h {
        return;
      }
      IndexBound(w, h, x, y);
      board[y * w + x] := c;
      assert board[..] == Write(b0, w, h, x, y, c);
      forall x', y'
        ensures Get(x', y') == if InRange(w, h, x, y) && x' == x && y' == y then c else Cell(b0, w, h, x', y')
      {
        CellAfterWrite(b0, w, h, x, y, c, x', y');
      }
    }

    /** `out_of_bounds`: scans the piece's box row by row for a set cell that offset (px, py) puts off the board. */
    method OutOfBounds(px: int, py: int) returns (r: bool)
      requires Valid()
      ensures r == Boards.OutOfBounds(w, h, Piece(), px, py)
    {
      var s := block.Model();
      var (bw, bh) := s.Dims();
      var cy := 0;
      while cy < bh
        invariant 0 <= cy <= bh
        invariant forall cx', cy' | 0 <= cx' < bw && 0 <= cy' < cy :: !(s.Get(cx', cy') && !InRange(w, h, px + cx', py + cy'))
      {
        var cx := 0;
        while cx < bw
          invariant 0 <= cx <= bw
          invariant forall cx', cy' | 0 <= cx' < bw && 0 <= cy' < cy :: !(s.Get(cx', cy') && !InRange(w, h, px + cx', py + cy'))
          invariant forall cx' | 0 <= cx' < cx :: !(s.Get(cx', cy) && !InRange(w, h, px + cx', py + cy))
        {
          if s.Get(cx, cy) {
            var x, y := px + cx, py + cy;
            if x < 0 || x >= w || y < 0 || y >= h {
              return true;
            }
          }
          cx := cx + 1;
        }
        cy := cy + 1;
      }
      return false;
    }

    /** `collision`: scans the piece's box row by row for a set cell that offset (px, py) puts on a filled cell. */
    method Collision(px: int, py: int) returns (r: bool)
      requires Valid()
      ensures r == Collides(board[..], w, h, Piece(), px, py)
    {
      var s := block.Model();
      var (bw, bh) := s.Dims();
      var cy := 0;
      while cy < bh
        invariant 0 <= cy <= bh
        invariant forall cx', cy' | 0 <= cx' < bw && 0 <= cy' < cy ::
          !(s.Get(cx', cy') && Boards.Filled(board[..], w, h, px + cx', py + cy'))
      {
        var cx := 0;
        while cx < bw
          invariant 0 <= cx <= bw
          invariant forall cx', cy' | 0 <= cx' < bw && 0 <= cy' < cy ::
            !(s.Get(cx', cy') && Boards.Filled(board[..], w, h, px + cx', py + cy'))
          invariant forall cx' | 0 <= cx' < cx :: !(s.Get(cx', cy) && Boards.Filled(board[..], w, h, px + cx', py + cy))
        {
          if s.Get(cx, cy) {
            if Filled(px + cx, py + cy) {
              return true;
            }
          }
          cx := cx + 1;
        }
        cy := cy + 1;
      }
      return false;
    }

    /** The test the piece commands repeat: `collision(px, py) || out_of_bounds(px, py)`. */
    method Blocked(px: int, py: int) returns (r: bool)
      requires Valid()
      ensures r == Boards.Blocked(board[..], w, h, Piece(), px, py)
    {
      r := Collision(px, py);
      if !r {
        r := OutOfBounds(px, py);
      }
    }

    /**
     * `rotate_clockwise`: turns the piece, and turns it back anticlockwise when the turned
     * piece is blocked where it stands. Position and board do not change.
     */
    method RotateClockwise() returns (ok: bool)
      requires Valid()
      modifies block
      ensures Valid()
      ensures ok == !Boards.Blocked(board[..], w, h, RotatedCw(old(Piece())), x, y)
      ensures ok ==> Piece() == RotatedCw(old(Piece()))
      ensures !ok ==> Piece() == RotatedAcw(RotatedCw(old(Piece())))
    {
      block.RotateClockwise();
      var blocked := Blocked(x, y);
      if blocked {
        block.RotateAnticlockwise();
        return false;
      }
      return true;
    }

    /**
     * `rotate_anticlockwise`: turns the piece, and turns it back clockwise when the turned
     * piece is blocked where it stands. Position and board do not change.
     */
    method RotateAnticlockwise() returns (ok: bool)
      requires Valid()
      modifies block
      ensures Valid()
      ensures ok == !Boards.Blocked(board[..], w, h, RotatedAcw(old(Piece())), x, y)
      ensures ok ==> Piece() == RotatedAcw(old(Piece()))
      ensures !ok ==> Piece() == RotatedCw(RotatedAcw(old(Piece())))
    {
      block.RotateAnticlockwise();
      var blocked := Blocked(x, y);
      if blocked {
        block.RotateClockwise();
        return false;
      }
      return true;
    }

    /** `slide(dx)`: moves the piece dx columns when it is not blocked there; nothing else changes. */
    method Slide(dx: int) returns (ok: bool)
      requires Valid()
      modifies this
      ensures Valid() && block == old(block) && colour == old(colour)
      ensures ok == !Boards.Blocked(board[..], w, h, Piece(), old(x) + dx, old(y))
      ensures x == (if ok then old(x) + dx else old(x)) && y == old(y)
      ensures score == old(score) && lastFall == old(lastFall) && gameOver == old(gameOver)
    {
      var blocked := Blocked(x + dx, y);
      if blocked {
        return false;
      }
      x := x + dx;
      return true;
    }

    /** `down`: moves the piece one row down when it is not blocked there, and restarts the fall clock. */
    method Down(now: int) returns (ok: bool)
      requires Valid()
      modifies this
      ensures Valid() && block == old(block) && colour == old(colour)
      ensures ok == !Boards.Blocked(board[..], w, h, Piece(), old(x), old(y) + 1)
      ensures x == old(x) && y == (if ok then old(y) + 1 else old(y))
      ensures lastFall == (if ok then now else old(lastFall))
      ensures score == old(score) && gameOver == old(gameOver)
    {
      var blocked := Blocked(x, y + 1);
      if blocked {
        return false;
      }
      lastFall := now;
      y := y + 1;
      return true;
    }

    /**
     * `drop`: moves the piece down row by row until the next row is blocked. Every row it
     * passes is free. The loop ends because a set cell of the piece reaches the bottom.
     */
    method Drop()
      requires Valid() && exists cx, cy :: Piece().Get(cx, cy)
      modifies this
      ensures Valid() && block == old(block) && colour == old(colour)
      ensures x == old(x) && y >= old(y)
      ensures Boards.Blocked(board[..], w, h, Piece(), x, y + 1)
      ensures forall k | old(y) < k <= y :: !Boards.Blocked(board[..], w, h, Piece(), x, k)
      ensures score == old(score) && lastFall == old(lastFall) && gameOver == old(gameOver)
    {
      ghost var cx, cy :| Piece().Get(cx, cy);
      while true
        invariant Valid() && block == old(block) && colour == old(colour)
        invariant x == old(x) && y >= old(y)
        invariant forall k | old(y) < k <= y :: !Boards.Blocked(board[..], w, h, Piece(), x, k)
        invariant score == old(score) && lastFall == old(lastFall) && gameOver == old(gameOver)
        decreases h - y
      {
        var blocked := Blocked(x, y + 1);
        if blocked {
          break;
        }
        FreePlacement(board[..], w, h, Piece(), x, y + 1, cx, cy);
        y := y + 1;
      }
    }

    /**
     * `merge`: writes the piece into the board, removes the full rows the box spans and adds
     * `1 << count` to the score when it removed count > 0 rows. Returns count.
     */
    method Merge() returns (count: int)
      requires Valid()
      modifies this, board
      ensures Valid() && block == old(block) && Piece() == old(Piece()) && colour == old(colour)
      ensures x == old(x) && y == old(y) && lastFall == old(lastFall) && gameOver == old(gameOver)
      ensures var p := ClearRows(Stamp(old(board[..]), w, Piece(), x, y, colour), w, h, y, Piece().Dims().1);
        board[..] == p.0 && count == p.1
      ensures 0 <= count <= Piece().Dims().1
      ensures score == old(score) + Award(count)
    {
      StampPiece();
      count := RemoveLines();
      if count > 0 {
        score := score + Pow2(count);
      }
    }

    /**
     * The loops at the head of `merge`: the piece's colour goes into every board cell that a
     * set cell of its box covers, and nothing else changes.
     */
    method StampPiece()
      requires Valid()
      modifies board
      ensures board[..] == Stamp(old(board[..]), w, Piece(), x, y, colour)
    {
      var s := block.Model();
      var (bw, bh) := s.Dims();
      ghost var b0 := board[..];
      StampStart(b0, w, h, s, x, y, colour);
      var cy := 0;
      while cy < bh
        invariant 0 <= cy <= bh
        invariant board[..] == StampPrefix(b0, w, s, x, y, colour, 0, cy)
      {
        var cx := 0;
        while cx < bw
          invariant 0 <= cx <= bw
          invariant board[..] == StampPrefix(b0, w, s, x, y, colour, cx, cy)
        {
          StampStep(b0, w, h, s, x, y, colour, cx, cy);
          if s.Get(cx, cy) {
            Set(x + cx, y + cy, colour);
          }
          cx := cx + 1;
        }
        StampNextRow(b0, w, h, s, x, y, colour, cy);
        cy := cy + 1;
      }
      StampDone(b0, w, h, s, x, y, colour);
    }

    /**
     * `remove_lines`: tests the rows y, y + 1, ... that the piece's box spans, in turn, and
     * shifts each full one away. Returns how many it removed.
     */
    method RemoveLines() returns (count: int)
      requires Valid()
      modifies board
      ensures var p := ClearRows(old(board[..]), w, h, y, Piece().Dims().1);
        board[..] == p.0 && count == p.1
    {
      var (_, bh) := block.Model().Dims();
      ghost var b0 := board[..];
      count := 0;
      var cy := 0;
      while cy < bh
        invariant 0 <= cy <= bh
        invariant ClearRows(b0, w, h, y, cy).0 == board[..] && ClearRows(b0, w, h, y, cy).1 == count
      {
        var row := cy + y;
        var full := IsFullLine(row);
        if full {
          FullLineInRange(board[..], w, h, row);
          MoveLinesDown(row);
          count := count + 1;
        }
        cy := cy + 1;
      }
    }

    /** `is_full_line`: scans row `row` for a cell that is not filled. */
    method IsFullLine(row: int) returns (r: bool)
      requires Valid()
      ensures r == FullLine(board[..], w, h, row)
      ensures r ==> 0 <= row < h
    {
      var cx := 0;
      while cx < w
        invariant 0 <= cx <= w
        invariant forall x' | 0 <= x' < cx :: Boards.Filled(board[..], w, h, x', row)
      {
        if !Filled(cx, row) {
          return false;
        }
        cx := cx + 1;
      }
      FullLineInRange(board[..], w, h, row);
      return true;
    }

    /**
     * `move_lines_down(row)`: walks each column from row 1 to row `row`, carrying the colour of
     * the row above in `prev` (Empty for row 1). Row 0 is never written.
     */
    method MoveLinesDown(row: int)
      requires Valid() && row < h
      modifies board
      ensures board[..] == Shifted(old(board[..]), w, row)
    {
      ghost var b0 := board[..];
      ShiftStart(b0, w, h, row);
      var cx := 0;
      while cx < w
        invariant 0 <= cx <= w
        invariant board[..] == ShiftPrefix(b0, w, row, cx, 0)
      {
        var index := cx;
        var prev := Empty;
        var k := 0;
        while k < row
          invariant 0 <= k <= if 0 <= row then row else 0
          invariant index == cx + k * w
          invariant prev == if k == 0 then Empty else Cell(b0, w, h, cx, k)
          invariant board[..] == ShiftPrefix(b0, w, row, cx, k)
        {
          ShiftStep(b0, w, h, row, cx, k, prev);
          index := index + w;
          var here := board[index];
          board[index] := prev;
          prev := here;
          k := k + 1;
        }
        ShiftColumnDone(b0, w, h, row, cx, k);
        cx := cx + 1;
      }
      ShiftDone(b0, w, h, row);
    }

    /** `is_game_over`. */
    function IsGameOver(): (over: bool)
      reads this
      ensures over == gameOver
    {
      gameOver
    }
  }
}
