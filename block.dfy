/**
 * Piece geometry (src/tris/block.rs): a 16-bit occupancy mask whose bit y*4 + x is the cell
 * (x, y) of a 4x4 grid, with a bounding box 0..=mx x 0..=my.
 */
module Blocks {
  import opened Words

  /** The seven canonical shapes. */
  datatype BlockType = T | LL | RL | B | LZ | RZ | I

  /** Cell (x, y) of the 4x4 grid is set in mask v. */
  predicate Occ(v: u16, x: int, y: int)
  {
    0 <= x < 4 && 0 <= y < 4 && Bit(v, y * 4 + x)
  }

  /** A mask is determined by its 4x4 cells. */
  lemma OccEqual(a: u16, b: u16)
    requires forall x, y | 0 <= x < 4 && 0 <= y < 4 :: Occ(a, x, y) == Occ(b, x, y)
    ensures a == b
  {
    forall q: nat | q < 16
      ensures Bit(a, q) == Bit(b, q)
    {
      assert Occ(a, q % 4, q / 4) == Occ(b, q % 4, q / 4);
    }
    SameBits(a, b);
  }

  lemma EmptyMask()
    ensures forall x, y :: !Occ(0, x, y)
  {
    forall x, y | 0 <= x < 4 && 0 <= y < 4
      ensures !Occ(0, x, y)
    {
      ZeroBit(y * 4 + x);
    }
  }

  /** The mask whose cells at positions below n are exactly those f chooses. */
  function FromCells(f: (int, int) -> bool, n: nat): (r: u16)
    requires n <= 16
    ensures forall x, y | 0 <= x < 4 && 0 <= y < 4 :: Occ(r, x, y) <==> y * 4 + x < n && f(x, y)
  {
    if n == 0 then
      EmptyMask();
      0
    else
      var p := n - 1;
      var r := FromCells(f, p);
      var r' := if f(p % 4, p / 4) then BitOr(r, Shl1(p as u16)) else r;
      forall x, y | 0 <= x < 4 && 0 <= y < 4
        ensures Occ(r', x, y) <==> y * 4 + x < n && f(x, y)
      {
        var q := y * 4 + x;
        if q == p {
          assert x == p % 4 && y == p / 4;
          assert Occ(r', x, y) == f(x, y);
        } else {
          assert Bit(r', q) == Bit(r, q);
          assert Occ(r', x, y) == Occ(r, x, y);
        }
      }
      r'
  }

  /** A piece: an occupancy mask and its bounding box 0..=mx x 0..=my. */
  datatype Shape = Shape(value: u16, mx: u16, my: u16)
  {
    /** The box fits the 4x4 grid, so that every shift amount in the rotations is below 16. */
    predicate Valid()
    {
      mx <= 3 && my <= 3
    }

    predicate Square()
    {
      mx == my
    }

    /** Every set bit lies inside the bounding box. */
    predicate InBox()
    {
      forall x, y | 0 <= x < 4 && 0 <= y < 4 && Occ(value, x, y) :: x <= mx as int && y <= my as int
    }

    /** Occupancy of cell (x, y) of the box; false outside it. */
    predicate Get(x: int, y: int)
    {
      0 <= x <= mx as int && 0 <= y <= my as int && Occ(value, x, y)
    }

    /** The box dimensions (width, height) = (mx + 1, my + 1). */
    function Dims(): (d: (int, int))
      ensures d.0 >= 1 && d.1 >= 1
      ensures forall x, y :: Get(x, y) ==> 0 <= x < d.0 && 0 <= y < d.1
    {
      (mx as int + 1, my as int + 1)
    }
  }

  /** The occupied cells of the box. */
  function Cells(s: Shape): set<(int, int)>
  {
    set x, y | 0 <= x < 4 && 0 <= y < 4 && s.Get(x, y) :: (x, y)
  }

  /**
   * The table of `U16Block::new`. The source writes each mask as the or of single-bit
   * constants (`1 << q` for the positions q of SourceBits); the masks here are those ors
   * folded, as the compiler folds them, and CanonicalBits ties the two together.
   */
  function Canonical(t: BlockType): (r: Shape)
    ensures r.Valid() && r.value < 1024
    ensures r.Square() <==> t != I
  {
    match t
    case T  => Shape(0x0072, 2, 2)
    case LL => Shape(0x0322, 2, 2)
    case RL => Shape(0x0311, 2, 2)
    case B  => Shape(0x0031, 1, 1)
    case LZ => Shape(0x0063, 2, 2)
    case RZ => Shape(0x0036, 2, 2)
    case I  => Shape(0x00e2, 2, 3)
  }

  /**
   * The bit positions of the constants the source ors together for each shape. B names
   * position 5 twice, so it has three positions, not four.
   */
  function SourceBits(t: BlockType): set<nat>
  {
    match t
    case T  => {1, 4, 5, 6}
    case LL => {1, 5, 8, 9}
    case RL => {0, 4, 8, 9}
    case B  => {0, 5, 4, 5}
    case LZ => {0, 1, 5, 6}
    case RZ => {1, 2, 4, 5}
    case I  => {1, 5, 6, 7}
  }

  /** Each mask of the table has exactly the bits of the source's constants set. */
  lemma CanonicalBits(t: BlockType)
    ensures forall q: nat | q < 16 :: Bit(Canonical(t).value, q) <==> q in SourceBits(t)
  {
    match t
    case T  => TBits();
    case LL => LLBits();
    case RL => RLBits();
    case B  => BBits();
    case LZ => LZBits();
    case RZ => RZBits();
    case I  => IBits();
  }

  /** The set bits of 0x0072. */
  lemma TBits()
    ensures forall q: nat | q < 16 :: Bit(0x0072, q) <==> q == 1 || q == 4 || q == 5 || q == 6
  {
    MaskBits(0x0072, {1, 4, 5, 6});
  }

  /** The set bits of 0x0322. */
  lemma LLBits()
    ensures forall q: nat | q < 16 :: Bit(0x0322, q) <==> q == 1 || q == 5 || q == 8 || q == 9
  {
    MaskBits(0x0322, {1, 5, 8, 9});
  }

  /** The set bits of 0x0311. */
  lemma RLBits()
    ensures forall q: nat | q < 16 :: Bit(0x0311, q) <==> q == 0 || q == 4 || q == 8 || q == 9
  {
    MaskBits(0x0311, {0, 4, 8, 9});
  }

  /** The set bits of 0x0031. */
  lemma BBits()
    ensures forall q: nat | q < 16 :: Bit(0x0031, q) <==> q == 0 || q == 4 || q == 5
  {
    MaskBits(0x0031, {0, 4, 5});
  }

  /** The set bits of 0x0063. */
  lemma LZBits()
    ensures forall q: nat | q < 16 :: Bit(0x0063, q) <==> q == 0 || q == 1 || q == 5 || q == 6
  {
    MaskBits(0x0063, {0, 1, 5, 6});
  }

  /** The set bits of 0x0036. */
  lemma RZBits()
    ensures forall q: nat | q < 16 :: Bit(0x0036, q) <==> q == 1 || q == 2 || q == 4 || q == 5
  {
    MaskBits(0x0036, {1, 2, 4, 5});
  }

  /** The set bits of 0x00e2. */
  lemma IBits()
    ensures forall q: nat | q < 16 :: Bit(0x00e2, q) <==> q == 1 || q == 5 || q == 6 || q == 7
  {
    MaskBits(0x00e2, {1, 5, 6, 7});
  }

  /** The set bits of 0x0262. */
  lemma TurnedTBits()
    ensures forall q: nat | q < 16 :: Bit(0x0262, q) <==> q == 1 || q == 5 || q == 6 || q == 9
  {
    MaskBits(0x0262, {1, 5, 6, 9});
  }

  /**
   * Cell (x, y) of the clockwise image of s. Clockwise rotation sends a set cell (x', y') of
   * the box to (my - y', x'), so (x, y) is set iff (y, my - x) is a set cell of the box.
   */
  predicate CwSource(s: Shape, x: int, y: int)
  {
    0 <= x <= s.my as int && y <= s.mx as int && Occ(s.value, y, s.my as int - x)
  }

  /**
   * Cell (x, y) of the anticlockwise image of s. Anticlockwise rotation sends a set cell
   * (x', y') of the box to (y', mx - x'), so (x, y) is set iff (mx - y, x) is a set cell of the box.
   */
  predicate AcwSource(s: Shape, x: int, y: int)
  {
    x <= s.my as int && 0 <= y <= s.mx as int && Occ(s.value, s.mx as int - y, x)
  }

  /**
   * Clockwise rotation, defined by the cells of its result (a mask is determined by its cells,
   * and FromCells shows one exists). The box is kept, not swapped.
   */
  ghost function RotatedCw(s: Shape): (r: Shape)
    ensures r.mx == s.mx && r.my == s.my
    ensures forall x, y | 0 <= x < 4 && 0 <= y < 4 :: Occ(r.value, x, y) <==> CwSource(s, x, y)
  {
    var w := FromCells((x: int, y: int) => CwSource(s, x, y), 16);
    assert forall x, y | 0 <= x < 4 && 0 <= y < 4 :: Occ(w, x, y) <==> CwSource(s, x, y);
    var v: u16 :| forall x, y | 0 <= x < 4 && 0 <= y < 4 :: Occ(v, x, y) <==> CwSource(s, x, y);
    Shape(v, s.mx, s.my)
  }

  /** Anticlockwise rotation, defined by the cells of its result. The box is kept, not swapped. */
  ghost function RotatedAcw(s: Shape): (r: Shape)
    ensures r.mx == s.mx && r.my == s.my
    ensures forall x, y | 0 <= x < 4 && 0 <= y < 4 :: Occ(r.value, x, y) <==> AcwSource(s, x, y)
  {
    var w := FromCells((x: int, y: int) => AcwSource(s, x, y), 16);
    assert forall x, y | 0 <= x < 4 && 0 <= y < 4 :: Occ(w, x, y) <==> AcwSource(s, x, y);
    var v: u16 :| forall x, y | 0 <= x < 4 && 0 <= y < 4 :: Occ(v, x, y) <==> AcwSource(s, x, y);
    Shape(v, s.mx, s.my)
  }

  /**
   * The clockwise image read from the source side: every set cell (x, y) of the box lands on
   * (my - y, x), and a set cell outside the box (the I shape's fourth cell) lands nowhere.
   */
  lemma CwImage(s: Shape, x: int, y: int)
    requires s.Valid() && Occ(s.value, x, y)
    ensures x <= s.mx as int && y <= s.my as int ==> Occ(RotatedCw(s).value, s.my as int - y, x)
    ensures forall x', y' | 0 <= x' < 4 && 0 <= y' < 4 && Occ(RotatedCw(s).value, x', y') ::
      Occ(s.value, y', s.my as int - x') && y' <= s.mx as int && s.my as int - x' <= s.my as int
  {
  }

  /** A square box with every set bit inside stays so under both rotations. */
  lemma RotationsKeepBox(s: Shape)
    requires s.Valid() && s.Square() && s.InBox()
    ensures RotatedCw(s).Valid() && RotatedCw(s).Square() && RotatedCw(s).InBox()
    ensures RotatedAcw(s).Valid() && RotatedAcw(s).Square() && RotatedAcw(s).InBox()
  {
  }

  /** On a square box with every set bit inside, the two rotations undo each other. */
  lemma {:induction false} RotationsInverse(s: Shape)
    requires s.Valid() && s.Square() && s.InBox()
    ensures RotatedAcw(RotatedCw(s)) == s
    ensures RotatedCw(RotatedAcw(s)) == s
  {
    var ca := RotatedAcw(RotatedCw(s)).value;
    var ac := RotatedCw(RotatedAcw(s)).value;
    forall x, y | 0 <= x < 4 && 0 <= y < 4
      ensures Occ(ca, x, y) == Occ(s.value, x, y)
    {
      CwAcwCell(s, x, y);
    }
    forall x, y | 0 <= x < 4 && 0 <= y < 4
      ensures Occ(ac, x, y) == Occ(s.value, x, y)
    {
      AcwCwCell(s, x, y);
    }
    OccEqual(ca, s.value);
    OccEqual(ac, s.value);
  }

  lemma CwAcwCell(s: Shape, x: int, y: int)
    requires s.Valid() && s.Square() && s.InBox() && 0 <= x < 4 && 0 <= y < 4
    ensures Occ(RotatedAcw(RotatedCw(s)).value, x, y) == Occ(s.value, x, y)
  {
    var m := s.mx as int;
    var c := RotatedCw(s);
    if Occ(s.value, x, y) {
      assert x <= m && y <= m;
    }
    assert Occ(RotatedAcw(c).value, x, y) == AcwSource(c, x, y);
    if x <= m && y <= m {
      assert Occ(c.value, m - y, x) == CwSource(s, m - y, x);
    }
  }

  lemma AcwCwCell(s: Shape, x: int, y: int)
    requires s.Valid() && s.Square() && s.InBox() && 0 <= x < 4 && 0 <= y < 4
    ensures Occ(RotatedCw(RotatedAcw(s)).value, x, y) == Occ(s.value, x, y)
  {
    var m := s.mx as int;
    var a := RotatedAcw(s);
    if Occ(s.value, x, y) {
      assert x <= m && y <= m;
    }
    assert Occ(RotatedCw(a).value, x, y) == CwSource(a, x, y);
    if x <= m && y <= m {
      assert Occ(a.value, y, m - x) == AcwSource(s, y, m - x);
    }
  }

  /** Two clockwise rotations turn a square box half round: (x, y) comes from (m - x, m - y). */
  lemma HalfTurnCell(s: Shape, x: int, y: int)
    requires s.Valid() && s.Square() && 0 <= x < 4 && 0 <= y < 4
    ensures Occ(RotatedCw(RotatedCw(s)).value, x, y) ==
      (x <= s.mx as int && y <= s.mx as int && Occ(s.value, s.mx as int - x, s.mx as int - y))
  {
    var m := s.mx as int;
    var c := RotatedCw(s);
    var r := RotatedCw(c);
    assert Occ(r.value, x, y) == CwSource(c, x, y);
    if x <= m && y <= m {
      CwCell(s, y, m - x);
    }
  }

  lemma CwCell(s: Shape, x: int, y: int)
    requires 0 <= x < 4 && 0 <= y < 4
    ensures Occ(RotatedCw(s).value, x, y) == CwSource(s, x, y)
  {
  }

  /** On a square box with every set bit inside, four clockwise rotations are the identity. */
  lemma {:induction false} FourRotations(s: Shape)
    requires s.Valid() && s.Square() && s.InBox()
    ensures RotatedCw(RotatedCw(RotatedCw(RotatedCw(s)))) == s
  {
    var m := s.mx as int;
    var h := RotatedCw(RotatedCw(s));
    var f := RotatedCw(RotatedCw(h));
    forall x, y | 0 <= x < 4 && 0 <= y < 4
      ensures Occ(f.value, x, y) == Occ(s.value, x, y)
    {
      HalfTurnCell(h, x, y);
      if x <= m && y <= m {
        HalfTurnCell(s, m - x, m - y);
      }
      if Occ(s.value, x, y) {
        assert x <= m && y <= m;
      }
    }
    OccEqual(f.value, s.value);
  }

  /** The clockwise cell map (x, y) |-> (m - y, x) applied to a set of cells. */
  function CwMap(S: set<(int, int)>, m: int): set<(int, int)>
  {
    set c | c in S :: (m - c.1, c.0)
  }

  lemma {:induction false} CwMapSize(S: set<(int, int)>, m: int)
    ensures |CwMap(S, m)| == |S|
    decreases |S|
  {
    if S != {} {
      var c :| c in S;
      var S' := S - {c};
      CwMapSize(S', m);
      assert CwMap(S, m) == CwMap(S', m) + {(m - c.1, c.0)};
      assert (m - c.1, c.0) !in CwMap(S', m);
    }
  }

  /** Membership in Cells, spelled out. */
  lemma InCells(s: Shape, x: int, y: int)
    ensures (x, y) in Cells(s) <==> 0 <= x < 4 && 0 <= y < 4 && s.Get(x, y)
  {
    if 0 <= x < 4 && 0 <= y < 4 && s.Get(x, y) {
      assert (x, y) in Cells(s);
    }
  }

  /** On a square box, cell (x, y) is a cell of the clockwise image iff (y, m - x) is a cell of s. */
  lemma CwCellOfImage(s: Shape, x: int, y: int)
    requires s.Valid() && s.Square()
    requires 0 <= x <= s.mx as int && 0 <= y <= s.mx as int
    ensures (x, y) in Cells(RotatedCw(s)) <==> (y, s.mx as int - x) in Cells(s)
  {
    CwCell(s, x, y);
    InCells(RotatedCw(s), x, y);
    InCells(s, y, s.mx as int - x);
  }

  /** Every cell of the clockwise image comes from a cell of s. */
  lemma CwCellsFrom(s: Shape)
    requires s.Valid() && s.Square()
    ensures forall c | c in Cells(RotatedCw(s)) :: c in CwMap(Cells(s), s.mx as int)
  {
    var m := s.mx as int;
    var r := RotatedCw(s);
    forall c | c in Cells(r)
      ensures c in CwMap(Cells(s), m)
    {
      InCells(r, c.0, c.1);
      CwCellOfImage(s, c.0, c.1);
      var d := (c.1, m - c.0);
      assert d in Cells(s) && c == (m - d.1, d.0);
    }
  }

  /** Every cell of s lands on a cell of the clockwise image. */
  lemma CwCellsTo(s: Shape)
    requires s.Valid() && s.Square()
    ensures forall c | c in CwMap(Cells(s), s.mx as int) :: c in Cells(RotatedCw(s))
  {
    var m := s.mx as int;
    forall c | c in CwMap(Cells(s), m)
      ensures c in Cells(RotatedCw(s))
    {
      var d :| d in Cells(s) && c == (m - d.1, d.0);
      InCells(s, d.0, d.1);
      CwCellOfImage(s, m - d.1, d.0);
    }
  }

  /** On a square box, the cells of the clockwise image are the cells of s under (x, y) |-> (m - y, x). */
  lemma CwCells(s: Shape)
    requires s.Valid() && s.Square()
    ensures Cells(RotatedCw(s)) == CwMap(Cells(s), s.mx as int)
  {
    var A, B := Cells(RotatedCw(s)), CwMap(Cells(s), s.mx as int);
    CwCellsFrom(s);
    CwCellsTo(s);
    assert A <= B && B <= A;
  }

  /** On a square box, clockwise rotation keeps the number of cells. */
  lemma CwKeepsCellCount(s: Shape)
    requires s.Valid() && s.Square()
    ensures |Cells(RotatedCw(s))| == |Cells(s)|
  {
    CwCells(s);
    CwMapSize(Cells(s), s.mx as int);
  }

  /** On a square box with every set bit inside, anticlockwise rotation keeps the number of cells. */
  lemma {:induction false} AcwKeepsCellCount(s: Shape)
    requires s.Valid() && s.Square() && s.InBox()
    ensures |Cells(RotatedAcw(s))| == |Cells(s)|
  {
    var a := RotatedAcw(s);
    RotationsKeepBox(s);
    RotationsInverse(s);
    CwKeepsCellCount(a);
  }

  /** Every canonical shape but I has a square box holding all its set bits. */
  lemma CanonicalShapes(t: BlockType)
    ensures Canonical(t).Valid()
    ensures t != I ==> Canonical(t).Square() && Canonical(t).InBox()
  {
    var s := Canonical(t);
    CanonicalBits(t);
    if t != I {
      forall x, y | 0 <= x < 4 && 0 <= y < 4 && Occ(s.value, x, y)
        ensures x <= s.mx as int && y <= s.my as int
      {
        assert y * 4 + x in SourceBits(t);
      }
    }
  }

  /** The source's expected values: T is 0x0072 in a 3x3 box and becomes 0x0262 turned clockwise. */
  lemma TRotation()
    ensures Canonical(T) == Shape(0x0072, 2, 2)
    ensures RotatedCw(Canonical(T)) == Shape(0x0262, 2, 2)
  {
    var s := Canonical(T);
    var r := RotatedCw(s).value;
    TBits();
    TurnedTBits();
    forall x, y | 0 <= x < 4 && 0 <= y < 4
      ensures Occ(r, x, y) == Occ(0x0262, x, y)
    {
      CwCell(s, x, y);
    }
    OccEqual(r, 0x0262);
  }

  /** The I shape's cell (3, 1) lies outside its box, so a rotation and its inverse lose it. */
  lemma ILosesCell()
    ensures Occ(Canonical(I).value, 3, 1) && !Canonical(I).InBox()
    ensures !Occ(RotatedAcw(RotatedCw(Canonical(I))).value, 3, 1)
    ensures RotatedAcw(RotatedCw(Canonical(I))) != Canonical(I)
  {
    var s := Canonical(I);
    IBits();
    assert Occ(s.value, 3, 1);
    var c := RotatedCw(s);
    assert !AcwSource(c, 3, 1);
  }

  /**
   * The I shape turned clockwise, back, and clockwise again has no cell left inside its box:
   * the first turn drops the cell (3, 1), and the last one sends the two cells that remain to
   * x = 3, outside mx = 2.
   */
  lemma IVanishes()
    ensures forall x, y :: !RotatedCw(RotatedAcw(RotatedCw(Canonical(I)))).Get(x, y)
  {
    var s := Canonical(I);
    var c := RotatedCw(s);
    var a := RotatedAcw(c);
    var r := RotatedCw(a);
    IBits();
    forall x, y | 0 <= x <= 2 && 0 <= y <= 3
      ensures !Occ(r.value, x, y)
    {
      assert Occ(r.value, x, y) == CwSource(a, x, y);
      if y <= 2 {
        assert Occ(a.value, y, 3 - x) == AcwSource(c, y, 3 - x);
        if 1 <= x {
          assert Occ(c.value, x - 1, y) == CwSource(s, x - 1, y);
          assert !Occ(s.value, y, 4 - x);
        }
      }
    }
  }

  /**
   * The shape table with the box of I widened to 0..=3 x 0..=3, so that it holds all four cells
   * and is square, as the other six shapes are.
   */
  function FixedCanonical(t: BlockType): (r: Shape)
    ensures r.value == Canonical(t).value
    ensures t != I ==> r == Canonical(t)
  {
    if t == I then Shape(Canonical(I).value, 3, 3) else Canonical(t)
  }

  /** The shape after a sequence of turns, true for clockwise and false for anticlockwise. */
  ghost function Turned(s: Shape, turns: seq<bool>): Shape
    decreases |turns|
  {
    if turns == [] then s
    else Turned(if turns[0] then RotatedCw(s) else RotatedAcw(s), turns[1..])
  }

  /** On a square box with every set bit inside, any sequence of turns keeps the number of cells. */
  lemma {:induction false} TurnsKeepCells(s: Shape, turns: seq<bool>)
    requires s.Valid() && s.Square() && s.InBox()
    ensures |Cells(Turned(s, turns))| == |Cells(s)|
    decreases |turns|
  {
    if turns != [] {
      var n := if turns[0] then RotatedCw(s) else RotatedAcw(s);
      RotationsKeepBox(s);
      if turns[0] {
        CwKeepsCellCount(s);
      } else {
        AcwKeepsCellCount(s);
      }
      TurnsKeepCells(n, turns[1..]);
    }
  }

  /** With the corrected table, no sequence of turns leaves a piece without a cell in its box. */
  lemma FixedPiecesNeverVanish(t: BlockType, turns: seq<bool>)
    ensures exists x, y :: Turned(FixedCanonical(t), turns).Get(x, y)
  {
    var s := FixedCanonical(t);
    CanonicalShapes(t);
    CanonicalBits(t);
    var c := if t in {RL, B, LZ} then (0, 0) else (1, 0);
    assert c.1 * 4 + c.0 in SourceBits(t);
    assert s.Get(c.0, c.1);
    InCells(s, c.0, c.1);
    TurnsKeepCells(s, turns);
    var r := Turned(s, turns);
    assert |Cells(r)| > 0;
    var d :| d in Cells(r);
    InCells(r, d.0, d.1);
  }

  /** The B shape repeats one of its constants, so it has three cells, not four. */
  lemma BHasThreeCells()
    ensures Cells(Canonical(B)) == {(0, 0), (0, 1), (1, 1)}
  {
    var s := Canonical(B);
    BBits();
    assert s.Get(0, 0) && s.Get(0, 1) && s.Get(1, 1) && !s.Get(1, 0);
    forall c | c in Cells(s)
      ensures c in {(0, 0), (0, 1), (1, 1)}
    {
      assert 0 <= c.0 <= 1 && 0 <= c.1 <= 1;
    }
  }

  /** Rendering "0x" followed by four lowercase hex digits (`format!("0x{0:04x}", value)`). */
  function Hex(v: u16): (s: string)
    ensures |s| == 6 && s[..2] == "0x"
    ensures forall i | 2 <= i < 6 :: IsHexDigit(s[i])
    ensures HexValue(s[2..]) == v as int
  {
    var digits := HexDigits(v as int, 4);
    assert ("0x" + digits)[2..] == digits;
    "0x" + digits
  }

  function Pow16(k: nat): (p: nat)
  {
    if k == 0 then 1 else 16 * Pow16(k - 1)
  }

  /** n in exactly k lowercase hex digits, most significant first, padded with '0'. */
  function HexDigits(n: nat, k: nat): (r: string)
    requires n < Pow16(k)
    ensures |r| == k && forall i | 0 <= i < k :: IsHexDigit(r[i])
    ensures HexValue(r) == n
  {
    if k == 0 then ""
    else
      var r := HexDigits(n / 16, k - 1) + [HexDigit(n % 16)];
      assert r[..k - 1] == HexDigits(n / 16, k - 1);
      r
  }

  predicate IsHexDigit(ch: char)
  {
    '0' <= ch <= '9' || 'a' <= ch <= 'f'
  }

  function HexDigit(d: int): (ch: char)
    requires 0 <= d < 16
    ensures IsHexDigit(ch) && HexDigitValue(ch) == d
  {
    "0123456789abcdef"[d]
  }

  function HexDigitValue(ch: char): int
    requires IsHexDigit(ch)
  {
    if ch <= '9' then ch as int - '0' as int else ch as int - 'a' as int + 10
  }

  /** The number a string of lowercase hex digits denotes. */
  function HexValue(s: string): int
    requires forall i | 0 <= i < |s| :: IsHexDigit(s[i])
  {
    if s == [] then 0 else HexValue(s[..|s| - 1]) * 16 + HexDigitValue(s[|s| - 1])
  }

  /** The hex rendering is injective. */
  lemma HexInjective(a: u16, b: u16)
    requires Hex(a) == Hex(b)
    ensures a == b
  {
    assert Hex(a)[2..] == Hex(b)[2..];
  }

  /** The rotation loops visit source cell (sx, sy) before cell (x, y): row by row, left to right. */
  predicate VisitedBefore(sx: int, sy: int, x: int, y: int)
  {
    sy < y || (sy == y && sx < x)
  }

  /** The clockwise loop's mask v holds exactly the images of the set cells visited before (x, y). */
  ghost predicate CwPartial(s: Shape, v: u16, x: int, y: int)
  {
    forall X, Y | 0 <= X < 4 && 0 <= Y < 4 ::
      Occ(v, X, Y) <==> CwSource(s, X, Y) && VisitedBefore(Y, s.my as int - X, x, y)
  }

  /** Visiting cell (x, y) extends the clockwise invariant past it. */
  lemma CwVisit(s: Shape, v: u16, v': u16, x: int, y: int)
    requires s.Valid() && 0 <= x <= s.mx as int && 0 <= y <= s.my as int
    requires CwPartial(s, v, x, y)
    requires forall q: nat :: Bit(v', q) <==> Bit(v, q) || (Occ(s.value, x, y) && q == x * 4 + (s.my as int - y))
    ensures CwPartial(s, v', x + 1, y)
  {
  }

  lemma CwNextRow(s: Shape, v: u16, y: int)
    requires s.Valid() && 0 <= y <= s.my as int
    requires CwPartial(s, v, s.mx as int + 1, y)
    ensures CwPartial(s, v, 0, y + 1)
  {
  }

  lemma CwDone(s: Shape, v: u16)
    requires s.Valid()
    requires CwPartial(s, v, 0, s.my as int + 1)
    ensures v == RotatedCw(s).value
  {
    OccEqual(v, RotatedCw(s).value);
  }

  /** The anticlockwise loop's mask v holds exactly the images of the set cells visited before (x, y). */
  ghost predicate AcwPartial(s: Shape, v: u16, x: int, y: int)
  {
    forall X, Y | 0 <= X < 4 && 0 <= Y < 4 ::
      Occ(v, X, Y) <==> AcwSource(s, X, Y) && VisitedBefore(s.mx as int - Y, X, x, y)
  }

  /** Visiting cell (x, y) extends the anticlockwise invariant past it. */
  lemma AcwVisit(s: Shape, v: u16, v': u16, x: int, y: int)
    requires s.Valid() && 0 <= x <= s.mx as int && 0 <= y <= s.my as int
    requires AcwPartial(s, v, x, y)
    requires forall q: nat :: Bit(v', q) <==> Bit(v, q) || (Occ(s.value, x, y) && q == (s.mx as int - x) * 4 + y)
    ensures AcwPartial(s, v', x + 1, y)
  {
  }

  lemma AcwNextRow(s: Shape, v: u16, y: int)
    requires s.Valid() && 0 <= y <= s.my as int
    requires AcwPartial(s, v, s.mx as int + 1, y)
    ensures AcwPartial(s, v, 0, y + 1)
  {
  }

  lemma AcwDone(s: Shape, v: u16)
    requires s.Valid()
    requires AcwPartial(s, v, 0, s.my as int + 1)
    ensures v == RotatedAcw(s).value
  {
    OccEqual(v, RotatedAcw(s).value);
  }

  /** `U16Block`: the mask and its box, rotated in place. */
  class U16Block {
    var value: u16
    var mx: u16
    var my: u16

    function Model(): Shape
      reads this
    {
      Shape(value, mx, my)
    }

    /** `U16Block::setup`. */
    constructor Setup(value: u16, mx: u16, my: u16)
      ensures Model() == Shape(value, mx, my)
    {
      this.value := value;
      this.mx := mx;
      this.my := my;
    }

    /** `U16Block::new`: the shape of the table. */
    static method New(t: BlockType) returns (b: U16Block)
      ensures fresh(b) && b.Model() == Canonical(t)
    {
      var s := Canonical(t);
      b := new U16Block.Setup(s.value, s.mx, s.my);
    }

    /**
     * `rotate_clockwise`: for each set cell (x, y) of the box, row by row, sets the bit of
     * (my - y, x). With the box inside the 4x4 grid no shift amount reaches 16 and `my - y`
     * never goes below zero.
     */
    method RotateClockwise()
      requires Model().Valid()
      modifies this
      ensures Model() == RotatedCw(old(Model()))
    {
      ghost var s := Model();
      var v: u16 := 0;
      var mx', my' := mx, my;
      EmptyMask();
      var y: u16 := 0;
      while y < my' + 1
        invariant y <= my' + 1
        invariant Model() == s && mx' == s.mx && my' == s.my
        invariant CwPartial(s, v, 0, y as int)
      {
        var x: u16 := 0;
        while x < mx' + 1
          invariant x <= mx' + 1
          invariant Model() == s && mx' == s.mx && my' == s.my
          invariant CwPartial(s, v, x as int, y as int)
        {
          var m := Shl1(y * 4 + x);
          MaskTest(value, y * 4 + x);
          ghost var v0 := v;
          if BitAnd(value, m) == m {
            var x1 := my' - y;
            var y1 := x;
            var m1 := Shl1(y1 * 4 + x1);
            v := BitOr(v, m1);
          }
          CwVisit(s, v0, v, x as int, y as int);
          x := x + 1;
        }
        CwNextRow(s, v, y as int);
        y := y + 1;
      }
      CwDone(s, v);
      value := v;
      mx := mx';
      my := my';
    }

    /**
     * `rotate_anticlockwise`: for each set cell (x, y) of the box, row by row, sets the bit of
     * (y, mx - x). With the box inside the 4x4 grid no shift amount reaches 16 and `mx - x`
     * never goes below zero.
     */
    method RotateAnticlockwise()
      requires Model().Valid()
      modifies this
      ensures Model() == RotatedAcw(old(Model()))
    {
      ghost var s := Model();
      var v: u16 := 0;
      var mx', my' := mx, my;
      EmptyMask();
      var y: u16 := 0;
      while y < my' + 1
        invariant y <= my' + 1
        invariant Model() == s && mx' == s.mx && my' == s.my
        invariant AcwPartial(s, v, 0, y as int)
      {
        var x: u16 := 0;
        while x < mx' + 1
          invariant x <= mx' + 1
          invariant Model() == s && mx' == s.mx && my' == s.my
          invariant AcwPartial(s, v, x as int, y as int)
        {
          var m := Shl1(y * 4 + x);
          MaskTest(value, y * 4 + x);
          ghost var v0 := v;
          if BitAnd(value, m) == m {
            var x1 := y;
            var y1 := mx' - x;
            var m1 := Shl1(y1 * 4 + x1);
            v := BitOr(v, m1);
          }
          AcwVisit(s, v0, v, x as int, y as int);
          x := x + 1;
        }
        AcwNextRow(s, v, y as int);
        y := y + 1;
      }
      AcwDone(s, v);
      value := v;
      mx := mx';
      my := my';
    }

    /** `string`: the mask as "0x" and four lowercase hex digits. */
    function String(): (s: string)
      reads this
      ensures |s| == 6 && s[..2] == "0x"
      ensures forall i | 2 <= i < 6 :: IsHexDigit(s[i])
      ensures HexValue(s[2..]) == value as int
    {
      Hex(value)
    }
  }
}
