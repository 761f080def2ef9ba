/** The board of the snake game: cells, directions, one-cell steps, and the
    counting facts about a 20 x 20 grid that the game's invariants rest on. */
module Board {

  /** The board's size in cells (BOARD_WIDTH and BOARD_HEIGHT). */
  const Width: int := 20
  const Height: int := 20

  /** A board cell, as java.awt.Point: x grows to the right, y grows downwards. */
  datatype Point = Point(x: int, y: int)

  /** The four travel directions ('U', 'D', 'L', 'R' in the game). */
  datatype Dir = U | D | L | R {
    /** The direction that points the other way. */
    function Opposite(): Dir {
      match this
      case U => D
      case D => U
      case L => R
      case R => L
    }
  }

  /** The cell one step from `p` in direction `d`; up decreases y. */
  function Step(p: Point, d: Dir): (q: Point)
    ensures q != p
    ensures (q.x - p.x) * (q.x - p.x) + (q.y - p.y) * (q.y - p.y) == 1
  {
    match d
    case U => Point(p.x, p.y - 1)
    case D => Point(p.x, p.y + 1)
    case L => Point(p.x - 1, p.y)
    case R => Point(p.x + 1, p.y)
  }

  /** Stepping back in the opposite direction undoes a step. */
  lemma StepOppositeReturns(p: Point, d: Dir)
    ensures Step(Step(p, d), d.Opposite()) == p
  {
  }

  /** The wall test: the cell lies inside [0, Width) x [0, Height). */
  predicate InBounds(p: Point) {
    0 <= p.x < Width && 0 <= p.y < Height
  }

  /** No cell occurs twice in `s`. */
  ghost predicate Distinct(s: seq<Point>) {
    forall i, j :: 0 <= i < j < |s| ==> s[i] != s[j]
  }

  ghost predicate AllInBounds(s: seq<Point>) {
    forall p :: p in s ==> InBounds(p)
  }

  /** Some board cell is not occupied by `s`. */
  ghost predicate HasFreeCell(s: seq<Point>) {
    exists p :: InBounds(p) && p !in s
  }

  /** The cells a sequence occupies. */
  ghost function Cells(s: seq<Point>): set<Point> {
    set p | p in s
  }

  /** Row `y` of a board `w` cells wide. */
  ghost function Row(y: int, w: nat): set<Point> {
    set x | 0 <= x < w :: Point(x, y)
  }

  /** All cells of a `w` x `h` board. */
  ghost function Rect(w: nat, h: nat): set<Point> {
    set x, y | 0 <= x < w && 0 <= y < h :: Point(x, y)
  }

  lemma {:induction false} RowSize(y: int, w: nat)
    ensures |Row(y, w)| == w
  {
    if w == 0 {
      assert Row(y, w) == {};
    } else {
      RowSize(y, w - 1);
      assert Row(y, w) == Row(y, w - 1) + {Point(w - 1, y)};
    }
  }

  lemma {:induction false} RectSize(w: nat, h: nat)
    ensures |Rect(w, h)| == w * h
  {
    if h == 0 {
      assert Rect(w, h) == {};
    } else {
      RectSize(w, h - 1);
      RowSize(h - 1, w);
      assert Rect(w, h) == Rect(w, h - 1) + Row(h - 1, w);
      assert Rect(w, h - 1) * Row(h - 1, w) == {};
      assert w * h == w * (h - 1) + w;
    }
  }

  /** The board holds exactly Width * Height cells. */
  lemma BoardSize()
    ensures forall p :: InBounds(p) <==> p in Rect(Width, Height)
    ensures |Rect(Width, Height)| == Width * Height
  {
    forall p | InBounds(p) ensures p in Rect(Width, Height) {
      assert p == Point(p.x, p.y);
    }
    RectSize(Width, Height);
  }

  lemma SubsetSize(a: set<Point>, b: set<Point>)
    requires a <= b
    ensures |a| <= |b|
  {
    assert b == a + (b - a);
    assert a * (b - a) == {};
  }

  /** A sequence occupies at most as many cells as it is long, and exactly
      that many when its cells are distinct. */
  lemma {:induction false} CellsSize(s: seq<Point>)
    ensures |Cells(s)| <= |s|
    ensures Distinct(s) ==> |Cells(s)| == |s|
  {
    if s != [] {
      var t := s[1..];
      CellsSize(t);
      assert Cells(s) == Cells(t) + {s[0]};
      if Distinct(s) {
        assert Distinct(t);
        assert s[0] !in Cells(t);
      }
    }
  }

  /** A sequence shorter than the board leaves a cell free: the premise the
      food picker's retry loop needs in order to stop. */
  lemma FreeCellExists(s: seq<Point>)
    requires |s| < Width * Height
    ensures HasFreeCell(s)
  {
    BoardSize();
    CellsSize(s);
    if !HasFreeCell(s) {
      assert Rect(Width, Height) <= Cells(s);
      SubsetSize(Rect(Width, Height), Cells(s));
      assert false;
    }
  }

  /** A body of distinct in-bounds cells is no longer than the board. */
  lemma BodyFitsBoard(s: seq<Point>)
    requires Distinct(s) && AllInBounds(s)
    ensures |s| <= Width * Height
  {
    BoardSize();
    CellsSize(s);
    assert Cells(s) <= Rect(Width, Height);
    SubsetSize(Cells(s), Rect(Width, Height));
  }

  /** A body of distinct in-bounds cells as long as the board covers every cell. */
  lemma FullBodyCoversBoard(s: seq<Point>)
    requires Distinct(s) && AllInBounds(s) && |s| == Width * Height
    ensures forall p :: InBounds(p) ==> p in s
    ensures !HasFreeCell(s)
  {
    BoardSize();
    CellsSize(s);
    var board := Rect(Width, Height);
    assert Cells(s) <= board;
    assert board == Cells(s) + (board - Cells(s));
    assert Cells(s) * (board - Cells(s)) == {};
    assert board - Cells(s) == {};
    forall p | InBounds(p) ensures p in s {
      assert p in board;
      assert p in Cells(s);
    }
  }
}
