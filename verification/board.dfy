/** The game board of one session: the mine layout, the display state of
    every cell, the countdown and the two game-over flags, together with
    the operations a session performs on them. */
module Board {
  import opened Grid
  import opened Results

  /** Display states of a cell, stored as small integers. Every negative
      value counts as revealed wherever the board tests a state. */
  const REVEALED: int := -1
  const HIDDEN: int := 0
  const FLAGGED: int := 1
  const QUESTIONED: int := 2

  /** Shape, mine count and countdown of a freshly started game. */
  const DEFAULT_ROWS: nat := 16
  const DEFAULT_COLS: nat := 16
  const DEFAULT_MINES: nat := 40
  const DEFAULT_TIME: int := 1000

  datatype Board = Board(mines: seq<seq<bool>>, revealed: seq<seq<int>>, time: int, won: bool, lost: bool)

  /** One random draw of the mine-laying loop: a column and a row. */
  datatype Draw = Draw(x: int, y: int)

  /** Both grids have the same rectangular shape, with at least one row
      (the board reads the width off its first row). */
  ghost predicate WellFormed(b: Board) {
    |b.mines| >= 1 && IsRect(b.mines, |b.mines|, |b.mines[0]|) && IsRect(b.revealed, |b.mines|, |b.mines[0]|)
  }

  /** Every cell holds one of the four display states. */
  ghost predicate ValidStates(b: Board) {
    forall i, j :: 0 <= i < |b.revealed| && 0 <= j < |b.revealed[i]| ==> REVEALED <= b.revealed[i][j] <= QUESTIONED
  }

  /** The bounds test of the board, on explicit dimensions. */
  predicate IsValid(y: int, x: int, rows: int, cols: int) {
    0 <= y < rows && 0 <= x < cols
  }

  /** (y, x) lies on the board; the width is that of the first mine row. */
  predicate OnBoard(b: Board, y: int, x: int) {
    |b.mines| > 0 && IsValid(y, x, |b.mines|, |b.mines[0]|)
  }

  /** (y, x) lies on the grid `m` and holds a mine. */
  predicate MineAt(m: seq<seq<bool>>, y: int, x: int) {
    0 <= y < |m| && 0 <= x < |m[y]| && m[y][x]
  }

  /** (y, x) lies on the board and is revealed. */
  predicate Opened(b: Board, y: int, x: int) {
    0 <= y < |b.revealed| && 0 <= x < |b.revealed[y]| && b.revealed[y][x] < 0
  }

  // ---------------------------------------------------------------- mine count

  /** The 3x3 block centred on (y, x), row by row, in the order the board's
      nested offset loops visit it; index 4 is (y, x) itself. */
  function Around(y: int, x: int): seq<(int, int)> {
    [(y - 1, x - 1), (y - 1, x), (y - 1, x + 1),
     (y, x - 1), (y, x), (y, x + 1),
     (y + 1, x - 1), (y + 1, x), (y + 1, x + 1)]
  }

  /** The eight neighbours of (y, x): the block without its centre. */
  function Neighbours(y: int, x: int): seq<(int, int)> {
    Around(y, x)[..4] + Around(y, x)[5..]
  }

  /** Number of listed cells that hold a mine. */
  function CountMines(m: seq<seq<bool>>, cells: seq<(int, int)>): (n: nat)
    ensures n <= |cells|
    ensures n == 0 <==> forall k :: 0 <= k < |cells| ==> !MineAt(m, cells[k].0, cells[k].1)
  {
    if |cells| == 0 then 0
    else (if MineAt(m, cells[0].0, cells[0].1) then 1 else 0) + CountMines(m, cells[1..])
  }

  /** No neighbour of (y, x) holds a mine. */
  ghost predicate NoAdjacentMine(m: seq<seq<bool>>, y: int, x: int) {
    forall k :: 0 <= k < 8 ==> !MineAt(m, Neighbours(y, x)[k].0, Neighbours(y, x)[k].1)
  }

  /** Number of the (up to eight) on-board neighbours of (y, x) that hold a mine. */
  function MineCount(m: seq<seq<bool>>, y: int, x: int): (n: nat)
    ensures n <= 8
    ensures n == 0 <==> NoAdjacentMine(m, y, x)
  {
    CountMines(m, Neighbours(y, x))
  }

  /** The listed cells that hold a mine, as a set. */
  ghost function MinedCells(m: seq<seq<bool>>, cells: seq<(int, int)>): set<(int, int)> {
    set c | c in cells && MineAt(m, c.0, c.1)
  }

  lemma {:induction false} CountMinesIsSetSize(m: seq<seq<bool>>, cells: seq<(int, int)>)
    requires forall p, q :: 0 <= p < q < |cells| ==> cells[p] != cells[q]
    ensures CountMines(m, cells) == |MinedCells(m, cells)|
  {
    if |cells| > 0 {
      var tail := cells[1..];
      assert forall p, q :: 0 <= p < q < |tail| ==> tail[p] != tail[q] by {
        forall p, q | 0 <= p < q < |tail| ensures tail[p] != tail[q] {
          assert tail[p] == cells[p + 1] && tail[q] == cells[q + 1];
        }
      }
      CountMinesIsSetSize(m, tail);
      assert cells[0] !in tail by {
        forall q | 0 <= q < |tail| ensures tail[q] != cells[0] {
          assert tail[q] == cells[q + 1];
        }
      }
      MinedCellsCons(m, cells);
    }
  }

  lemma MinedCellsCons(m: seq<seq<bool>>, cells: seq<(int, int)>)
    requires |cells| > 0 && cells[0] !in cells[1..]
    ensures |MinedCells(m, cells)| == |MinedCells(m, cells[1..])| + (if MineAt(m, cells[0].0, cells[0].1) then 1 else 0)
  {
    var head, tail := cells[0], cells[1..];
    assert forall c :: c in cells <==> c == head || c in tail;
    if MineAt(m, head.0, head.1) {
      assert MinedCells(m, cells) == MinedCells(m, tail) + {head};
    } else {
      assert MinedCells(m, cells) == MinedCells(m, tail);
    }
  }

  /** The mine count is the number of distinct neighbouring cells holding a mine. */
  lemma MineCountIsNeighbourMines(m: seq<seq<bool>>, y: int, x: int)
    ensures MineCount(m, y, x) == |MinedCells(m, Neighbours(y, x))|
    ensures forall c :: c in MinedCells(m, Neighbours(y, x)) ==>
              c != (y, x) && y - 1 <= c.0 <= y + 1 && x - 1 <= c.1 <= x + 1
  {
    NeighboursListed(y, x);
    CountMinesIsSetSize(m, Neighbours(y, x));
  }

  lemma NeighboursListed(y: int, x: int)
    ensures forall p, q :: 0 <= p < q < |Neighbours(y, x)| ==> Neighbours(y, x)[p] != Neighbours(y, x)[q]
    ensures forall c :: c in Neighbours(y, x) ==> c != (y, x) && y - 1 <= c.0 <= y + 1 && x - 1 <= c.1 <= x + 1
  {
    assert Neighbours(y, x) == [(y - 1, x - 1), (y - 1, x), (y - 1, x + 1), (y, x - 1),
                                (y, x + 1), (y + 1, x - 1), (y + 1, x), (y + 1, x + 1)];
  }

  /** A cell of the block other than the centre is a neighbour; with a
      mine count of 0 it holds no mine. */
  lemma AroundNoMine(m: seq<seq<bool>>, y: int, x: int, k: int)
    requires 0 <= k < 9 && k != 4 && MineCount(m, y, x) == 0
    ensures !MineAt(m, Around(y, x)[k].0, Around(y, x)[k].1)
  {
    if k < 4 {
      assert Neighbours(y, x)[k] == Around(y, x)[k];
    } else {
      assert Neighbours(y, x)[k - 1] == Around(y, x)[k];
    }
  }

  // ---------------------------------------------------------------- cascade

  /** A cell state that still hides the cell. */
  function Unrevealed(s: int): bool { s >= 0 }

  /** Number of cells not yet revealed: the measure the flood fill decreases. */
  function Covered(b: Board): nat {
    GridCount(b.revealed, Unrevealed)
  }

  /** `r` differs from `b` only in cells that went to REVEALED. */
  ghost predicate OnlyUncovers(b: Board, r: Board) {
    && r.mines == b.mines && r.time == b.time && r.won == b.won && r.lost == b.lost
    && |r.revealed| == |b.revealed|
    && (forall i :: 0 <= i < |b.revealed| ==> |r.revealed[i]| == |b.revealed[i]|)
    && (forall i, j :: 0 <= i < |b.revealed| && 0 <= j < |b.revealed[i]| ==>
          r.revealed[i][j] == b.revealed[i][j] || r.revealed[i][j] == REVEALED)
  }

  /** (i, j) is on the board, hidden in `b` and revealed in `r`. */
  ghost predicate NewlyRevealed(b: Board, r: Board, i: int, j: int) {
    OnBoard(b, i, j) && !Opened(b, i, j) && Opened(r, i, j)
  }

  /** The t-th cell of the block around (y, x) is off the board or revealed. */
  ghost predicate AroundOpened(b: Board, y: int, x: int, t: int)
    requires 0 <= t < 9
  {
    var c := Around(y, x)[t];
    OnBoard(b, c.0, c.1) ==> Opened(b, c.0, c.1)
  }

  /** Every on-board cell of the block around (y, x) is revealed. */
  ghost predicate Closed(b: Board, y: int, x: int) {
    forall t :: 0 <= t < 9 ==> AroundOpened(b, y, x, t)
  }

  /** Every cell revealed on the way from `b` to `r` is free of mines. */
  ghost predicate NoMineUncovered(b: Board, r: Board) {
    forall i, j :: NewlyRevealed(b, r, i, j) ==> !MineAt(b.mines, i, j)
  }

  /** Every cell revealed on the way from `b` to `r` whose mine count is 0
      has its whole block revealed: the flood fill stops only at numbered cells. */
  ghost predicate ClosedWhereEmpty(b: Board, r: Board) {
    forall i, j :: NewlyRevealed(b, r, i, j) && MineCount(r.mines, i, j) == 0 ==> Closed(r, i, j)
  }

  lemma OpenedStays(b: Board, r: Board, i: int, j: int)
    requires OnlyUncovers(b, r) && Opened(b, i, j)
    ensures Opened(r, i, j)
  {
  }

  lemma ClosedStays(b: Board, r: Board, y: int, x: int)
    requires WellFormed(b) && OnlyUncovers(b, r) && Closed(b, y, x)
    ensures Closed(r, y, x)
  {
    forall t | 0 <= t < 9 ensures AroundOpened(r, y, x, t) {
      assert AroundOpened(b, y, x, t);
      var c := Around(y, x)[t];
      if OnBoard(r, c.0, c.1) {
        OpenedStays(b, r, c.0, c.1);
      }
    }
  }

  lemma UncoversKeepShape(b: Board, r: Board)
    requires WellFormed(b) && OnlyUncovers(b, r)
    ensures WellFormed(r)
  {
  }

  lemma OnlyUncoversTrans(b: Board, m: Board, r: Board)
    requires OnlyUncovers(b, m) && OnlyUncovers(m, r)
    ensures OnlyUncovers(b, r)
  {
  }

  lemma NoMineUncoveredTrans(b: Board, m: Board, r: Board)
    requires WellFormed(b) && OnlyUncovers(b, m) && OnlyUncovers(m, r)
    requires NoMineUncovered(b, m) && NoMineUncovered(m, r)
    ensures NoMineUncovered(b, r)
  {
    forall i, j | NewlyRevealed(b, r, i, j) ensures !MineAt(b.mines, i, j) {
      if Opened(m, i, j) {
        assert NewlyRevealed(b, m, i, j);
      } else {
        assert NewlyRevealed(m, r, i, j);
      }
    }
  }

  lemma ClosedWhereEmptyTrans(b: Board, m: Board, r: Board)
    requires WellFormed(b) && OnlyUncovers(b, m) && OnlyUncovers(m, r)
    requires ClosedWhereEmpty(b, m) && ClosedWhereEmpty(m, r)
    ensures ClosedWhereEmpty(b, r)
  {
    forall i, j | NewlyRevealed(b, r, i, j) && MineCount(r.mines, i, j) == 0 ensures Closed(r, i, j) {
      if Opened(m, i, j) {
        assert NewlyRevealed(b, m, i, j);
        ClosedStays(m, r, i, j);
      } else {
        assert NewlyRevealed(m, r, i, j);
      }
    }
  }

  /** (i, j) lies in the 3x3 block centred on c. */
  predicate InBlock(c: (int, int), i: int, j: int) {
    c.0 - 1 <= i <= c.0 + 1 && c.1 - 1 <= j <= c.1 + 1
  }

  /** `p` walks from its first cell through adjacent cells that went from
      hidden in `b` to revealed in `r` and have no adjacent mine. */
  ghost predicate EmptyChain(b: Board, r: Board, p: seq<(int, int)>) {
    && |p| >= 1
    && forall t :: 1 <= t < |p| ==>
         && InBlock(p[t - 1], p[t].0, p[t].1)
         && NewlyRevealed(b, r, p[t].0, p[t].1)
         && MineCount(b.mines, p[t].0, p[t].1) == 0
  }

  /** (i, j) lies in the block of (row, col) or of a cell an empty chain
      from (row, col) reaches. */
  ghost predicate Reaches(b: Board, r: Board, row: int, col: int, i: int, j: int) {
    exists p :: EmptyChain(b, r, p) && p[0] == (row, col) && InBlock(p[|p| - 1], i, j)
  }

  /** Every cell revealed on the way from `b` to `r` is reached from
      (row, col): the flood fill spreads only through cells without
      adjacent mines. */
  ghost predicate SpreadFrom(b: Board, r: Board, row: int, col: int) {
    forall i, j :: NewlyRevealed(b, r, i, j) ==> Reaches(b, r, row, col, i, j)
  }

  /** A chain of the inner steps b1 -> r1 is a chain of the outer steps b -> r. */
  lemma ChainLift(b: Board, b1: Board, r1: Board, r: Board, p: seq<(int, int)>)
    requires WellFormed(b) && OnlyUncovers(b, b1) && OnlyUncovers(b1, r1) && OnlyUncovers(r1, r)
    requires EmptyChain(b1, r1, p)
    ensures EmptyChain(b, r, p)
  {
    forall t | 1 <= t < |p| ensures NewlyRevealed(b, r, p[t].0, p[t].1) {
      assert NewlyRevealed(b1, r1, p[t].0, p[t].1);
    }
  }

  /** A chain from c, started from a newly revealed empty cell c in the
      block of (row, col), is a chain from (row, col). */
  lemma ChainCons(b: Board, r: Board, row: int, col: int, p: seq<(int, int)>)
    requires EmptyChain(b, r, p) && InBlock((row, col), p[0].0, p[0].1)
    requires NewlyRevealed(b, r, p[0].0, p[0].1) && MineCount(b.mines, p[0].0, p[0].1) == 0
    ensures var q := [(row, col)] + p; EmptyChain(b, r, q) && q[0] == (row, col) && q[|q| - 1] == p[|p| - 1]
  {
    var q := [(row, col)] + p;
    forall t | 1 <= t < |q|
      ensures InBlock(q[t - 1], q[t].0, q[t].1) && NewlyRevealed(b, r, q[t].0, q[t].1)
      ensures MineCount(b.mines, q[t].0, q[t].1) == 0
    {
      assert q[t] == p[t - 1];
      if t > 1 {
        assert q[t - 1] == p[t - 2];
      }
    }
  }

  /** Reach is kept when the steps around it only reveal more. */
  lemma ReachesLift(b: Board, b1: Board, r1: Board, r: Board, row: int, col: int, i: int, j: int)
    requires WellFormed(b) && OnlyUncovers(b, b1) && OnlyUncovers(b1, r1) && OnlyUncovers(r1, r)
    requires Reaches(b1, r1, row, col, i, j)
    ensures Reaches(b, r, row, col, i, j)
  {
    var p :| EmptyChain(b1, r1, p) && p[0] == (row, col) && InBlock(p[|p| - 1], i, j);
    ChainLift(b, b1, r1, r, p);
  }

  /** A cell reached from the empty cell c, itself in the block of
      (row, col), is reached from (row, col). */
  lemma ReachesThrough(b: Board, b1: Board, b2: Board, r: Board, row: int, col: int, c: (int, int), i: int, j: int)
    requires WellFormed(b) && OnlyUncovers(b, b1) && OnlyUncovers(b1, b2) && OnlyUncovers(b2, r)
    requires InBlock((row, col), c.0, c.1) && NewlyRevealed(b, r, c.0, c.1) && MineCount(b.mines, c.0, c.1) == 0
    requires Reaches(b1, b2, c.0, c.1, i, j)
    ensures Reaches(b, r, row, col, i, j)
  {
    var p :| EmptyChain(b1, b2, p) && p[0] == c && InBlock(p[|p| - 1], i, j);
    ChainLift(b, b1, b2, r, p);
    ReachesByChain(b, r, row, col, p, i, j);
  }

  lemma ReachesByChain(b: Board, r: Board, row: int, col: int, p: seq<(int, int)>, i: int, j: int)
    requires EmptyChain(b, r, p) && InBlock((row, col), p[0].0, p[0].1) && InBlock(p[|p| - 1], i, j)
    requires NewlyRevealed(b, r, p[0].0, p[0].1) && MineCount(b.mines, p[0].0, p[0].1) == 0
    ensures Reaches(b, r, row, col, i, j)
  {
    ChainCons(b, r, row, col, p);
    var q := [(row, col)] + p;
    assert EmptyChain(b, r, q) && q[0] == (row, col) && InBlock(q[|q| - 1], i, j);
  }

  /** Every cell of the block of (row, col) is reached from it. */
  lemma ReachesOwnBlock(b: Board, r: Board, row: int, col: int, i: int, j: int)
    requires InBlock((row, col), i, j)
    ensures Reaches(b, r, row, col, i, j)
  {
    var p := [(row, col)];
    assert EmptyChain(b, r, p) && p[0] == (row, col) && InBlock(p[|p| - 1], i, j);
  }

  /** The board with the on-board cell (y, x) set to REVEALED. */
  function Uncover(b: Board, y: int, x: int): (r: Board)
    requires WellFormed(b) && OnBoard(b, y, x)
    ensures WellFormed(r) && OnlyUncovers(b, r) && Opened(r, y, x)
    ensures forall i, j :: NewlyRevealed(b, r, i, j) ==> i == y && j == x
    ensures Covered(r) == Covered(b) - (if b.revealed[y][x] >= 0 then 1 else 0)
  {
    GridCountSet(b.revealed, y, x, REVEALED, Unrevealed);
    b.(revealed := Set(b.revealed, y, x, REVEALED))
  }

  /** Flood fill from the revealed, mine-free-neighbourhood cell (row, col):
      every on-board cell of its block that is not revealed (hidden, flagged
      or questioned alike) is revealed, and the fill recurses into each such
      cell whose own mine count is 0. */
  function Cascade(b: Board, row: int, col: int): (r: Board)
    requires WellFormed(b) && OnBoard(b, row, col)
    requires Opened(b, row, col) && MineCount(b.mines, row, col) == 0
    ensures OnlyUncovers(b, r)
    ensures Covered(r) <= Covered(b)
    ensures NoMineUncovered(b, r)
    ensures Closed(r, row, col)
    ensures ClosedWhereEmpty(b, r)
    ensures SpreadFrom(b, r, row, col)
    decreases Covered(b), 2, 0
  {
    CascadeFrom(b, row, col, 0)
  }

  /** The offset loops of the flood fill from the k-th cell of the block on. */
  function CascadeFrom(b: Board, row: int, col: int, k: nat): (r: Board)
    requires WellFormed(b) && OnBoard(b, row, col) && k <= 9
    requires Opened(b, row, col) && MineCount(b.mines, row, col) == 0
    requires forall t :: 0 <= t < k ==> AroundOpened(b, row, col, t)
    ensures OnlyUncovers(b, r)
    ensures Covered(r) <= Covered(b)
    ensures NoMineUncovered(b, r)
    ensures Closed(r, row, col)
    ensures ClosedWhereEmpty(b, r)
    ensures SpreadFrom(b, r, row, col)
    decreases Covered(b), 1, 9 - k
  {
    if k == 9 then b
    else
      var c := Around(row, col)[k];
      if OnBoard(b, c.0, c.1) && b.revealed[c.0][c.1] >= 0 then
        var b2 := CascadeVisit(b, row, col, k);
        OpenedAroundStays(b, b2, row, col, k);
        var r := CascadeFrom(b2, row, col, k + 1);
        FillTrans(b, b2, r, row, col);
        r
      else
        assert AroundOpened(b, row, col, k);
        CascadeFrom(b, row, col, k + 1)
  }

  /** One revealing iteration of the offset loops: the k-th cell of the
      block of (row, col), hidden or marked, is revealed and, when none of
      its neighbours holds a mine, the flood fill continues from it. */
  function CascadeVisit(b: Board, row: int, col: int, k: nat): (r: Board)
    requires WellFormed(b) && OnBoard(b, row, col) && k < 9
    requires Opened(b, row, col) && MineCount(b.mines, row, col) == 0
    requires var c := Around(row, col)[k]; OnBoard(b, c.0, c.1) && b.revealed[c.0][c.1] >= 0
    ensures WellFormed(r) && OnlyUncovers(b, r) && Covered(r) < Covered(b)
    ensures Opened(r, Around(row, col)[k].0, Around(row, col)[k].1)
    ensures NoMineUncovered(b, r) && ClosedWhereEmpty(b, r) && SpreadFrom(b, r, row, col)
    decreases Covered(b), 0, 0
  {
    var c := Around(row, col)[k];
    var b1 := Uncover(b, c.0, c.1);
    var r := if MineCount(b.mines, c.0, c.1) == 0 then Cascade(b1, c.0, c.1) else b1;
    assert WellFormed(r) && OnlyUncovers(b, r) && Opened(r, c.0, c.1) by {
      if MineCount(b.mines, c.0, c.1) == 0 {
        OnlyUncoversTrans(b, b1, r);
        OpenedStays(b1, r, c.0, c.1);
        UncoversKeepShape(b, r);
      }
    }
    VisitStep(b, b1, r, row, col, k);
    r
  }

  /** Block cells already revealed stay revealed, and the one just visited joins them. */
  lemma OpenedAroundStays(b: Board, b2: Board, row: int, col: int, k: nat)
    requires WellFormed(b) && k < 9
    requires forall t :: 0 <= t < k ==> AroundOpened(b, row, col, t)
    requires OnlyUncovers(b, b2)
    requires var c := Around(row, col)[k]; OnBoard(b, c.0, c.1) ==> Opened(b2, c.0, c.1)
    ensures forall t :: 0 <= t < k + 1 ==> AroundOpened(b2, row, col, t)
  {
    forall t | 0 <= t < k + 1 ensures AroundOpened(b2, row, col, t) {
      var c := Around(row, col)[t];
      if t < k && OnBoard(b2, c.0, c.1) {
        assert AroundOpened(b, row, col, t);
        OpenedStays(b, b2, c.0, c.1);
      }
    }
  }

  /** The bookkeeping of one revealing iteration of the flood fill. */
  lemma VisitStep(b: Board, b1: Board, b2: Board, row: int, col: int, k: nat)
    requires WellFormed(b) && OnBoard(b, row, col) && k < 9
    requires Opened(b, row, col) && MineCount(b.mines, row, col) == 0
    requires var c := Around(row, col)[k];
      && OnBoard(b, c.0, c.1) && b.revealed[c.0][c.1] >= 0
      && b1 == Uncover(b, c.0, c.1)
    requires var c := Around(row, col)[k];
      if MineCount(b.mines, c.0, c.1) == 0
      then OnlyUncovers(b1, b2) && NoMineUncovered(b1, b2) && Closed(b2, c.0, c.1)
           && ClosedWhereEmpty(b1, b2) && SpreadFrom(b1, b2, c.0, c.1)
      else b2 == b1
    ensures NoMineUncovered(b, b2) && ClosedWhereEmpty(b, b2) && SpreadFrom(b, b2, row, col)
  {
    var c := Around(row, col)[k];
    assert k != 4;
    AroundNoMine(b.mines, row, col, k);
    assert NoMineUncovered(b, b1);
    if MineCount(b.mines, c.0, c.1) == 0 {
      VisitEmpty(b, b1, b2, row, col, c);
    } else {
      VisitNumbered(b, b1, row, col, c);
    }
  }

  /** A visited cell with a mine count of 0 and the fill from it. */
  lemma VisitEmpty(b: Board, b1: Board, b2: Board, row: int, col: int, c: (int, int))
    requires WellFormed(b) && InBlock((row, col), c.0, c.1)
    requires OnBoard(b, c.0, c.1) && b.revealed[c.0][c.1] >= 0 && b1 == Uncover(b, c.0, c.1)
    requires MineCount(b.mines, c.0, c.1) == 0 && NoMineUncovered(b, b1)
    requires OnlyUncovers(b1, b2) && NoMineUncovered(b1, b2) && Closed(b2, c.0, c.1)
    requires ClosedWhereEmpty(b1, b2) && SpreadFrom(b1, b2, c.0, c.1)
    ensures NoMineUncovered(b, b2) && ClosedWhereEmpty(b, b2) && SpreadFrom(b, b2, row, col)
  {
    assert ClosedWhereEmpty(b, b2) by {
      forall i, j | NewlyRevealed(b, b2, i, j) && MineCount(b2.mines, i, j) == 0 ensures Closed(b2, i, j) {
        if !(i == c.0 && j == c.1) {
          assert NewlyRevealed(b1, b2, i, j);
        }
      }
    }
    NoMineUncoveredTrans(b, b1, b2);
    VisitSpread(b, b1, b2, row, col, c);
  }

  /** A visited cell with a nonzero mine count: only that cell opens. */
  lemma VisitNumbered(b: Board, b1: Board, row: int, col: int, c: (int, int))
    requires WellFormed(b) && InBlock((row, col), c.0, c.1)
    requires OnBoard(b, c.0, c.1) && b.revealed[c.0][c.1] >= 0 && b1 == Uncover(b, c.0, c.1)
    requires MineCount(b.mines, c.0, c.1) != 0
    ensures ClosedWhereEmpty(b, b1) && SpreadFrom(b, b1, row, col)
  {
    forall i, j | NewlyRevealed(b, b1, i, j) ensures Reaches(b, b1, row, col, i, j) {
      ReachesOwnBlock(b, b1, row, col, i, j);
    }
  }

  /** The spread of one revealing iteration: the visited cell lies in the
      block of (row, col), and the fill from it reaches the rest. */
  lemma VisitSpread(b: Board, b1: Board, b2: Board, row: int, col: int, c: (int, int))
    requires WellFormed(b) && InBlock((row, col), c.0, c.1)
    requires OnBoard(b, c.0, c.1) && b.revealed[c.0][c.1] >= 0 && b1 == Uncover(b, c.0, c.1)
    requires MineCount(b.mines, c.0, c.1) == 0
    requires OnlyUncovers(b1, b2) && SpreadFrom(b1, b2, c.0, c.1)
    ensures SpreadFrom(b, b2, row, col)
  {
    OnlyUncoversTrans(b, b1, b2);
    assert OnlyUncovers(b2, b2);
    OpenedStays(b1, b2, c.0, c.1);
    forall i, j | NewlyRevealed(b, b2, i, j) ensures Reaches(b, b2, row, col, i, j) {
      if i == c.0 && j == c.1 {
        ReachesOwnBlock(b, b2, row, col, i, j);
      } else {
        assert NewlyRevealed(b1, b2, i, j);
        ReachesThrough(b, b1, b2, b2, row, col, c, i, j);
      }
    }
  }

  /** The guarantees of two successive stretches of the flood fill compose. */
  lemma FillTrans(b: Board, m: Board, r: Board, row: int, col: int)
    requires WellFormed(b) && OnlyUncovers(b, m) && OnlyUncovers(m, r)
    requires NoMineUncovered(b, m) && NoMineUncovered(m, r)
    requires ClosedWhereEmpty(b, m) && ClosedWhereEmpty(m, r)
    requires SpreadFrom(b, m, row, col) && SpreadFrom(m, r, row, col)
    ensures OnlyUncovers(b, r) && NoMineUncovered(b, r) && ClosedWhereEmpty(b, r) && SpreadFrom(b, r, row, col)
  {
    OnlyUncoversTrans(b, m, r);
    NoMineUncoveredTrans(b, m, r);
    ClosedWhereEmptyTrans(b, m, r);
    SpreadTrans(b, m, r, row, col);
  }

  lemma SpreadTrans(b: Board, m: Board, r: Board, row: int, col: int)
    requires WellFormed(b) && OnlyUncovers(b, m) && OnlyUncovers(m, r)
    requires SpreadFrom(b, m, row, col) && SpreadFrom(m, r, row, col)
    ensures SpreadFrom(b, r, row, col)
  {
    assert OnlyUncovers(b, b) && OnlyUncovers(r, r);
    forall i, j | NewlyRevealed(b, r, i, j) ensures Reaches(b, r, row, col, i, j) {
      if Opened(m, i, j) {
        assert NewlyRevealed(b, m, i, j);
        ReachesLift(b, b, m, r, row, col, i, j);
      } else {
        assert NewlyRevealed(m, r, i, j);
        ReachesLift(b, m, r, r, row, col, i, j);
      }
    }
  }

  // ---------------------------------------------------------------- loss

  /** Every mine cell of the board is revealed. */
  ghost predicate AllMinesRevealed(b: Board)
    requires WellFormed(b)
  {
    forall i, j :: OnBoard(b, i, j) && b.mines[i][j] ==> b.revealed[i][j] == REVEALED
  }

  /** Every non-mine cell holds the same state in `r` as in `b`. */
  ghost predicate NonMinesUnchanged(b: Board, r: Board)
    requires WellFormed(b)
  {
    forall i, j :: OnBoard(b, i, j) && !b.mines[i][j] ==>
      i < |r.revealed| && j < |r.revealed[i]| && r.revealed[i][j] == b.revealed[i][j]
  }

  /** One row of the loss disclosure. */
  function LoseRow(mrow: seq<bool>, rrow: seq<int>): (r: seq<int>)
    requires |mrow| == |rrow|
    ensures |r| == |rrow|
    ensures forall j :: 0 <= j < |r| && mrow[j] ==> r[j] == REVEALED
    ensures forall j :: 0 <= j < |r| && !mrow[j] ==> r[j] == rrow[j]
  {
    if |rrow| == 0 then []
    else [if mrow[0] then REVEALED else rrow[0]] + LoseRow(mrow[1..], rrow[1..])
  }

  /** Loss disclosure: reveals every mine and leaves every other cell alone. */
  function Lose(b: Board): (r: Board)
    requires WellFormed(b)
    ensures WellFormed(r) && r.mines == b.mines
    ensures r.time == b.time && r.won == b.won && r.lost == b.lost
    ensures AllMinesRevealed(r) && NonMinesUnchanged(b, r)
    ensures OnlyUncovers(b, r)
  {
    b.(revealed := seq(|b.revealed|, i requires 0 <= i < |b.revealed| => LoseRow(b.mines[i], b.revealed[i])))
  }

  /** Marks the game lost and discloses every mine. */
  function SetGameLost(b: Board): (r: Board)
    requires WellFormed(b)
    ensures WellFormed(r) && r.lost && r.mines == b.mines && r.time == b.time && r.won == b.won
    ensures AllMinesRevealed(r) && NonMinesUnchanged(b, r)
    ensures ValidStates(b) ==> ValidStates(r)
  {
    Lose(b.(lost := true))
  }

  // ---------------------------------------------------------------- reveal and flag

  /** Reveal of a hidden cell without a mine: the cell opens and, when no
      neighbour holds a mine, the flood fill starts from it. */
  function RevealSafe(b: Board, y: int, x: int): (r: Board)
    requires WellFormed(b) && OnBoard(b, y, x) && b.revealed[y][x] == HIDDEN && !b.mines[y][x]
    ensures WellFormed(r) && OnlyUncovers(b, r) && NoMineUncovered(b, r)
    ensures r.revealed[y][x] == REVEALED
    ensures MineCount(b.mines, y, x) != 0 ==> forall i, j :: NewlyRevealed(b, r, i, j) ==> i == y && j == x
    ensures MineCount(b.mines, y, x) == 0 ==> Closed(r, y, x) && ClosedWhereEmpty(b, r)
    ensures SpreadFrom(b, r, y, x)
  {
    var b1 := Uncover(b, y, x);
    if MineCount(b.mines, y, x) == 0 then
      var r := Cascade(b1, y, x);
      NoMineUncoveredTrans(b, b1, r);
      OnlyUncoversTrans(b, b1, r);
      VisitSpread(b, b1, r, y, x, (y, x));
      assert ClosedWhereEmpty(b, r) by {
        forall i, j | NewlyRevealed(b, r, i, j) && MineCount(r.mines, i, j) == 0 ensures Closed(r, i, j) {
          if !(i == y && j == x) {
            assert NewlyRevealed(b1, r, i, j);
          }
        }
      }
      r
    else
      VisitNumbered(b, b1, y, x, (y, x));
      b1
  }

  /** A player's reveal of (y, x): only a HIDDEN cell reacts (flagged and
      questioned cells are protected). It becomes REVEALED; a mine loses the
      game, a cell without adjacent mines starts the flood fill. */
  function Reveal(b: Board, y: int, x: int): (r: Board)
    requires WellFormed(b) && OnBoard(b, y, x)
    ensures WellFormed(r) && r.mines == b.mines && r.time == b.time && r.won == b.won
    ensures b.revealed[y][x] != HIDDEN ==> r == b
    ensures b.revealed[y][x] == HIDDEN ==> r.revealed[y][x] == REVEALED
    ensures b.revealed[y][x] == HIDDEN && b.mines[y][x] ==>
              r.lost && AllMinesRevealed(r) && NonMinesUnchanged(b, r)
    ensures b.revealed[y][x] == HIDDEN && !b.mines[y][x] ==>
              r.lost == b.lost && OnlyUncovers(b, r) && NoMineUncovered(b, r)
    ensures b.revealed[y][x] == HIDDEN && !b.mines[y][x] && MineCount(b.mines, y, x) != 0 ==>
              forall i, j :: NewlyRevealed(b, r, i, j) ==> i == y && j == x
    ensures b.revealed[y][x] == HIDDEN && !b.mines[y][x] && MineCount(b.mines, y, x) == 0 ==>
              Closed(r, y, x) && ClosedWhereEmpty(b, r)
    ensures b.revealed[y][x] == HIDDEN && !b.mines[y][x] ==> SpreadFrom(b, r, y, x)
  {
    if b.revealed[y][x] != HIDDEN then b
    else if b.mines[y][x] then
      var b1 := Uncover(b, y, x);
      var r := SetGameLost(b1);
      assert NonMinesUnchanged(b, r) by {
        forall i, j | OnBoard(b, i, j) && !b.mines[i][j] ensures r.revealed[i][j] == b.revealed[i][j] {
          assert !(i == y && j == x);
        }
      }
      r
    else RevealSafe(b, y, x)
  }

  /** A reveal keeps every cell in one of the four display states. */
  lemma RevealKeepsStates(b: Board, y: int, x: int)
    requires WellFormed(b) && OnBoard(b, y, x)
    ensures ValidStates(b) ==> ValidStates(Reveal(b, y, x))
  {
    var r := Reveal(b, y, x);
    forall i, j | ValidStates(b) && 0 <= i < |r.revealed| && 0 <= j < |r.revealed[i]|
      ensures REVEALED <= r.revealed[i][j] <= QUESTIONED
    {
      assert OnBoard(b, i, j);
    }
  }

  /** A player's flag click on (y, x): HIDDEN -> FLAGGED -> QUESTIONED ->
      HIDDEN; a revealed cell does not react. */
  function SetFlag(b: Board, y: int, x: int): (r: Board)
    requires WellFormed(b) && OnBoard(b, y, x)
    ensures WellFormed(r) && r.mines == b.mines && r.time == b.time && r.won == b.won && r.lost == b.lost
    ensures b.revealed[y][x] == HIDDEN ==> r.revealed[y][x] == FLAGGED
    ensures b.revealed[y][x] == FLAGGED ==> r.revealed[y][x] == QUESTIONED
    ensures b.revealed[y][x] == QUESTIONED ==> r.revealed[y][x] == HIDDEN
    ensures b.revealed[y][x] < 0 ==> r == b
    ensures forall i, j :: OnBoard(b, i, j) && (i != y || j != x) ==> r.revealed[i][j] == b.revealed[i][j]
    ensures ValidStates(b) ==> ValidStates(r)
  {
    var s := b.revealed[y][x];
    if s == QUESTIONED then b.(revealed := Set(b.revealed, y, x, HIDDEN))
    else if s >= 0 then b.(revealed := Set(b.revealed, y, x, s + 1))
    else b
  }

  /** Three flag clicks bring a board with valid states back to where it
      started, whatever state the cell was in. */
  lemma SetFlagThreeTimes(b: Board, y: int, x: int)
    requires WellFormed(b) && ValidStates(b) && OnBoard(b, y, x)
    ensures SetFlag(SetFlag(SetFlag(b, y, x), y, x), y, x) == b
  {
    var b1 := SetFlag(b, y, x);
    var b2 := SetFlag(b1, y, x);
    var b3 := SetFlag(b2, y, x);
    assert b3.revealed == b.revealed by {
      assert |b3.revealed| == |b.revealed|;
      forall i | 0 <= i < |b.revealed| ensures b3.revealed[i] == b.revealed[i] {
        assert |b3.revealed[i]| == |b.revealed[i]|;
      }
    }
  }

  // ---------------------------------------------------------------- win and time

  /** The win condition: no cell without a mine is still unrevealed. */
  ghost predicate WinCondition(b: Board)
    requires WellFormed(b)
  {
    forall i, j :: OnBoard(b, i, j) && !b.mines[i][j] ==> Opened(b, i, j)
  }

  /** Scan of the row pairs for an unrevealed cell without a mine. */
  function RowsClear(ms: seq<seq<bool>>, rs: seq<seq<int>>): (ok: bool)
    requires |ms| == |rs| && forall i :: 0 <= i < |rs| ==> |ms[i]| == |rs[i]|
    ensures ok <==> forall i, j :: 0 <= i < |rs| && 0 <= j < |rs[i]| ==> rs[i][j] < 0 || ms[i][j]
  {
    if |rs| == 0 then true
    else RowClear(ms[0], rs[0]) && RowsClear(ms[1..], rs[1..])
  }

  /** Scan of one row for an unrevealed cell without a mine. */
  function RowClear(m: seq<bool>, r: seq<int>): (ok: bool)
    requires |m| == |r|
    ensures ok <==> forall j :: 0 <= j < |r| ==> r[j] < 0 || m[j]
  {
    if |r| == 0 then true
    else (r[0] < 0 || m[0]) && RowClear(m[1..], r[1..])
  }

  /** The board's win test. */
  function CheckWinCon(b: Board): (won: bool)
    requires WellFormed(b)
    ensures won <==> WinCondition(b)
    ensures ValidStates(b) ==>
              (won <==> forall i, j :: OnBoard(b, i, j) && !b.mines[i][j] ==> b.revealed[i][j] == REVEALED)
  {
    RowsClear(b.mines, b.revealed)
  }

  /** Java's byte increment: 127 wraps around to -128. */
  function ByteInc(v: int): (r: int)
    requires -128 <= v <= 127
    ensures -128 <= r <= 127
    ensures v < 127 ==> r == v + 1
  {
    if v == 127 then -128 else v + 1
  }

  /** The column scan of the win test as written, with a byte counter `j`:
      None stands for the index exception raised once `j` wraps to -128. */
  function RowClearAsWritten(m: seq<bool>, r: seq<int>, j: int): (res: Option<bool>)
    requires |m| == |r| && -128 <= j <= 127
    ensures 0 <= j ==>
      (res == Some(false) <==> exists k :: j <= k < |r| && k < 128 && r[k] >= 0 && !m[k])
    ensures 0 <= j ==>
      (res == None <==> |r| >= 128 && forall k :: j <= k < 128 ==> r[k] < 0 || m[k])
    decreases if j >= 0 then 128 - j else 0
  {
    if !(j < |r|) then Some(true)
    else if j < 0 then None
    else if r[j] >= 0 && !m[j] then Some(false)
    else RowClearAsWritten(m, r, ByteInc(j))
  }

  /** The row scan of the win test as written, with a byte counter `i`. */
  function RowsClearAsWritten(b: Board, i: int): (res: Option<bool>)
    requires WellFormed(b) && -128 <= i <= 127
    ensures 0 <= i && |b.revealed| < 128 && |b.revealed[0]| < 128 ==>
      res == Some(forall p, q :: i <= p < |b.revealed| && 0 <= q < |b.revealed[p]| ==> b.revealed[p][q] < 0 || b.mines[p][q])
    decreases if i >= 0 then 128 - i else 0
  {
    if !(i < |b.revealed|) then Some(true)
    else if i < 0 then None
    else match RowClearAsWritten(b.mines[i], b.revealed[i], 0)
      case Some(true) => RowsClearAsWritten(b, ByteInc(i))
      case other => other
  }

  /** checkWinCon as written: its loop counters are bytes. On boards under
      128 rows and columns they never wrap and the result agrees with the
      intended test. */
  function CheckWinConAsWritten(b: Board): (res: Option<bool>)
    requires WellFormed(b)
    ensures |b.revealed| < 128 && |b.revealed[0]| < 128 ==> res == Some(CheckWinCon(b))
  {
    RowsClearAsWritten(b, 0)
  }

  /** A mine-free revealed board one row high and 128 columns wide: won by
      the intended test, an index exception in the written one. */
  lemma WideBoardWinThrows()
    ensures var b := Board([seq(128, _ => false)], [seq(128, _ => REVEALED)], 0, false, false);
            WellFormed(b) && CheckWinCon(b) && CheckWinConAsWritten(b) == None
  {
    var b := Board([seq(128, _ => false)], [seq(128, _ => REVEALED)], 0, false, false);
    assert RowClearAsWritten(b.mines[0], b.revealed[0], 0) == None;
  }

  /** One second off the clock; a clock at 0 or below stays where it is. */
  function DecrementTime(b: Board): (r: Board)
    ensures r.mines == b.mines && r.revealed == b.revealed && r.won == b.won && r.lost == b.lost
    ensures b.time > 0 ==> r.time == b.time - 1
    ensures b.time <= 0 ==> r.time == b.time
    ensures b.time >= 0 ==> r.time >= 0
  {
    if b.time > 0 then b.(time := b.time - 1) else b
  }

  // ---------------------------------------------------------------- new game

  /** The cell a draw names, as a (row, column) pair. */
  function CellOf(d: Draw): (int, int) { (d.y, d.x) }

  /** Cells named by the draws that do not hold a mine in `m`. */
  ghost function FreshCells(m: seq<seq<bool>>, draws: seq<Draw>): set<(int, int)> {
    set d | d in draws && !MineAt(m, d.y, d.x) :: CellOf(d)
  }

  /** A cell state predicate used to count mines. */
  function IsMine(c: bool): bool { c }

  /** The mine-laying loop: each draw lays a mine on a free cell, a draw
      of a mined cell is repeated, until `left` mines are laid. None when
      the draws run out first (the constructor's loop keeps drawing until it
      has placed every mine). */
  function PlaceMines(m: seq<seq<bool>>, draws: seq<Draw>, left: nat): (r: Option<seq<seq<bool>>>)
    requires IsRect(m, DEFAULT_ROWS, DEFAULT_COLS)
    requires forall k :: 0 <= k < |draws| ==> IsValid(draws[k].y, draws[k].x, DEFAULT_ROWS, DEFAULT_COLS)
    ensures r.Some? <==> |FreshCells(m, draws)| >= left
    ensures r.Some? ==> IsRect(r.value, DEFAULT_ROWS, DEFAULT_COLS)
    ensures r.Some? ==> GridCount(r.value, IsMine) == GridCount(m, IsMine) + left
    ensures r.Some? ==> forall i, j :: 0 <= i < DEFAULT_ROWS && 0 <= j < DEFAULT_COLS && m[i][j] ==> r.value[i][j]
    ensures r.Some? ==> forall i, j :: 0 <= i < DEFAULT_ROWS && 0 <= j < DEFAULT_COLS && r.value[i][j] && !m[i][j] ==>
              (i, j) in FreshCells(m, draws)
    decreases |draws|
  {
    if left == 0 then Some(m)
    else if |draws| == 0 then None
    else
      var d := draws[0];
      assert IsValid(d.y, d.x, DEFAULT_ROWS, DEFAULT_COLS);
      FreshCellsStep(m, draws);
      if !m[d.y][d.x] then
        GridCountSet(m, d.y, d.x, true, IsMine);
        PlaceMines(Set(m, d.y, d.x, true), draws[1..], left - 1)
      else
        PlaceMines(m, draws[1..], left)
  }

  /** How the first draw changes the fresh cells: a draw of a mined cell
      leaves them as they are, a draw of a free cell takes its cell out. */
  lemma FreshCellsStep(m: seq<seq<bool>>, draws: seq<Draw>)
    requires IsRect(m, DEFAULT_ROWS, DEFAULT_COLS) && |draws| > 0
    requires IsValid(draws[0].y, draws[0].x, DEFAULT_ROWS, DEFAULT_COLS)
    ensures m[draws[0].y][draws[0].x] ==> FreshCells(m, draws) == FreshCells(m, draws[1..])
    ensures !m[draws[0].y][draws[0].x] ==>
              FreshCells(Set(m, draws[0].y, draws[0].x, true), draws[1..]) == FreshCells(m, draws) - {CellOf(draws[0])}
  {
    var d, rest := draws[0], draws[1..];
    assert forall e :: e in draws <==> e == d || e in rest;
    if !m[d.y][d.x] {
      var m' := Set(m, d.y, d.x, true);
      assert FreshCells(m', rest) == FreshCells(m, draws) - {CellOf(d)};
    }
  }

  /** A 16x16 grid of the given value. */
  function Filled<T>(v: T): (g: seq<seq<T>>)
    ensures IsRect(g, DEFAULT_ROWS, DEFAULT_COLS)
    ensures forall i, j :: 0 <= i < DEFAULT_ROWS && 0 <= j < DEFAULT_COLS ==> g[i][j] == v
  {
    seq(DEFAULT_ROWS, _ => seq(DEFAULT_COLS, _ => v))
  }

  /** A board on the mine grid `m`, every cell HIDDEN, 1000 seconds on the
      clock and neither flag set. */
  function FreshBoard(m: seq<seq<bool>>): (b: Board)
    requires IsRect(m, DEFAULT_ROWS, DEFAULT_COLS)
    ensures WellFormed(b) && b.mines == m && |b.mines| == DEFAULT_ROWS && |b.mines[0]| == DEFAULT_COLS
    ensures forall i, j :: OnBoard(b, i, j) ==> b.revealed[i][j] == HIDDEN
    ensures b.time == DEFAULT_TIME && !b.won && !b.lost
  {
    Board(m, Filled(HIDDEN), DEFAULT_TIME, false, false)
  }

  /** The default constructor: a 16x16 board with 40 mines laid by the
      given random draws, every cell HIDDEN, 1000 seconds on the clock and
      neither flag set. None when the draws name fewer than 40 cells. */
  function NewBoard(draws: seq<Draw>): (r: Option<Board>)
    requires forall k :: 0 <= k < |draws| ==> IsValid(draws[k].y, draws[k].x, DEFAULT_ROWS, DEFAULT_COLS)
    ensures r.Some? <==> |FreshCells(Filled(false), draws)| >= DEFAULT_MINES
    ensures r.Some? ==> WellFormed(r.value) && |r.value.mines| == DEFAULT_ROWS && |r.value.mines[0]| == DEFAULT_COLS
    ensures r.Some? ==> GridCount(r.value.mines, IsMine) == DEFAULT_MINES
    ensures r.Some? ==> forall i, j :: OnBoard(r.value, i, j) ==> r.value.revealed[i][j] == HIDDEN
    ensures r.Some? ==> r.value.time == DEFAULT_TIME && !r.value.won && !r.value.lost
  {
    GridCountFilledFalse();
    match PlaceMines(Filled(false), draws, DEFAULT_MINES)
    case None => None
    case Some(m) => Some(FreshBoard(m))
  }

  lemma GridCountFilledFalse()
    ensures GridCount(Filled(false), IsMine) == 0
  {
    var g := Filled(false);
    forall k | 0 <= k <= DEFAULT_ROWS ensures GridCount(g[k..], IsMine) == 0 {
      GridCountNoMines(g[k..]);
    }
  }

  lemma {:induction false} GridCountNoMines(g: seq<seq<bool>>)
    requires forall i, j :: 0 <= i < |g| && 0 <= j < |g[i]| ==> !g[i][j]
    ensures GridCount(g, IsMine) == 0
  {
    if |g| > 0 {
      CountNoMines(g[0]);
      GridCountNoMines(g[1..]);
    }
  }

  lemma {:induction false} CountNoMines(s: seq<bool>)
    requires forall j :: 0 <= j < |s| ==> !s[j]
    ensures CountIf(s, IsMine) == 0
  {
    if |s| > 0 {
      CountNoMines(s[1..]);
    }
  }

  // ---------------------------------------------------------------- flood-fill consequences

  /** From a revealed cell, revealed-ness spreads to every cell of the board
      when every revealed cell has its block revealed. */
  lemma OpenedSpreads(r: Board, i: int, j: int, p: int, q: int)
    requires WellFormed(r) && OnBoard(r, i, j) && OnBoard(r, p, q) && Opened(r, i, j)
    requires forall a, c :: Opened(r, a, c) ==> Closed(r, a, c)
    ensures Opened(r, p, q)
    decreases (if p > i then p - i else i - p) + (if q > j then q - j else j - q)
  {
    if i != p || j != q {
      var di := if p > i then 1 else if p < i then -1 else 0;
      var dj := if q > j then 1 else if q < j then -1 else 0;
      var t := (di + 1) * 3 + (dj + 1);
      assert Around(i, j)[t] == (i + di, j + dj);
      assert AroundOpened(r, i, j, t);
      OpenedSpreads(r, i + di, j + dj, p, q);
    }
  }

  /** On a board without mines whose cells are all HIDDEN, a single reveal
      floods the whole board, and the win condition then holds. */
  lemma RevealMineFreeBoardWins(b: Board, y: int, x: int)
    requires WellFormed(b) && OnBoard(b, y, x)
    requires forall i, j :: OnBoard(b, i, j) ==> !b.mines[i][j] && b.revealed[i][j] == HIDDEN
    ensures forall i, j :: OnBoard(b, i, j) ==> Reveal(b, y, x).revealed[i][j] == REVEALED
    ensures CheckWinCon(Reveal(b, y, x))
  {
    var r := Reveal(b, y, x);
    forall i, j ensures MineCount(b.mines, i, j) == 0 {
      forall k | 0 <= k < 8 ensures !MineAt(b.mines, Neighbours(i, j)[k].0, Neighbours(i, j)[k].1) {
        var c := Neighbours(i, j)[k];
        assert MineAt(b.mines, c.0, c.1) ==> OnBoard(b, c.0, c.1);
      }
    }
    forall a, c | Opened(r, a, c) ensures Closed(r, a, c) {
      if !(a == y && c == x) {
        assert NewlyRevealed(b, r, a, c);
      }
    }
    forall p, q | OnBoard(b, p, q) ensures r.revealed[p][q] == REVEALED {
      OpenedSpreads(r, y, x, p, q);
    }
  }

  /** A 3x3 board with every cell HIDDEN, a mine in the centre or none. */
  function ThreeByThree(centreMine: bool): (b: Board)
    ensures WellFormed(b) && |b.mines| == 3 && |b.mines[0]| == 3
  {
    Board([[false, false, false], [false, centreMine, false], [false, false, false]],
          [[HIDDEN, HIDDEN, HIDDEN], [HIDDEN, HIDDEN, HIDDEN], [HIDDEN, HIDDEN, HIDDEN]],
          DEFAULT_TIME, false, false)
  }

  lemma CornerMineCount()
    ensures MineCount(ThreeByThree(true).mines, 0, 0) == 1
  {
    var m := ThreeByThree(true).mines;
    assert Neighbours(0, 0) == [(-1, -1), (-1, 0), (-1, 1), (0, -1), (0, 1), (1, -1), (1, 0), (1, 1)];
    assert MineAt(m, 1, 1);
    assert !MineAt(m, 0, 1) && !MineAt(m, 1, 0);
  }

  /** With a single mine in the centre, the corner's mine count is 1, so
      revealing it reveals that corner and nothing else. */
  lemma CornerBesideMineRevealsOnlyCorner()
    ensures MineCount(ThreeByThree(true).mines, 0, 0) == 1
    ensures Reveal(ThreeByThree(true), 0, 0).revealed[0][0] == REVEALED
    ensures forall i, j :: NewlyRevealed(ThreeByThree(true), Reveal(ThreeByThree(true), 0, 0), i, j) ==> i == 0 && j == 0
  {
    var b := ThreeByThree(true);
    assert WellFormed(b) && OnBoard(b, 0, 0) && b.revealed[0][0] == HIDDEN && !b.mines[0][0];
    CornerMineCount();
  }

  /** Without mines, revealing a corner floods all nine cells and wins. */
  lemma MineFreeCornerRevealsAll()
    ensures forall i, j :: 0 <= i < 3 && 0 <= j < 3 ==> Reveal(ThreeByThree(false), 0, 0).revealed[i][j] == REVEALED
    ensures CheckWinCon(Reveal(ThreeByThree(false), 0, 0))
  {
    RevealMineFreeBoardWins(ThreeByThree(false), 0, 0);
  }

  /** A hidden row of five cells with a mine in the middle. */
  function MiddleMineRow(): (b: Board)
    ensures WellFormed(b) && OnBoard(b, 0, 0) && b.revealed[0][0] == HIDDEN && !b.mines[0][0]
  {
    Board([[false, false, true, false, false]], [[HIDDEN, HIDDEN, HIDDEN, HIDDEN, HIDDEN]], 10, false, false)
  }

  lemma NextToMiddleMine()
    ensures MineCount(MiddleMineRow().mines, 0, 1) != 0
  {
    var m := MiddleMineRow().mines;
    assert Neighbours(0, 1)[4] == (0, 2);
    assert MineAt(m, 0, 2);
  }

  lemma LeftEndEmpty()
    ensures MineCount(MiddleMineRow().mines, 0, 0) == 0
  {
    var m := MiddleMineRow().mines;
    forall k | 0 <= k < 8 ensures !MineAt(m, Neighbours(0, 0)[k].0, Neighbours(0, 0)[k].1) {
      assert Neighbours(0, 0)[k] in [(-1, -1), (-1, 0), (-1, 1), (0, -1), (0, 1), (1, -1), (1, 0), (1, 1)];
    }
  }

  /** From the left end of the middle-mine row, the only cell of its block
      without an adjacent mine is the left end itself. */
  lemma LeftEndStep(r: Board, c: (int, int))
    requires InBlock((0, 0), c.0, c.1) && NewlyRevealed(MiddleMineRow(), r, c.0, c.1)
    requires MineCount(MiddleMineRow().mines, c.0, c.1) == 0
    ensures c == (0, 0)
  {
    NextToMiddleMine();
  }

  /** An empty chain from the left end of the middle-mine row never leaves
      that end: its right neighbour already has a mine beside it. */
  lemma {:induction false} ChainStaysAtLeftEnd(r: Board, p: seq<(int, int)>, n: nat)
    requires EmptyChain(MiddleMineRow(), r, p) && p[0] == (0, 0) && n < |p|
    ensures p[n] == (0, 0)
  {
    if n > 0 {
      ChainStaysAtLeftEnd(r, p, n - 1);
      LeftEndStep(r, p[n]);
    }
  }

  /** Any fill of the middle-mine row that spreads from its left end leaves
      the cells beyond the mine as they were. */
  lemma SpreadStopsAtMine(r: Board)
    requires OnlyUncovers(MiddleMineRow(), r) && SpreadFrom(MiddleMineRow(), r, 0, 0)
    ensures r.revealed[0][3] == HIDDEN && r.revealed[0][4] == HIDDEN
  {
    var b := MiddleMineRow();
    forall p | EmptyChain(b, r, p) && p[0] == (0, 0) ensures !InBlock(p[|p| - 1], 0, 3) && !InBlock(p[|p| - 1], 0, 4) {
      ChainStaysAtLeftEnd(r, p, |p| - 1);
    }
    assert !Reaches(b, r, 0, 0, 0, 3) && !Reaches(b, r, 0, 0, 0, 4);
    assert !NewlyRevealed(b, r, 0, 3) && !NewlyRevealed(b, r, 0, 4);
  }

  /** The mine stops the flood fill: revealing the left end of the row
      opens it and its neighbour, and the two cells beyond the mine stay
      hidden. */
  lemma MineStopsFill()
    ensures var r := Reveal(MiddleMineRow(), 0, 0);
            r.revealed[0][0] == REVEALED && r.revealed[0][1] == REVEALED
            && r.revealed[0][3] == HIDDEN && r.revealed[0][4] == HIDDEN
  {
    var r := Reveal(MiddleMineRow(), 0, 0);
    LeftEndEmpty();
    assert AroundOpened(r, 0, 0, 5);
    SpreadStopsAtMine(r);
  }
}
