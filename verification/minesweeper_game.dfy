/**
 * The Minesweeper board: where the mines are, which of them the player has
 * flagged, and the board queries the AI relies on. Random mine placement is
 * not modelled; a game is given by its board.
 */
module MinesweeperGame {
  import opened Wrappers

  /** A cell (i, j): row i, column j. */
  type Cell = (int, int)

  /** The source's `Minesweeper` object: `board[i][j]` is true when (i, j) holds a
      mine, `mines` is the set of those cells and `minesFound` the flagged ones. */
  datatype Game = Game(height: nat, width: nat, board: seq<seq<bool>>,
                       mines: set<Cell>, minesFound: set<Cell>)

  predicate InBounds(height: int, width: int, c: Cell) {
    0 <= c.0 < height && 0 <= c.1 < width
  }

  /** The board has the stated shape and `mines` lists exactly its mine cells,
      as the source's constructor builds them together. */
  predicate ValidGame(g: Game) {
    && |g.board| == g.height
    && (forall i :: 0 <= i < g.height ==> |g.board[i]| == g.width)
    && (forall c :: c in g.mines ==> InBounds(g.height, g.width, c))
    && (forall i, j :: 0 <= i < g.height && 0 <= j < g.width ==> (g.board[i][j] <==> (i, j) in g.mines))
  }

  /** Python list indexing: 0..n-1 as is, -n..-1 counted from the end, anything
      else an IndexError (None). */
  function PyIndex(n: nat, i: int): (r: Option<nat>)
    ensures r.Some? <==> 0 <= i + n && i < n
    ensures r.Some? ==> r.value < n && (r.value == i || r.value == i + n)
  {
    if 0 <= i < n then Some(i)
    else if 0 <= i + n && i < 0 then Some(i + n)
    else None
  }

  /** `is_mine`: the board entry at the cell, or None where the source's indexing
      raises. Negative indices wrap around as Python's do. */
  function IsMine(g: Game, cell: Cell): (r: Option<bool>)
    requires ValidGame(g)
    ensures InBounds(g.height, g.width, cell) ==> r == Some(cell in g.mines)
    ensures r.None? <==> !(0 <= cell.0 + g.height && cell.0 < g.height && 0 <= cell.1 + g.width && cell.1 < g.width)
  {
    match PyIndex(g.height, cell.0)
    case None => None
    case Some(i) =>
      match PyIndex(g.width, cell.1)
      case None => None
      case Some(j) => Some(g.board[i][j])
  }

  /** The 3x3 block of cells centred on `cell`, the cell itself included. */
  function Around(cell: Cell): (r: set<Cell>)
    ensures forall c: Cell :: c in r <==> cell.0 - 1 <= c.0 <= cell.0 + 1 && cell.1 - 1 <= c.1 <= cell.1 + 1
  {
    var r := set i, j | cell.0 - 1 <= i <= cell.0 + 1 && cell.1 - 1 <= j <= cell.1 + 1 :: (i, j);
    assert forall c: Cell :: cell.0 - 1 <= c.0 <= cell.0 + 1 && cell.1 - 1 <= c.1 <= cell.1 + 1 ==> (c.0, c.1) in r;
    r
  }

  /** The mines next to `cell`: in its block, other than the cell itself. */
  function NeighborMines(g: Game, cell: Cell): set<Cell> {
    (Around(cell) - {cell}) * g.mines
  }

  /** One step of the source's double loop: 1 when the cell at offset (di, dj) is a
      different, in-bounds cell holding a mine, 0 otherwise. */
  function Hit(g: Game, cell: Cell, di: int, dj: int): (n: nat)
    requires ValidGame(g)
    ensures n == 1 <==> (di, dj) != (0, 0) && (cell.0 + di, cell.1 + dj) in g.mines
    ensures n <= 1
  {
    var c := (cell.0 + di, cell.1 + dj);
    if c == cell then 0
    else if InBounds(g.height, g.width, c) && g.board[c.0][c.1] then 1
    else 0
  }

  /** The mines of row `cell.0 + di` next to `cell`. */
  function RowMines(g: Game, cell: Cell, di: int): set<Cell> {
    set c | c in NeighborMines(g, cell) && c.0 == cell.0 + di
  }

  /** The cell at offset (di, dj) when it is a neighbouring mine. */
  function HitCell(g: Game, cell: Cell, di: int, dj: int): (r: set<Cell>)
    requires ValidGame(g)
    ensures |r| == Hit(g, cell, di, dj)
    ensures r <= {(cell.0 + di, cell.1 + dj)}
    ensures forall x :: x in r <==> x == (cell.0 + di, cell.1 + dj) && x != cell && x in g.mines
  {
    if Hit(g, cell, di, dj) == 1 then {(cell.0 + di, cell.1 + dj)} else {}
  }

  /** A row's neighbouring mines are the hits at its three columns. */
  lemma RowSplit(g: Game, cell: Cell, di: int)
    requires ValidGame(g) && -1 <= di <= 1
    ensures RowMines(g, cell, di)
      == HitCell(g, cell, di, -1) + HitCell(g, cell, di, 0) + HitCell(g, cell, di, 1)
  {
    forall x | x in RowMines(g, cell, di)
      ensures x in HitCell(g, cell, di, -1) + HitCell(g, cell, di, 0) + HitCell(g, cell, di, 1)
    {
      assert x.1 == cell.1 - 1 || x.1 == cell.1 || x.1 == cell.1 + 1;
    }
  }

  /** Three sets, each empty or a single cell of its own column, add up. */
  lemma ThreeColumns(a: set<Cell>, b: set<Cell>, c: set<Cell>, i: int, j: int)
    requires a <= {(i, j - 1)} && b <= {(i, j)} && c <= {(i, j + 1)}
    ensures |a + b + c| == |a| + |b| + |c|
  {
    assert a * b == {} && (a + b) * c == {};
    assert |a + b| == |a| + |b|;
  }

  /** The three steps of one row of the loop count that row's neighbouring mines. */
  lemma RowCount(g: Game, cell: Cell, di: int)
    requires ValidGame(g) && -1 <= di <= 1
    ensures Hit(g, cell, di, -1) + Hit(g, cell, di, 0) + Hit(g, cell, di, 1) == |RowMines(g, cell, di)|
  {
    RowSplit(g, cell, di);
    ThreeColumns(HitCell(g, cell, di, -1), HitCell(g, cell, di, 0), HitCell(g, cell, di, 1),
                 cell.0 + di, cell.1);
  }

  /** The neighbouring mines split into the three rows of the block. */
  lemma RowsPartition(g: Game, cell: Cell)
    ensures |NeighborMines(g, cell)|
      == |RowMines(g, cell, -1)| + |RowMines(g, cell, 0)| + |RowMines(g, cell, 1)|
  {
    var t, m, b := RowMines(g, cell, -1), RowMines(g, cell, 0), RowMines(g, cell, 1);
    assert NeighborMines(g, cell) == t + m + b by {
      forall x | x in NeighborMines(g, cell) ensures x in t + m + b {
        assert x.0 == cell.0 - 1 || x.0 == cell.0 || x.0 == cell.0 + 1;
      }
    }
    assert t * m == {} && (t + m) * b == {};
    assert |t + m| == |t| + |m|;
  }

  /** `nearby_mines`: the source's double loop over the 3x3 block, skipping the cell
      itself and the cells off the board. */
  function NearbyMines(g: Game, cell: Cell): (n: nat)
    requires ValidGame(g)
    ensures n == |NeighborMines(g, cell)|
    ensures n <= 8
  {
    RowCount(g, cell, -1);
    RowCount(g, cell, 0);
    RowCount(g, cell, 1);
    RowsPartition(g, cell);
    Hit(g, cell, -1, -1) + Hit(g, cell, -1, 0) + Hit(g, cell, -1, 1)
      + Hit(g, cell, 0, -1) + Hit(g, cell, 0, 0) + Hit(g, cell, 0, 1)
      + Hit(g, cell, 1, -1) + Hit(g, cell, 1, 0) + Hit(g, cell, 1, 1)
  }

  /** `won`: every mine has been flagged and nothing else has. */
  predicate Won(g: Game) {
    g.minesFound == g.mines
  }

  /** The game is won exactly when the flagged cells are precisely the cells whose
      board entry is a mine. */
  lemma WonIffFlagsMatchBoard(g: Game)
    requires ValidGame(g)
    ensures Won(g) <==>
      forall c :: c in g.minesFound <==> InBounds(g.height, g.width, c) && g.board[c.0][c.1]
  {
    if forall c :: c in g.minesFound <==> InBounds(g.height, g.width, c) && g.board[c.0][c.1] {
      assert g.minesFound == g.mines by {
        forall c | c in g.mines ensures c in g.minesFound {
          assert g.board[c.0][c.1];
        }
      }
    }
  }
}
