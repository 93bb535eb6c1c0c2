/**
 * Tic-tac-toe rules and exhaustive minimax on a 3x3 board. Boards are immutable
 * values, so `Result` returning a fresh board is what the source's deep copy
 * achieves: the board passed in is never changed.
 */
module TicTacToe {
  import opened Wrappers

  /** The two sides; `Player` below says whose turn it is. */
  datatype Side = X | O

  /** A square: EMPTY (Python's None) or a player's mark. */
  datatype Cell = Empty | Mark(side: Side)

  type Row = r: seq<Cell> | |r| == 3 witness [Empty, Empty, Empty]

  /** A board is three rows of three squares, indexed board[i][j]. */
  type Board = b: seq<Row> | |b| == 3
    witness [[Empty, Empty, Empty], [Empty, Empty, Empty], [Empty, Empty, Empty]]

  /** An action (i, j): the row and the column of a square. */
  type Pos = (int, int)

  predicate InRange(a: Pos) {
    0 <= a.0 < 3 && 0 <= a.1 < 3
  }

  /** The square at `a`, read as Empty when `a` is off the board. */
  function At(b: Board, a: Pos): Cell {
    if InRange(a) then b[a.0][a.1] else Empty
  }

  function InitialState(): (b: Board)
    ensures forall i, j :: 0 <= i < 3 && 0 <= j < 3 ==> b[i][j] == Empty
  {
    [[Empty, Empty, Empty], [Empty, Empty, Empty], [Empty, Empty, Empty]]
  }

  /** The nine squares in the row-major order of the source's `for i ... for j` loops. */
  function Flatten(b: Board): (s: seq<Cell>)
    ensures |s| == 9
    ensures forall i, j :: 0 <= i < 3 && 0 <= j < 3 ==> s[3 * i + j] == b[i][j]
  {
    var first: seq<Cell> := b[0];
    first + b[1] + b[2]
  }

  /** How many squares hold `c`: the counter the source's loops keep. */
  function Count(b: Board, c: Cell): nat {
    multiset(Flatten(b))[c]
  }

  /** Square number `k` in row-major order is (k / 3, k % 3). */
  lemma SquareNumber(a: Pos, k: nat)
    requires InRange(a) && 3 * a.0 + a.1 == k
    ensures a == (k / 3, k % 3)
  {
  }

  /** Every number below 9 names an in-range square. */
  lemma NumberSquare(k: nat)
    requires k < 9
    ensures InRange((k / 3, k % 3)) && 3 * (k / 3) + k % 3 == k
  {
  }

  /** No square holds `c` exactly when the count of `c` is zero. */
  lemma CountZero(b: Board, c: Cell)
    ensures Count(b, c) == 0 <==> forall i, j :: 0 <= i < 3 && 0 <= j < 3 ==> b[i][j] != c
  {
    var s := Flatten(b);
    if Count(b, c) != 0 {
      assert c in s;
      var k :| 0 <= k < 9 && s[k] == c;
      SquareNumber((k / 3, k % 3), k);
      assert b[k / 3][k % 3] == c;
    }
  }

  /** X moves when both sides have placed the same number of marks, O otherwise. */
  function Player(b: Board): (p: Side)
    ensures b == InitialState() ==> p == X
    ensures Balanced(b) ==> (p == X <==> Count(b, Mark(X)) <= Count(b, Mark(O)))
    ensures Balanced(b) ==> (p == O <==> Count(b, Mark(X)) == Count(b, Mark(O)) + 1)
  {
    InitialCounts();
    if Count(b, Mark(X)) == Count(b, Mark(O)) then X else O
  }

  /** The available actions: exactly the in-range squares that are empty. */
  function Actions(b: Board): (r: set<Pos>)
    ensures forall a :: a in r <==> InRange(a) && b[a.0][a.1] == Empty
  {
    set i, j | 0 <= i < 3 && 0 <= j < 3 && b[i][j] == Empty :: (i, j)
  }

  /** Why `result` raises: the action is off the board or its square is taken. */
  datatype MoveError = InvalidAction

  /** The board after the player to move marks the empty square `a`. */
  function Apply(b: Board, a: Pos): (r: Board)
    requires a in Actions(b)
    ensures r[a.0][a.1] == Mark(Player(b))
    ensures forall i, j :: 0 <= i < 3 && 0 <= j < 3 && (i, j) != a ==> r[i][j] == b[i][j]
    ensures Actions(r) == Actions(b) - {a}
    ensures |Actions(r)| == |Actions(b)| - 1
  {
    var r := b[a.0 := b[a.0][a.1 := Mark(Player(b))]];
    assert Actions(r) == Actions(b) - {a} by {
      forall c | c in Actions(b) - {a} ensures c in Actions(r) {
      }
    }
    r
  }

  /** The side that did not move. */
  function Opponent(p: Side): Side {
    if p == X then O else X
  }

  /** Mark counts that legal play from the initial state can produce:
      X has placed as many marks as O, or one more. */
  predicate Balanced(b: Board) {
    Count(b, Mark(X)) == Count(b, Mark(O)) || Count(b, Mark(X)) == Count(b, Mark(O)) + 1
  }

  /** Square number k of the row-major listing. */
  lemma FlattenAt(b: Board, k: int)
    requires 0 <= k < 9
    ensures InRange((k / 3, k % 3)) && Flatten(b)[k] == b[k / 3][k % 3]
  {
    NumberSquare(k);
  }

  /** In row-major order, a move changes exactly square number 3 * i + j. */
  lemma FlattenApply(b: Board, a: Pos)
    requires a in Actions(b)
    ensures Flatten(Apply(b, a)) == Flatten(b)[3 * a.0 + a.1 := Mark(Player(b))]
  {
    var s, t := Flatten(b), Flatten(Apply(b, a));
    var n := 3 * a.0 + a.1;
    forall k | 0 <= k < 9 ensures t[k] == s[n := Mark(Player(b))][k] {
      FlattenAt(b, k);
      FlattenAt(Apply(b, a), k);
      if k == n {
        SquareNumber(a, k);
      }
    }
  }

  /** Overwriting one element moves one occurrence from the old value to the new. */
  lemma UpdateCount(s: seq<Cell>, n: int, v: Cell, c: Cell)
    requires 0 <= n < |s|
    ensures multiset(s[n := v])[c]
      == multiset(s)[c] - (if s[n] == c then 1 else 0) + (if v == c then 1 else 0)
  {
    assert multiset(s[n := v]) == multiset(s) - multiset{s[n]} + multiset{v};
  }

  /** A move adds one mark for the side to move, takes one empty square away and
      leaves the opponent's count alone. */
  lemma MoveCounts(b: Board, a: Pos)
    requires a in Actions(b)
    ensures Count(Apply(b, a), Mark(Player(b))) == Count(b, Mark(Player(b))) + 1
    ensures Count(Apply(b, a), Mark(Opponent(Player(b)))) == Count(b, Mark(Opponent(Player(b))))
    ensures Count(Apply(b, a), Empty) + 1 == Count(b, Empty)
  {
    var s := Flatten(b);
    var n := 3 * a.0 + a.1;
    var m := Mark(Player(b));
    FlattenApply(b, a);
    assert s[n] == Empty by {
      SquareNumber(a, n);
    }
    UpdateCount(s, n, m, m);
    UpdateCount(s, n, m, Mark(Opponent(Player(b))));
    UpdateCount(s, n, m, Empty);
  }

  /** Players alternate: from a balanced board every move keeps the board balanced
      and hands the turn to the other side. */
  lemma {:induction false} PlayersAlternate(b: Board, a: Pos)
    requires Balanced(b) && a in Actions(b)
    ensures Balanced(Apply(b, a))
    ensures Player(Apply(b, a)) == Opponent(Player(b))
  {
    MoveCounts(b, a);
  }

  /** The game starts empty and balanced, with X to move and all nine squares free. */
  lemma InitialStateFacts()
    ensures Player(InitialState()) == X && Balanced(InitialState())
    ensures forall a :: InRange(a) <==> a in Actions(InitialState())
  {
    InitialCounts();
  }

  /** Neither side has a mark on the empty board. */
  lemma InitialCounts()
    ensures Count(InitialState(), Mark(X)) == 0 && Count(InitialState(), Mark(O)) == 0
  {
    CountZero(InitialState(), Mark(X));
    CountZero(InitialState(), Mark(O));
  }

  /** Nobody has a line on the empty board, so the game is not over. */
  lemma InitialNotTerminal()
    ensures Utility(InitialState()) == 0
    ensures !Terminal(InitialState())
  {
    var b := InitialState();
    assert forall a :: At(b, a) == Empty;
    assert (0, 0) in Actions(b);
  }

  /** `result`: the successor board, or the exception for an illegal action. */
  function Result(b: Board, a: Pos): (r: Result<Board, MoveError>)
    ensures r.Failure? <==> !InRange(a) || b[a.0][a.1] != Empty
    ensures r.Success? ==>
      && r.value[a.0][a.1] == Mark(Player(b))
      && forall i, j :: 0 <= i < 3 && 0 <= j < 3 && (i, j) != a ==> r.value[i][j] == b[i][j]
  {
    if a.0 < 0 || a.0 > 2 || a.1 < 0 || a.1 > 2 || b[a.0][a.1] != Empty then Failure(InvalidAction)
    else Success(Apply(b, a))
  }

  /** The eight winning lines in the order the source tests them:
      rows, then columns, then the two diagonals. */
  const Lines: seq<seq<Pos>> := [
    [(0, 0), (0, 1), (0, 2)], [(1, 0), (1, 1), (1, 2)], [(2, 0), (2, 1), (2, 2)],
    [(0, 0), (1, 0), (2, 0)], [(0, 1), (1, 1), (2, 1)], [(0, 2), (1, 2), (2, 2)],
    [(0, 0), (1, 1), (2, 2)], [(0, 2), (1, 1), (2, 0)]
  ]

  /** Line `n` is filled entirely with `p`'s marks. */
  predicate Owns(b: Board, p: Side, n: nat)
    requires n < |Lines|
  {
    At(b, Lines[n][0]) == Mark(p) && At(b, Lines[n][1]) == Mark(p) && At(b, Lines[n][2]) == Mark(p)
  }

  /** Some line is filled entirely with `p`'s marks. */
  predicate HasLine(b: Board, p: Side) {
    exists n :: 0 <= n < |Lines| && Owns(b, p, n)
  }

  /** The source's chain of tests from line `n` on: X before O on each line. */
  function UtilityFrom(b: Board, n: nat): (r: int)
    requires n <= |Lines|
    ensures -1 <= r <= 1
    ensures r == 1 ==> exists m :: n <= m < |Lines| && Owns(b, X, m)
    ensures r == -1 ==> exists m :: n <= m < |Lines| && Owns(b, O, m)
    ensures r == 0 <==> forall m :: n <= m < |Lines| ==> !Owns(b, X, m) && !Owns(b, O, m)
    decreases |Lines| - n
  {
    if n == |Lines| then 0
    else if Owns(b, X, n) then 1
    else if Owns(b, O, n) then -1
    else UtilityFrom(b, n + 1)
  }

  /** 1 when X has a line, -1 when O has one, 0 when nobody has. */
  function Utility(b: Board): (r: int)
    ensures -1 <= r <= 1
    ensures r != 0 <==> HasLine(b, X) || HasLine(b, O)
    ensures r == 1 ==> HasLine(b, X)
    ensures r == -1 ==> HasLine(b, O)
  {
    UtilityFrom(b, 0)
  }

  /** The winner read off the utility: None, X or O for 0, 1 or -1. */
  function Winner(b: Board): (r: Option<Side>)
    ensures r == None <==> !HasLine(b, X) && !HasLine(b, O)
    ensures r == Some(X) ==> HasLine(b, X)
    ensures r == Some(O) ==> HasLine(b, O)
  {
    var u := Utility(b);
    if u == 0 then None
    else if u == 1 then Some(X)
    else Some(O)
  }

  /** The winner agrees with the utility value. */
  lemma WinnerMatchesUtility(b: Board)
    ensures Winner(b) == None <==> Utility(b) == 0
    ensures Winner(b) == Some(X) <==> Utility(b) == 1
    ensures Winner(b) == Some(O) <==> Utility(b) == -1
  {
  }

  /** The game is over once someone has a line or no square is empty. */
  function Terminal(b: Board): (r: bool)
    ensures r <==> Utility(b) != 0 || forall i, j :: 0 <= i < 3 && 0 <= j < 3 ==> b[i][j] != Empty
    ensures r <==> Utility(b) != 0 || Actions(b) == {}
  {
    CountZero(b, Empty);
    FullIffNoActions(b);
    Utility(b) != 0 || Count(b, Empty) == 0
  }

  /** No action is left exactly when every square is taken. */
  lemma FullIffNoActions(b: Board)
    ensures Actions(b) == {} <==> forall i, j :: 0 <= i < 3 && 0 <= j < 3 ==> b[i][j] != Empty
  {
    if Actions(b) != {} {
      var a :| a in Actions(b);
      assert b[a.0][a.1] == Empty;
    } else {
      forall i, j | 0 <= i < 3 && 0 <= j < 3 ensures b[i][j] != Empty {
        assert (i, j) !in Actions(b);
      }
    }
  }

  /** Stand-ins for the source's -math.inf and math.inf: below and above every utility. */
  const NegInf: int := -2
  const PosInf: int := 2

  /** `v` strictly beats `best` for the side to move: X maximises, O minimises. */
  predicate Improves(p: Side, v: int, best: int) {
    if p == X then v > best else v < best
  }

  /** `v` is at least as good as every value in `vs` for side `p`. */
  predicate NoWorse(p: Side, best: int, v: int) {
    if p == X then v <= best else v >= best
  }

  /** Minimax value of the board and, when the game is not over, a move achieving it:
      X takes the largest and O the smallest value among the successor boards.
      Each move fills one empty square, so the number of actions decreases. */
  function Minimax(b: Board): (r: (int, Option<Pos>))
    ensures -1 <= r.0 <= 1
    ensures Terminal(b) ==> r == (Utility(b), None)
    ensures !Terminal(b) ==> r.1.Some? && r.1.value in Actions(b)
    decreases |Actions(b)|, 1, 0, 0
  {
    if Terminal(b) then (Utility(b), None)
    else Best(b, 0, if Player(b) == X then NegInf else PosInf, None)
  }

  /** The minimax value of the board after action `a`; 0 for a square that is
      no action, which the loop below never asks for. */
  function Score(b: Board, a: Pos): (v: int)
    ensures -1 <= v <= 1
    decreases |Actions(b)|, 0, 0, 0
  {
    if a in Actions(b) then Minimax(Apply(b, a)).0 else 0
  }

  /** What the source's loop over the actions knows after visiting the squares
      numbered below `k` (row-major order): `move` is the first action whose successor
      value was strictly better than everything before it, and `best` is its value. */
  predicate Visited(b: Board, k: nat, best: int, move: Option<Pos>)
    decreases |Actions(b)|, 0, 0, 1
  {
    && k <= 9
    && (move.None? ==> best == (if Player(b) == X then NegInf else PosInf))
    && (move.None? ==> forall a :: a in Actions(b) ==> 3 * a.0 + a.1 >= k)
    && (move.Some? ==> move.value in Actions(b) && -1 <= best <= 1)
    && (move.Some? ==> Score(b, move.value) == best)
    && (forall a :: a in Actions(b) && 3 * a.0 + a.1 < k ==>
         NoWorse(Player(b), best, Score(b, a)))
  }

  /** The source's loop over the actions (visited in row-major order): keep the first
      action whose successor value strictly improves on the best so far. */
  function Best(b: Board, k: nat, best: int, move: Option<Pos>): (r: (int, Option<Pos>))
    requires k <= 9 && Actions(b) != {} && Visited(b, k, best, move)
    ensures r.1.Some? && r.1.value in Actions(b) && -1 <= r.0 <= 1
    ensures Score(b, r.1.value) == r.0
    ensures forall a :: a in Actions(b) ==> NoWorse(Player(b), r.0, Score(b, a))
    decreases |Actions(b)|, 0, 9 - k, 2
  {
    if k == 9 then
      if move.None? then
        assert false;
        (best, move)
      else (best, move)
    else
      NumberSquare(k);
      if b[k / 3][k % 3] != Empty then
        SkipSquare(b, k, best, move);
        Best(b, k + 1, best, move)
      else Consider(b, k, best, move)
  }

  /** Square number `k` is the only square with that number. */
  lemma OnlySquare(k: nat)
    requires k < 9
    ensures forall c: Pos :: InRange(c) && 3 * c.0 + c.1 == k ==> c == (k / 3, k % 3)
  {
    forall c: Pos | InRange(c) && 3 * c.0 + c.1 == k ensures c == (k / 3, k % 3) {
      SquareNumber(c, k);
    }
  }

  /** A taken square is no action, so the loop passes over it unchanged. */
  lemma SkipSquare(b: Board, k: nat, best: int, move: Option<Pos>)
    requires k < 9 && Visited(b, k, best, move)
    requires InRange((k / 3, k % 3)) && b[k / 3][k % 3] != Empty
    ensures Visited(b, k + 1, best, move)
    decreases |Actions(b)|, 0, 9 - k, 0
  {
    OnlySquare(k);
  }

  /** One step of that loop on the empty square number `k`. */
  function Consider(b: Board, k: nat, best: int, move: Option<Pos>): (r: (int, Option<Pos>))
    requires k < 9 && Visited(b, k, best, move)
    requires InRange((k / 3, k % 3)) && b[k / 3][k % 3] == Empty
    ensures r.1.Some? && r.1.value in Actions(b) && -1 <= r.0 <= 1
    ensures Score(b, r.1.value) == r.0
    ensures forall a :: a in Actions(b) ==> NoWorse(Player(b), r.0, Score(b, a))
    decreases |Actions(b)|, 0, 9 - k, 1
  {
    var a := (k / 3, k % 3);
    var v := Score(b, a);
    if Improves(Player(b), v, best) then
      TakeSquare(b, k, best, move);
      Best(b, k + 1, v, Some(a))
    else
      KeepBest(b, k, best, move);
      Best(b, k + 1, best, move)
  }

  /** A square whose value improves on the best so far becomes the move. */
  lemma TakeSquare(b: Board, k: nat, best: int, move: Option<Pos>)
    requires k < 9 && Visited(b, k, best, move)
    requires InRange((k / 3, k % 3)) && b[k / 3][k % 3] == Empty
    requires Improves(Player(b), Score(b, (k / 3, k % 3)), best)
    ensures Visited(b, k + 1, Score(b, (k / 3, k % 3)), Some((k / 3, k % 3)))
    decreases |Actions(b)|, 0, 9 - k, 0
  {
    forall c | c in Actions(b) && 3 * c.0 + c.1 == k
      ensures c == (k / 3, k % 3)
    {
      SquareNumber(c, k);
    }
    ExtendTaken(Actions(b), k, Player(b), best, Score(b, (k / 3, k % 3)), c => Score(b, c));
  }

  /** A square whose value does not improve leaves the best and the move alone. */
  lemma KeepBest(b: Board, k: nat, best: int, move: Option<Pos>)
    requires k < 9 && Visited(b, k, best, move)
    requires InRange((k / 3, k % 3)) && b[k / 3][k % 3] == Empty
    requires !Improves(Player(b), Score(b, (k / 3, k % 3)), best)
    ensures Visited(b, k + 1, best, move)
    decreases |Actions(b)|, 0, 9 - k, 0
  {
    forall c | c in Actions(b) && 3 * c.0 + c.1 == k
      ensures NoWorse(Player(b), best, Score(b, c))
    {
      SquareNumber(c, k);
    }
    ExtendKept(Actions(b), k, Player(b), best, c => Score(b, c));
  }

  /** The bound over the squares numbered below `k` moves to `v` when `v` beats it
      and square `k` is worth `v`. */
  lemma ExtendTaken(acts: set<Pos>, k: nat, p: Side, best: int, v: int, val: Pos -> int)
    requires forall c :: c in acts && 3 * c.0 + c.1 < k ==> NoWorse(p, best, val(c))
    requires Improves(p, v, best)
    requires forall c :: c in acts && 3 * c.0 + c.1 == k ==> val(c) == v
    ensures forall c :: c in acts && 3 * c.0 + c.1 < k + 1 ==> NoWorse(p, v, val(c))
  {
  }

  /** The bound over the squares numbered below `k` extends to square `k` when that
      square does not beat it. */
  lemma ExtendKept(acts: set<Pos>, k: nat, p: Side, best: int, val: Pos -> int)
    requires forall c :: c in acts && 3 * c.0 + c.1 < k ==> NoWorse(p, best, val(c))
    requires forall c :: c in acts && 3 * c.0 + c.1 == k ==> NoWorse(p, best, val(c))
    ensures forall c :: c in acts && 3 * c.0 + c.1 < k + 1 ==> NoWorse(p, best, val(c))
  {
  }

  /** On a board that is not over, the minimax value is attained by the returned
      action, and no other action is better for the side to move. */
  lemma MinimaxOptimal(b: Board)
    requires !Terminal(b)
    ensures Minimax(Apply(b, Minimax(b).1.value)).0 == Minimax(b).0
    ensures forall a :: a in Actions(b) ==> NoWorse(Player(b), Minimax(b).0, Minimax(Apply(b, a)).0)
  {
  }

  /** `minimax`: the optimal action for the side to move, None once the game is over. */
  function MinimaxAction(b: Board): (r: Option<Pos>)
    ensures r.None? <==> Terminal(b)
    ensures r.Some? ==> r.value in Actions(b)
    ensures r.Some? ==> Minimax(Apply(b, r.value)).0 == Minimax(b).0
    ensures r.Some? ==>
      forall a :: a in Actions(b) ==> NoWorse(Player(b), Minimax(Apply(b, r.value)).0, Minimax(Apply(b, a)).0)
  {
    if Terminal(b) then None
    else
      MinimaxOptimal(b);
      Minimax(b).1
  }
}
