/**
 * The Minesweeper AI's bookkeeping: the cells it has played, the cells it knows
 * to be mines or safe, and its list of sentences. The guarantee worth having is
 * soundness: if everything the AI believes is true of the real board before a
 * move, it is still true after the board's answer is added.
 */
module MinesweeperAI {
  import opened Wrappers
  import opened MinesweeperGame
  import S = Sentences

  /** The source's `MinesweeperAI` object. */
  datatype AI = AI(height: int, width: int, movesMade: set<Cell>, mines: set<Cell>,
                   safes: set<Cell>, knowledge: seq<S.Sentence>)

  /** Everything the AI believes is true when the mines are exactly `m`. */
  ghost predicate Sound(ai: AI, m: set<Cell>) {
    && ai.mines <= m
    && ai.safes !! m
    && ai.movesMade !! m
    && forall i :: 0 <= i < |ai.knowledge| ==> S.Holds(ai.knowledge[i], m)
  }

  /** The elements of a sequence. */
  function Elems(order: seq<Cell>): set<Cell> {
    set c | c in order
  }

  /** A fresh AI: nothing played, nothing known. */
  function Initial(height: int, width: int): (r: AI)
    ensures r.height == height && r.width == width
    ensures r.movesMade == {} && r.mines == {} && r.safes == {} && r.knowledge == []
  {
    AI(height, width, {}, {}, {}, [])
  }

  /** A fresh AI believes nothing false, whatever the board. */
  lemma InitialSound(height: int, width: int, m: set<Cell>)
    ensures Sound(Initial(height, width), m)
  {
  }

  /** `mark_mine`: record the mine and remove it from every sentence. */
  function MarkMine(ai: AI, c: Cell): (r: AI)
    ensures r.mines == ai.mines + {c}
    ensures r.safes == ai.safes && r.movesMade == ai.movesMade
    ensures |r.knowledge| == |ai.knowledge|
    ensures forall i :: 0 <= i < |ai.knowledge| ==> r.knowledge[i] == S.MarkMine(ai.knowledge[i], c)
  {
    var k := ai.knowledge;
    ai.(mines := ai.mines + {c},
        knowledge := seq(|k|, i requires 0 <= i < |k| => S.MarkMine(k[i], c)))
  }

  /** `mark_safe`: record the safe cell and remove it from every sentence. */
  function MarkSafe(ai: AI, c: Cell): (r: AI)
    ensures r.safes == ai.safes + {c}
    ensures r.mines == ai.mines && r.movesMade == ai.movesMade
    ensures |r.knowledge| == |ai.knowledge|
    ensures forall i :: 0 <= i < |ai.knowledge| ==> r.knowledge[i] == S.MarkSafe(ai.knowledge[i], c)
  {
    var k := ai.knowledge;
    ai.(safes := ai.safes + {c},
        knowledge := seq(|k|, i requires 0 <= i < |k| => S.MarkSafe(k[i], c)))
  }

  /** Marking a real mine keeps a sound AI sound. */
  lemma MarkMineSound(ai: AI, c: Cell, m: set<Cell>)
    requires Sound(ai, m) && c in m
    ensures Sound(MarkMine(ai, c), m)
  {
    var r := MarkMine(ai, c);
    forall i | 0 <= i < |r.knowledge| ensures S.Holds(r.knowledge[i], m) {
      S.MarkMineSound(ai.knowledge[i], c, m);
    }
  }

  /** Marking a really safe cell keeps a sound AI sound. */
  lemma MarkSafeSound(ai: AI, c: Cell, m: set<Cell>)
    requires Sound(ai, m) && c !in m
    ensures Sound(MarkSafe(ai, c), m)
  {
    var r := MarkSafe(ai, c);
    forall i | 0 <= i < |r.knowledge| ensures S.Holds(r.knowledge[i], m) {
      S.MarkSafeSound(ai.knowledge[i], c, m);
    }
  }

  /** The source's loop marking each cell of a set safe, in the set's iteration
      order `order`. */
  function MarkSafes(ai: AI, order: seq<Cell>): (r: AI)
    ensures r.safes == ai.safes + Elems(order)
    ensures r.mines == ai.mines && r.movesMade == ai.movesMade
    ensures r.height == ai.height && r.width == ai.width
    ensures |r.knowledge| == |ai.knowledge|
    decreases |order|
  {
    if |order| == 0 then ai
    else
      assert Elems(order) == {order[0]} + Elems(order[1..]);
      MarkSafes(MarkSafe(ai, order[0]), order[1..])
  }

  /** The effect of marking every cell of `cells` safe, stated without an order. */
  function MarkAllSafe(ai: AI, cells: set<Cell>): (r: AI)
    ensures r.safes == ai.safes + cells
    ensures r.mines == ai.mines && r.movesMade == ai.movesMade
    ensures |r.knowledge| == |ai.knowledge|
    ensures forall i :: 0 <= i < |r.knowledge| ==>
      r.knowledge[i].cells == ai.knowledge[i].cells - cells && r.knowledge[i].count == ai.knowledge[i].count
  {
    var k := ai.knowledge;
    ai.(safes := ai.safes + cells,
        knowledge := seq(|k|, i requires 0 <= i < |k| => S.Sentence(k[i].cells - cells, k[i].count)))
  }

  /** Marking cells safe one at a time gives the same AI in every iteration order:
      the result depends only on the set of cells. */
  lemma {:induction false} MarkSafesOrderFree(ai: AI, order: seq<Cell>)
    ensures MarkSafes(ai, order) == MarkAllSafe(ai, Elems(order))
    decreases |order|
  {
    if |order| == 0 {
      assert Elems(order) == {};
      var r := MarkAllSafe(ai, {});
      assert r.knowledge == ai.knowledge by {
        forall i | 0 <= i < |r.knowledge| ensures r.knowledge[i] == ai.knowledge[i] {
          assert r.knowledge[i].cells == ai.knowledge[i].cells;
        }
      }
    } else {
      var c, rest := order[0], order[1..];
      assert Elems(order) == {c} + Elems(rest);
      MarkSafesOrderFree(MarkSafe(ai, c), rest);
      var lhs, rhs := MarkSafes(ai, order), MarkAllSafe(ai, Elems(order));
      assert lhs.knowledge == rhs.knowledge by {
        forall i | 0 <= i < |lhs.knowledge| ensures lhs.knowledge[i] == rhs.knowledge[i] {
          assert lhs.knowledge[i].cells == ai.knowledge[i].cells - {c} - Elems(rest);
        }
      }
    }
  }

  /** Marking a set of really safe cells keeps a sound AI sound. */
  lemma MarkAllSafeSound(ai: AI, cells: set<Cell>, m: set<Cell>)
    requires Sound(ai, m) && cells !! m
    ensures Sound(MarkAllSafe(ai, cells), m)
  {
    var r := MarkAllSafe(ai, cells);
    forall i | 0 <= i < |r.knowledge| ensures S.Holds(r.knowledge[i], m) {
      assert r.knowledge[i].cells * m == ai.knowledge[i].cells * m;
    }
  }

  /** The loop `for mine in self.mines: self.mark_mine(mine)`, in the set's
      iteration order `order`. */
  function MarkMines(ai: AI, order: seq<Cell>): (r: AI)
    ensures r.mines == ai.mines + Elems(order)
    ensures r.safes == ai.safes && r.movesMade == ai.movesMade
    ensures r.height == ai.height && r.width == ai.width
    ensures |r.knowledge| == |ai.knowledge|
    decreases |order|
  {
    if |order| == 0 then ai
    else
      assert Elems(order) == {order[0]} + Elems(order[1..]);
      MarkMines(MarkMine(ai, order[0]), order[1..])
  }

  /** Marking real mines keeps a sound AI sound. */
  lemma {:induction false} MarkMinesSound(ai: AI, order: seq<Cell>, m: set<Cell>)
    requires Sound(ai, m) && Elems(order) <= m
    ensures Sound(MarkMines(ai, order), m)
    decreases |order|
  {
    if |order| > 0 {
      assert order[0] in Elems(order);
      assert Elems(order[1..]) <= Elems(order);
      MarkMineSound(ai, order[0], m);
      MarkMinesSound(MarkMine(ai, order[0]), order[1..], m);
    }
  }

  /** One sentence after the cells of `order` were marked as mines, one by one. */
  function MarkMinesIn(s: S.Sentence, order: seq<Cell>): S.Sentence
    decreases |order|
  {
    if |order| == 0 then s else MarkMinesIn(S.MarkMine(s, order[0]), order[1..])
  }

  /** Marking mines across the knowledge acts on each sentence separately. */
  lemma {:induction false} MarkMinesPointwise(ai: AI, order: seq<Cell>)
    ensures forall i :: 0 <= i < |ai.knowledge| ==>
      MarkMines(ai, order).knowledge[i] == MarkMinesIn(ai.knowledge[i], order)
    decreases |order|
  {
    if |order| > 0 {
      MarkMinesPointwise(MarkMine(ai, order[0]), order[1..]);
    }
  }

  /** On a true sentence, marking real mines removes them all and lowers the count
      by how many there were: the result does not depend on the iteration order. */
  lemma {:induction false} MarkMinesInTrue(s: S.Sentence, order: seq<Cell>, m: set<Cell>)
    requires S.Holds(s, m) && Elems(order) <= m
    ensures MarkMinesIn(s, order)
      == S.Sentence(s.cells - Elems(order), s.count - |s.cells * Elems(order)|)
    decreases |order|
  {
    if |order| == 0 {
      assert Elems(order) == {};
    } else {
      var c, rest := order[0], order[1..];
      assert Elems(order) == {c} + Elems(rest);
      assert c in m;
      S.MarkMineSound(s, c, m);
      MarkMinesInTrue(S.MarkMine(s, c), rest, m);
      MineStep(s, c, Elems(rest), m);
    }
  }

  /** Marking mines one by one, whatever the sentence: only cells of `order` are
      removed, the count drops by one per removed cell, and while the count stays
      positive every cell of `order` goes. */
  lemma {:induction false} MarkMinesInShape(s: S.Sentence, order: seq<Cell>)
    ensures Shaped(s, MarkMinesIn(s, order), Elems(order))
    decreases |order|
  {
    if |order| == 0 {
      assert s.cells - s.cells == {};
    } else {
      var c, rest := order[0], order[1..];
      assert Elems(order) == {c} + Elems(rest);
      MarkMinesInShape(S.MarkMine(s, c), rest);
      ShapedStep(s, c, Elems(rest), MarkMinesIn(s, order));
    }
  }

  /** `r` is `s` after marking as mines some of the cells of `mines`, each taking
      one off the count, and all of them unless the count ran out. */
  ghost predicate Shaped(s: S.Sentence, r: S.Sentence, mines: set<Cell>) {
    && r.cells <= s.cells
    && s.cells - r.cells <= mines
    && r.count == s.count - |s.cells - r.cells|
    && (r.count > 0 ==> r.cells == s.cells - mines)
  }

  /** One more mine in front keeps the shape. */
  lemma ShapedStep(s: S.Sentence, c: Cell, rest: set<Cell>, r: S.Sentence)
    requires Shaped(S.MarkMine(s, c), r, rest)
    ensures Shaped(s, r, {c} + rest)
  {
    var t := S.MarkMine(s, c);
    if c in s.cells && s.count > 0 {
      assert s.cells - r.cells == {c} + (t.cells - r.cells);
      assert c !in t.cells - r.cells;
      assert |{c} + (t.cells - r.cells)| == 1 + |t.cells - r.cells|;
    }
  }

  /** One step of `MarkMinesIn` on a true sentence, in closed form. */
  lemma MineStep(s: S.Sentence, c: Cell, rest: set<Cell>, m: set<Cell>)
    requires S.Holds(s, m) && c in m
    ensures var t := S.MarkMine(s, c);
      && t.cells - rest == s.cells - ({c} + rest)
      && t.count - |t.cells * rest| == s.count - |s.cells * ({c} + rest)|
  {
    var t := S.MarkMine(s, c);
    if c in s.cells {
      assert c in s.cells * m;
      assert |s.cells * m| > 0;
      var u := t.cells * rest;
      assert c !in u;
      assert s.cells * ({c} + rest) == {c} + u;
      assert |{c} + u| == 1 + |u|;
    } else {
      assert s.cells * ({c} + rest) == s.cells * rest;
    }
  }

  /** `valid_cell` together with the filter of `neighbor_cells`: the cells of the
      block around `cell` that are on the board, not yet played and not known safe. */
  function Unknown(ai: AI, cell: Cell): (r: set<Cell>)
    ensures forall c :: c in r <==>
      c in Around(cell) && InBounds(ai.height, ai.width, c) && c !in ai.movesMade && c !in ai.safes
  {
    set c | c in Around(cell) && InBounds(ai.height, ai.width, c)
                               && c !in ai.movesMade && c !in ai.safes
  }

  /** Some sentence of `k` is about exactly `cells`, whatever its count. */
  predicate HasSentenceOn(k: seq<S.Sentence>, cells: set<Cell>) {
    exists i :: 0 <= i < |k| && k[i].cells == cells
  }

  /** The cells `add_knowledge` marks safe before re-marking the mines: the played
      cell, and its unknown neighbours when the count is zero. */
  function Cleared(ai: AI, cell: Cell, count: int): (r: set<Cell>)
    ensures cell in r
    ensures count == 0 ==> Unknown(ai, cell) <= r
    ensures r <= {cell} + Unknown(ai, cell)
  {
    if count == 0 then {cell} + Unknown(ai, cell) else {cell}
  }

  /** Steps 1 to 3 of `add_knowledge`. The cell becomes a move and safe; a count of
      zero makes every unknown neighbour safe; otherwise a sentence over the unknown
      neighbours is appended unless one over the same cells is already known. */
  function Learn(ai: AI, cell: Cell, count: int): (r: AI)
    ensures r.height == ai.height && r.width == ai.width
    ensures r.movesMade == ai.movesMade + {cell}
    ensures r.mines == ai.mines
    ensures r.safes == ai.safes + Cleared(ai, cell, count)
    ensures |ai.knowledge| <= |r.knowledge| <= |ai.knowledge| + 1
    ensures |r.knowledge| == |ai.knowledge| + 1 <==>
      count != 0 && !HasSentenceOn(MarkSafe(ai, cell).knowledge, Unknown(ai, cell) - {cell})
    ensures forall i :: 0 <= i < |ai.knowledge| ==>
      r.knowledge[i] == S.Sentence(ai.knowledge[i].cells - Cleared(ai, cell, count), ai.knowledge[i].count)
    ensures |r.knowledge| == |ai.knowledge| + 1 ==>
      r.knowledge[|ai.knowledge|] == S.Sentence(Unknown(ai, cell) - {cell}, count)
  {
    var played := MarkSafe(ai.(movesMade := ai.movesMade + {cell}), cell);
    var neighbors := Unknown(played, cell);
    assert neighbors == Unknown(ai, cell) - {cell};
    assert played.knowledge == MarkSafe(ai, cell).knowledge;
    if count == 0 then MarkAllSafe(played, neighbors)
    else if HasSentenceOn(played.knowledge, neighbors) then played
    else played.(knowledge := played.knowledge + [S.Sentence(neighbors, count)])
  }

  /** `add_knowledge`, steps 1 to 3 and the re-marking of the known mines.
      `mineOrder` is the iteration order of the known mines. */
  function AddKnowledge(ai: AI, cell: Cell, count: int, mineOrder: seq<Cell>): (r: AI)
    requires Elems(mineOrder) == ai.mines
    ensures r.height == ai.height && r.width == ai.width
    ensures r.movesMade == ai.movesMade + {cell}
    ensures r.mines == ai.mines
    ensures count == 0 ==> r.safes == ai.safes + {cell} + Unknown(ai, cell)
    ensures count != 0 ==> r.safes == ai.safes + {cell}
    ensures |ai.knowledge| <= |r.knowledge| <= |ai.knowledge| + 1
    ensures |r.knowledge| == |ai.knowledge| + 1 <==>
      count != 0 && !HasSentenceOn(MarkSafe(ai, cell).knowledge, Unknown(ai, cell) - {cell})
  {
    MarkMines(Learn(ai, cell, count), mineOrder)
  }

  /** The sentence `add_knowledge` appends is about the unknown neighbours of the
      cell: on the board, unplayed and not known safe, minus the known mines it
      removes, its count lowered by one per removed mine. */
  lemma AddKnowledgeNewSentence(ai: AI, cell: Cell, count: int, mineOrder: seq<Cell>)
    requires Elems(mineOrder) == ai.mines
    ensures var r := AddKnowledge(ai, cell, count, mineOrder);
      |r.knowledge| == |ai.knowledge| + 1 ==>
        var n, cells := r.knowledge[|ai.knowledge|], Unknown(ai, cell) - {cell};
        && n.cells <= cells
        && cells - n.cells <= ai.mines
        && n.count == count - |cells - n.cells|
        && (n.count > 0 ==> n.cells == cells - ai.mines)
        && forall c :: c in n.cells ==>
             InBounds(ai.height, ai.width, c) && c !in r.movesMade && c !in r.safes
  {
    var learned := Learn(ai, cell, count);
    var n := |ai.knowledge|;
    if |learned.knowledge| == n + 1 {
      MarkMinesPointwise(learned, mineOrder);
      MarkMinesInShape(learned.knowledge[n], mineOrder);
    }
  }

  /** Every sentence already known only loses cells: those `add_knowledge` marks
      safe and then known mines, one off the count per mine; while its count stays
      positive every known mine is gone from it. */
  lemma AddKnowledgeKeepsOld(ai: AI, cell: Cell, count: int, mineOrder: seq<Cell>)
    requires Elems(mineOrder) == ai.mines
    ensures var r := AddKnowledge(ai, cell, count, mineOrder);
      forall i :: 0 <= i < |ai.knowledge| ==>
        var s, t := ai.knowledge[i], r.knowledge[i];
        var left := s.cells - Cleared(ai, cell, count);
        && t.cells <= left
        && left - t.cells <= ai.mines
        && t.count == s.count - |left - t.cells|
        && (t.count > 0 ==> t.cells == left - ai.mines)
  {
    var learned := Learn(ai, cell, count);
    MarkMinesPointwise(learned, mineOrder);
    forall i | 0 <= i < |ai.knowledge| {
      MarkMinesInShape(learned.knowledge[i], mineOrder);
    }
  }

  /** On a sound AI the unknown neighbours of a safe cell hold exactly the board's
      neighbouring mines, so the board's count is the true count for them. */
  lemma UnknownMines(g: Game, ai: AI, cell: Cell)
    requires ValidGame(g) && ai.height == g.height && ai.width == g.width
    requires Sound(ai, g.mines) && cell !in g.mines && cell in ai.movesMade
    ensures Unknown(ai, cell) * g.mines == NeighborMines(g, cell)
  {
  }

  /** The main guarantee of `add_knowledge`: told the true count of a safe cell by
      the board, a sound AI stays sound. */
  lemma AddKnowledgeSound(g: Game, ai: AI, cell: Cell, mineOrder: seq<Cell>)
    requires ValidGame(g) && ai.height == g.height && ai.width == g.width
    requires Sound(ai, g.mines) && cell !in g.mines
    requires Elems(mineOrder) == ai.mines
    ensures Sound(AddKnowledge(ai, cell, NearbyMines(g, cell), mineOrder), g.mines)
  {
    var m, count := g.mines, NearbyMines(g, cell);
    var played := MarkSafe(ai.(movesMade := ai.movesMade + {cell}), cell);
    MarkSafeSound(ai.(movesMade := ai.movesMade + {cell}), cell, m);
    var neighbors := Unknown(played, cell);
    UnknownMines(g, played, cell);
    var learned :=
      if count == 0 then MarkAllSafe(played, neighbors)
      else if HasSentenceOn(played.knowledge, neighbors) then played
      else played.(knowledge := played.knowledge + [S.Sentence(neighbors, count)]);
    if count == 0 {
      MarkAllSafeSound(played, neighbors, m);
    }
    assert Sound(learned, m);
    MarkMinesSound(learned, mineOrder, m);
  }

  /** `make_safe_move`: any known-safe cell not yet played, or None when there is
      none. */
  method MakeSafeMove(ai: AI) returns (r: Option<Cell>)
    ensures r.Some? ==> r.value in ai.safes && r.value !in ai.movesMade
    ensures r.None? <==> ai.safes <= ai.movesMade
  {
    if ai.safes <= ai.movesMade {
      return None;
    }
    var c :| c in ai.safes && c !in ai.movesMade;
    return Some(c);
  }

  /** A sound AI's safe move never steps on a mine. */
  lemma SafeMoveIsSafe(ai: AI, m: set<Cell>, c: Cell)
    requires Sound(ai, m) && c in ai.safes
    ensures c !in m
  {
  }
}
