/**
 * The AI's knowledge unit: a sentence says that exactly `count` of `cells` are
 * mines. `Holds(s, m)` reads a sentence against a candidate set `m` of mine
 * cells, which is what the inference rules below must respect.
 */
module Sentences {
  import opened MinesweeperGame

  /** A logical statement about the board; two sentences are equal when their cells
      and counts are, as the source's `__eq__` says. */
  datatype Sentence = Sentence(cells: set<Cell>, count: int)

  /** `s` is true when the mines are exactly the cells in `m`. */
  ghost predicate Holds(s: Sentence, m: set<Cell>) {
    |s.cells * m| == s.count
  }

  /** A subset as large as its superset is the whole superset. */
  lemma SubsetSameSize<T>(a: set<T>, b: set<T>)
    requires a <= b && |a| == |b|
    ensures a == b
  {
    assert |b - a| == |b| - |a|;
  }

  /** `known_mines`: every cell, when there are as many cells as mines; none otherwise. */
  function KnownMines(s: Sentence): (r: set<Cell>)
    ensures r <= s.cells
    ensures |s.cells| == s.count ==> r == s.cells
    ensures |s.cells| != s.count ==> r == {}
  {
    if |s.cells| == s.count then s.cells else {}
  }

  /** `known_safes`: every cell, when the count is zero; none otherwise. */
  function KnownSafes(s: Sentence): (r: set<Cell>)
    ensures r <= s.cells
    ensures s.count == 0 ==> r == s.cells
    ensures s.count != 0 ==> r == {}
  {
    if s.count == 0 then s.cells else {}
  }

  /** The mines a true sentence reports really are mines. */
  lemma KnownMinesSound(s: Sentence, m: set<Cell>)
    requires Holds(s, m)
    ensures KnownMines(s) <= m
  {
    if |s.cells| == s.count {
      SubsetSameSize(s.cells * m, s.cells);
    }
  }

  /** The safe cells a true sentence reports really are free of mines. */
  lemma KnownSafesSound(s: Sentence, m: set<Cell>)
    requires Holds(s, m)
    ensures KnownSafes(s) * m == {}
  {
  }

  /** `mark_mine`: drop a known mine and lower the count, but only while the cell is
      in the sentence and the count is still positive. */
  function MarkMine(s: Sentence, c: Cell): (r: Sentence)
    ensures c in s.cells && s.count > 0 ==> c !in r.cells && r.cells + {c} == s.cells
    ensures !(c in s.cells && s.count > 0) ==> r == s
    ensures r.count == s.count - |s.cells - r.cells|
    ensures s.count >= 0 ==> r.count >= 0
  {
    if c in s.cells && s.count > 0 then Sentence(s.cells - {c}, s.count - 1) else s
  }

  /** `mark_safe`: drop a known safe cell; the count stays. */
  function MarkSafe(s: Sentence, c: Cell): (r: Sentence)
    ensures c !in r.cells && r.cells + ({c} * s.cells) == s.cells
    ensures r.count == s.count
  {
    if c in s.cells then Sentence(s.cells - {c}, s.count) else s
  }

  /** Marking the same cell safe twice is the same as marking it once. */
  lemma MarkSafeIdempotent(s: Sentence, c: Cell)
    ensures MarkSafe(MarkSafe(s, c), c) == MarkSafe(s, c)
  {
  }

  /** Removing a real mine keeps a true sentence true. */
  lemma MarkMineSound(s: Sentence, c: Cell, m: set<Cell>)
    requires Holds(s, m) && c in m
    ensures Holds(MarkMine(s, c), m)
  {
    if c in s.cells && s.count > 0 {
      assert s.cells * m == (s.cells - {c}) * m + {c};
    }
  }

  /** Removing a really safe cell keeps a true sentence true. */
  lemma MarkSafeSound(s: Sentence, c: Cell, m: set<Cell>)
    requires Holds(s, m) && c !in m
    ensures Holds(MarkSafe(s, c), m)
  {
    assert (s.cells - {c}) * m == s.cells * m;
  }
}
