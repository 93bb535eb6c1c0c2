/**
 * The crossword as a constraint-satisfaction problem: slots (variables), the
 * word pool, and the overlap table saying which letter of one slot's word must
 * equal which letter of another's. The parser that derives these from a grid is
 * not part of this model; a crossword is given by its parts.
 *
 * The source keeps variables and words in Python sets. Here they are sequences
 * without duplicates, and every loop over one of those sets runs in sequence
 * order, so the model is deterministic where the source depends on set order.
 */
module CrosswordModel {
  import opened Wrappers

  datatype Direction = Across | Down

  /** One slot: its first cell (i, j), its direction and its length. */
  datatype Variable = Variable(i: int, j: int, direction: Direction, length: nat)

  /** `(a, b)`: letter `a` of the first slot's word meets letter `b` of the second's. */
  type Offsets = (nat, nat)

  type Arc = (Variable, Variable)

  type Domains = map<Variable, set<string>>

  type Assignment = map<Variable, string>

  datatype Crossword = Crossword(variables: seq<Variable>, words: seq<string>,
                                 overlaps: map<Arc, Option<Offsets>>)

  predicate NoDup<T(==)>(s: seq<T>) {
    forall i, j :: 0 <= i < j < |s| ==> s[i] != s[j]
  }

  function Swap(o: Option<Offsets>): Option<Offsets> {
    match o
    case None => None
    case Some(p) => Some((p.1, p.0))
  }

  /** The overlap table as the parser builds it: one entry for every ordered pair
      of distinct slots, the two directions of a pair mirror each other, and the
      offsets fall inside the slots. */
  ghost predicate WellFormed(cw: Crossword) {
    && NoDup(cw.variables)
    && NoDup(cw.words)
    && (forall x, y :: x in cw.variables && y in cw.variables && x != y ==> (x, y) in cw.overlaps)
    && (forall p :: p in cw.overlaps ==> p.0 in cw.variables && p.1 in cw.variables && p.0 != p.1)
    && (forall x, y :: (x, y) in cw.overlaps ==> (y, x) in cw.overlaps && cw.overlaps[(y, x)] == Swap(cw.overlaps[(x, y)]))
    && (forall p :: p in cw.overlaps && cw.overlaps[p].Some? ==>
          cw.overlaps[p].value.0 < p.0.length && cw.overlaps[p].value.1 < p.1.length)
  }

  /** The slots as a set. */
  function Slots(cw: Crossword): set<Variable> {
    set v | v in cw.variables
  }

  /** The table entry for (x, y); None for a pair the table does not hold. */
  function Overlap(cw: Crossword, x: Variable, y: Variable): Option<Offsets> {
    if (x, y) in cw.overlaps then cw.overlaps[(x, y)] else None
  }

  /** The crossword's `neighbors`: the other slots that share a cell with `x`. */
  function Neighbors(cw: Crossword, x: Variable): (r: set<Variable>)
    ensures forall v :: v in r <==> v in cw.variables && v != x && Overlap(cw, v, x).Some?
  {
    set v | v in cw.variables && v != x && Overlap(cw, v, x).Some?
  }

  /** Neighbourhood is symmetric and goes with a defined overlap both ways. */
  lemma NeighborsSymmetric(cw: Crossword, x: Variable, y: Variable)
    requires WellFormed(cw)
    ensures y in Neighbors(cw, x) <==> x in cw.variables && y in cw.variables && x != y && Overlap(cw, x, y).Some?
    ensures y in Neighbors(cw, x) <==> x in Neighbors(cw, y)
  {
    if (y, x) in cw.overlaps {
      assert (x, y) in cw.overlaps;
    }
    if (x, y) in cw.overlaps {
      assert (y, x) in cw.overlaps;
    }
  }

  function Degree(cw: Crossword, x: Variable): nat {
    |Neighbors(cw, x)|
  }

  /** Two words meet at offsets `o`: both letters exist and are equal. */
  predicate Agree(w: string, v: string, o: Offsets) {
    o.0 < |w| && o.1 < |v| && w[o.0] == v[o.1]
  }

  /** `w` has a partner in `dy` at offsets `o`. */
  predicate Supported(w: string, dy: set<string>, o: Offsets) {
    exists v :: v in dy && Agree(w, v, o)
  }

  /** Every word of x's domain has a partner in y's domain (trivially so when the
      slots do not overlap). */
  predicate ArcConsistent(cw: Crossword, d: Domains, x: Variable, y: Variable)
    requires x in d && y in d
  {
    match Overlap(cw, x, y)
    case None => true
    case Some(o) => forall w :: w in d[x] ==> Supported(w, d[y], o)
  }

  /** Every word of every domain has the length of its slot. */
  predicate NodeConsistent(d: Domains) {
    forall v, w :: v in d && w in d[v] ==> |w| == v.length
  }

  /** The domains the solver works on: one per slot, node-consistent, drawn from
      the word pool. */
  ghost predicate Ready(cw: Crossword, d: Domains) {
    && WellFormed(cw)
    && d.Keys == Slots(cw)
    && NodeConsistent(d)
    && forall v, w :: v in d && w in d[v] ==> w in cw.words
  }

  /** Every assigned word has its slot's length. */
  predicate LengthsFit(a: Assignment) {
    forall v :: v in a ==> |a[v]| == v.length
  }

  /** Every pair of assigned, overlapping slots agrees on the shared letter. */
  predicate OverlapsAgree(cw: Crossword, a: Assignment) {
    forall x, y :: x in a && y in a && Overlap(cw, x, y).Some? ==> Agree(a[x], a[y], Overlap(cw, x, y).value)
  }

  /** No word is used twice. */
  predicate Injective(a: Assignment) {
    forall x, y :: x in a && y in a && x != y ==> a[x] != a[y]
  }

  /** Every slot has a word. */
  predicate Complete(cw: Crossword, a: Assignment) {
    forall v :: v in cw.variables ==> v in a
  }

  /** A filled crossword: every slot holds a distinct pool word of the right length
      and all crossings agree. */
  predicate IsSolution(cw: Crossword, a: Assignment) {
    && a.Keys == Slots(cw)
    && (forall v :: v in a ==> a[v] in cw.words)
    && LengthsFit(a) && Injective(a) && OverlapsAgree(cw, a)
  }

  /** The words of `s` in pool order: how the model iterates a set of words. */
  function Enumerate(cw: Crossword, s: set<string>): (r: seq<string>)
    ensures forall w :: w in r <==> w in s && w in cw.words
    ensures NoDup(cw.words) ==> NoDup(r)
  {
    EnumerateFrom(cw.words, s)
  }

  function EnumerateFrom(pool: seq<string>, s: set<string>): (r: seq<string>)
    ensures forall w :: w in r <==> w in s && w in pool
    ensures NoDup(pool) ==> NoDup(r)
    decreases |pool|
  {
    if |pool| == 0 then []
    else
      var rest := EnumerateFrom(pool[1..], s);
      assert forall w :: w in pool <==> w == pool[0] || w in pool[1..];
      if pool[0] in s then [pool[0]] + rest else rest
  }
}
