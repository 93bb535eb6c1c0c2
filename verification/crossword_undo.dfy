/**
 * Backtracking with undo: the search the solver's documentation describes,
 * where a word that led nowhere is taken back out of the assignment before the
 * next one is tried. Unlike `Search.Backtrack` it finds a solution whenever the
 * domains admit one, and `SolveUndo` built on it is both sound and complete.
 */
module SearchUndo {
  import opened Wrappers
  import opened CrosswordModel
  import opened Consistency
  import opened Search

  /** Backtracking search that restores the assignment after each failed word. */
  function BacktrackUndo(cw: Crossword, d: Domains, a: Assignment): (r: Option<Assignment>)
    requires Ready(cw, d)
    ensures r.Some? ==> Extends(a, r.value, d) && r.value.Keys <= a.Keys + Slots(cw)
    ensures r.Some? ==> Complete(cw, r.value)
    ensures r.Some? && !Complete(cw, a) ==> Consistent(cw, r.value)
    decreases |Unassigned(cw, a)|, 1, 0
  {
    if AssignmentComplete(cw, a) then Some(a)
    else
      var x := SelectUnassignedVariable(cw, d, a);
      TryValuesUndo(cw, d, x, OrderDomainValues(cw, d, x, a), a)
  }

  /** The loop over x's ordered words; every word starts again from `a`. */
  function TryValuesUndo(cw: Crossword, d: Domains, x: Variable, values: seq<string>, a: Assignment): (r: Option<Assignment>)
    requires Ready(cw, d) && x in cw.variables && x !in a
    requires forall w :: w in values ==> w in d[x]
    ensures r.Some? ==> Extends(a, r.value, d) && r.value.Keys <= a.Keys + Slots(cw)
    ensures r.Some? ==> Complete(cw, r.value) && Consistent(cw, r.value)
    decreases |Unassigned(cw, a)|, 0, |values|
  {
    if |values| == 0 then None
    else
      var a' := a[x := values[0]];
      TryStep(cw, d, x, values[0], a, a);
      match BacktrackUndo(cw, d, a')
      case Some(found) =>
        ExtendsTrans(cw, d, x, values[0], a, a, found);
        if Consistent(cw, found) then Some(found) else TryValuesUndo(cw, d, x, values[1..], a)
      case None => TryValuesUndo(cw, d, x, values[1..], a)
  }

  /** `s` is a solution that agrees with `a` and takes its other words from `d`. */
  ghost predicate Reachable(cw: Crossword, d: Domains, a: Assignment, s: Assignment) {
    && s.Keys == Slots(cw) && a.Keys <= Slots(cw)
    && Injective(s) && LengthsFit(s) && OverlapsAgree(cw, s)
    && (forall v :: v in a ==> s[v] == a[v])
    && (forall v :: v in s && v !in a ==> v in d && s[v] in d[v])
  }

  /** Backtracking with undo succeeds whenever a solution is reachable. */
  lemma {:induction false} BacktrackUndoComplete(cw: Crossword, d: Domains, a: Assignment, s: Assignment)
    requires Ready(cw, d) && Reachable(cw, d, a, s)
    ensures BacktrackUndo(cw, d, a).Some?
    decreases |Unassigned(cw, a)|, 1, 0
  {
    if !AssignmentComplete(cw, a) {
      var x := SelectUnassignedVariable(cw, d, a);
      var values := OrderDomainValues(cw, d, x, a);
      assert s[x] in values;
      TryValuesUndoComplete(cw, d, x, values, a, s);
    }
  }

  /** The loop finds a solution when the reachable solution's word is among those
      still to try. */
  lemma {:induction false} TryValuesUndoComplete(cw: Crossword, d: Domains, x: Variable, values: seq<string>, a: Assignment, s: Assignment)
    requires Ready(cw, d) && x in cw.variables && x !in a
    requires forall w :: w in values ==> w in d[x]
    requires Reachable(cw, d, a, s) && s[x] in values
    ensures TryValuesUndo(cw, d, x, values, a).Some?
    decreases |Unassigned(cw, a)|, 0, |values|
  {
    TryStep(cw, d, x, values[0], a, a);
    UndoUnfold(cw, d, x, values, a);
    if values[0] == s[x] {
      ReachableStep(cw, d, a, x, s);
      BacktrackUndoComplete(cw, d, a[x := s[x]], s);
    } else {
      assert s[x] in values[1..];
      TryValuesUndoComplete(cw, d, x, values[1..], a, s);
    }
  }

  /** One turn of the loop: it succeeds on the first word or goes on to the rest. */
  lemma UndoUnfold(cw: Crossword, d: Domains, x: Variable, values: seq<string>, a: Assignment)
    requires Ready(cw, d) && x in cw.variables && x !in a && |values| > 0
    requires forall w :: w in values ==> w in d[x]
    ensures var r := BacktrackUndo(cw, d, a[x := values[0]]);
      TryValuesUndo(cw, d, x, values, a).Some? <==>
        (r.Some? && Consistent(cw, r.value)) || TryValuesUndo(cw, d, x, values[1..], a).Some?
  {
  }

  /** Giving `x` its word from the reachable solution keeps the solution reachable,
      and a success from there is consistent. */
  lemma ReachableStep(cw: Crossword, d: Domains, a: Assignment, x: Variable, s: Assignment)
    requires Ready(cw, d) && Reachable(cw, d, a, s) && x in cw.variables && x !in a
    ensures Reachable(cw, d, a[x := s[x]], s)
    ensures var r := BacktrackUndo(cw, d, a[x := s[x]]); r.Some? ==> Consistent(cw, r.value)
  {
    ReachableAssign(cw, d, a, x, s);
    if Complete(cw, a[x := s[x]]) {
      FilledIsReached(cw, d, a[x := s[x]], s);
    }
  }

  lemma ReachableAssign(cw: Crossword, d: Domains, a: Assignment, x: Variable, s: Assignment)
    requires WellFormed(cw) && Reachable(cw, d, a, s) && x in cw.variables && x !in a
    ensures Reachable(cw, d, a[x := s[x]], s)
  {
    var a' := a[x := s[x]];
    assert a'.Keys <= Slots(cw) by {
      assert x in Slots(cw);
    }
    assert forall v :: v in a' ==> s[v] == a'[v];
    assert forall v :: v in s && v !in a' ==> v in d && s[v] in d[v];
  }

  /** Once every slot has a word, the assignment is the reachable solution. */
  lemma FilledIsReached(cw: Crossword, d: Domains, a: Assignment, s: Assignment)
    requires WellFormed(cw) && Reachable(cw, d, a, s) && Complete(cw, a)
    ensures a == s
  {
    assert a.Keys == s.Keys;
  }

  /** `solve` over the search with undo. */
  function SolveUndo(cw: Crossword): (r: Option<Assignment>)
    requires WellFormed(cw)
    ensures r.Some? ==> IsSolution(cw, r.value)
  {
    var d := Propagated(cw);
    match BacktrackUndo(cw, d, map[])
    case None => None
    case Some(a) =>
      UndoFoundIsSolution(cw, d, a);
      Some(a)
  }

  /** A success of the search with undo from the empty assignment is a solution. */
  lemma UndoFoundIsSolution(cw: Crossword, d: Domains, a: Assignment)
    requires Ready(cw, d)
    requires BacktrackUndo(cw, d, map[]) == Some(a)
    ensures IsSolution(cw, a)
  {
    assert a.Keys == Slots(cw);
    if Complete(cw, map[]) {
      assert a == map[];
    }
  }

  /** The solver with undo finds a solution whenever the crossword has one: node
      consistency and AC-3 keep every solution's words, and the search then reaches
      it. */
  lemma SolveUndoComplete(cw: Crossword, s: Assignment)
    requires WellFormed(cw) && IsSolution(cw, s)
    ensures SolveUndo(cw).Some?
  {
    var d := Propagated(cw);
    PropagatedAdmits(cw, s);
    SolutionReachable(cw, d, s);
    BacktrackUndoComplete(cw, d, map[], s);
  }

  /** Node consistency and AC-3 keep every word of a solution. */
  lemma PropagatedAdmits(cw: Crossword, s: Assignment)
    requires WellFormed(cw) && IsSolution(cw, s)
    ensures Admits(Propagated(cw), s)
  {
    var d0 := EnforceNodeConsistency(InitialDomains(cw));
    assert Admits(d0, s);
  }

  /** A solution the domains admit is reachable from the empty assignment. */
  lemma SolutionReachable(cw: Crossword, d: Domains, s: Assignment)
    requires Ready(cw, d) && IsSolution(cw, s) && Admits(d, s)
    ensures Reachable(cw, d, map[], s)
  {
    SolutionIsConsistent(cw, s);
  }

  // Single steps of the search as written, for following it on a concrete crossword.

  /** On a partial assignment the search tries the chosen slot's ordered words. */
  lemma BacktrackUnfold(cw: Crossword, d: Domains, a: Assignment, x: Variable, values: seq<string>)
    requires Ready(cw, d) && !Complete(cw, a)
    requires x == SelectUnassignedVariable(cw, d, a)
    requires values == OrderDomainValues(cw, d, x, a)
    ensures Backtrack(cw, d, a) == TryValues(cw, d, x, values, a, a)
  {
  }

  /** What the search below a word for `x` leaves behind still extends `base`. */
  lemma AfterExtends(cw: Crossword, d: Domains, x: Variable, w: string, base: Assignment, a: Assignment)
    requires Ready(cw, d) && x in cw.variables && x !in base && w in d[x]
    requires Extends(base, a, d) && a.Keys <= base.Keys + Slots(cw)
    ensures var after := Backtrack(cw, d, a[x := w]).1;
      Extends(base, after, d) && after.Keys <= base.Keys + Slots(cw)
  {
    TryStep(cw, d, x, w, base, a);
    ExtendsTrans(cw, d, x, w, base, a, Backtrack(cw, d, a[x := w]).1);
  }

  /** A word whose search fails, or succeeds with an inconsistent assignment,
      hands whatever that search left behind to the next word. */
  lemma TryNext(cw: Crossword, d: Domains, x: Variable, values: seq<string>, base: Assignment, a: Assignment, after: Assignment)
    requires Ready(cw, d) && x in cw.variables && x !in base && |values| > 0
    requires forall w :: w in values ==> w in d[x]
    requires Extends(base, a, d) && a.Keys <= base.Keys + Slots(cw)
    requires Extends(base, after, d) && after.Keys <= base.Keys + Slots(cw)
    requires Backtrack(cw, d, a[x := values[0]]).1 == after
    requires !Backtrack(cw, d, a[x := values[0]]).0 || !Consistent(cw, after)
    ensures TryValues(cw, d, x, values, base, a) == TryValues(cw, d, x, values[1..], base, after)
  {
  }

  /** With no word left the loop ends with the assignment it was handed. */
  lemma TryEmpty(cw: Crossword, d: Domains, x: Variable, base: Assignment, a: Assignment)
    requires Ready(cw, d) && x in cw.variables && x !in base
    requires Extends(base, a, d) && a.Keys <= base.Keys + Slots(cw)
    ensures TryValues(cw, d, x, [], base, a) == (false, a)
  {
  }

  // A small crossword on which the search as written gives up too early.

  function V1(): Variable { Variable(0, 0, Across, 2) }
  function V2(): Variable { Variable(1, 0, Across, 2) }
  function V3(): Variable { Variable(2, 0, Across, 2) }

  /** Three parallel two-letter slots that share no cell, and the pool aa, bb, cc. */
  function Parallel(): Crossword {
    var vs := [V1(), V2(), V3()];
    Crossword(vs, ["aa", "bb", "cc"],
              map x, y | x in vs && y in vs && x != y :: (x, y) := None)
  }

  /** The domains v1: {aa, bb}, v2: {aa, cc}, v3: {aa, cc}, given to the search
      directly: node consistency and AC-3 on `Parallel` would leave every slot the
      whole pool. */
  function Narrowed(): Domains {
    map[V1() := {"aa", "bb"}, V2() := {"aa", "cc"}, V3() := {"aa", "cc"}]
  }

  /** The solution v1 = bb, v2 = aa, v3 = cc, within those domains. */
  function Witness(): Assignment {
    map[V1() := "bb", V2() := "aa", V3() := "cc"]
  }

  /** A crossword whose table holds every pair of distinct slots and no crossing. */
  ghost predicate NoCrossings(cw: Crossword) {
    && NoDup(cw.variables)
    && NoDup(cw.words)
    && (forall x, y :: x in cw.variables && y in cw.variables && x != y ==> (x, y) in cw.overlaps)
    && (forall p :: p in cw.overlaps ==>
          p.0 in cw.variables && p.1 in cw.variables && p.0 != p.1 && cw.overlaps[p] == None)
  }

  /** Such a table is well formed, and no slot has a neighbour. */
  lemma NoCrossingsWellFormed(cw: Crossword)
    requires NoCrossings(cw)
    ensures WellFormed(cw)
    ensures forall x, y :: Overlap(cw, x, y) == None
    ensures forall v :: Neighbors(cw, v) == {}
  {
    forall v ensures Neighbors(cw, v) == {} {
      assert forall u :: Overlap(cw, u, v) == None;
    }
  }

  lemma ParallelNoDup()
    ensures NoDup(Parallel().variables) && NoDup(Parallel().words)
  {
  }

  lemma ParallelTable()
    ensures var cw := Parallel();
      forall x, y :: x in cw.variables && y in cw.variables && x != y ==> (x, y) in cw.overlaps
    ensures var cw := Parallel();
      forall p :: p in cw.overlaps ==>
        p.0 in cw.variables && p.1 in cw.variables && p.0 != p.1 && cw.overlaps[p] == None
  {
  }

  lemma ParallelSlots()
    ensures Slots(Parallel()) == {V1(), V2(), V3()}
  {
    var vs := Parallel().variables;
    assert V1() in vs && V2() in vs && V3() in vs;
  }

  lemma NarrowedFits()
    ensures Narrowed().Keys == {V1(), V2(), V3()}
    ensures NodeConsistent(Narrowed())
    ensures forall v, w :: v in Narrowed() && w in Narrowed()[v] ==> w in Parallel().words
  {
    var d := Narrowed();
    assert forall v :: v in d ==> v.length == 2;
    assert forall v, w :: v in d && w in d[v] ==> w == "aa" || w == "bb" || w == "cc";
  }

  /** What the steps below use of the instance, stated so that the crossword need
      not be unfolded again. */
  ghost predicate Shaped(cw: Crossword, d: Domains) {
    && Ready(cw, d)
    && cw.variables == [V1(), V2(), V3()]
    && Slots(cw) == {V1(), V2(), V3()}
    && cw.words == ["aa", "bb", "cc"]
    && (forall x, y :: Overlap(cw, x, y) == None)
    && (forall v :: Neighbors(cw, v) == {})
    && d == Narrowed()
  }

  lemma ParallelShaped()
    ensures Shaped(Parallel(), Narrowed())
  {
    ParallelNoDup();
    ParallelTable();
    NoCrossingsWellFormed(Parallel());
    ParallelSlots();
    NarrowedFits();
  }

  /** Every slot has two words and no neighbours, so none is better than another
      and the first open slot is picked. */
  lemma ShapedSelect(cw: Crossword, d: Domains, a: Assignment)
    requires Shaped(cw, d) && !Complete(cw, a)
    ensures var r := SelectUnassignedVariable(cw, d, a);
      && (V1() !in a ==> r == V1())
      && (V1() in a && V2() !in a ==> r == V2())
      && (V1() in a && V2() in a ==> r == V3())
  {
    NoneBetter(cw, d);
    FirstOpen(cw, d, a);
  }

  /** When no slot is better than another, the first open slot is picked. */
  lemma FirstOpen(cw: Crossword, d: Domains, a: Assignment)
    requires cw.variables == [V1(), V2(), V3()] && !Complete(cw, a)
    requires forall v :: v in cw.variables ==> v in d
    requires forall u, v :: u in cw.variables && v in cw.variables ==> !Better(cw, d, u, v)
    ensures var r := SelectUnassignedVariable(cw, d, a);
      && (V1() !in a ==> r == V1())
      && (V1() in a && V2() !in a ==> r == V2())
      && (V1() in a && V2() in a ==> r == V3())
  {
    var vs := cw.variables;
    var r := SelectUnassignedVariable(cw, d, a);
    var k :| 0 <= k < |vs| && vs[k] == r && BeatsPrefix(cw, d, a, vs, r, k);
    assert vs[0] == V1() && vs[1] == V2() && vs[2] == V3();
    forall i | 0 <= i < k ensures vs[i] in a {
      assert !Better(cw, d, r, vs[i]);
    }
  }

  /** Every slot has two words and no neighbours. */
  lemma NoneBetter(cw: Crossword, d: Domains)
    requires Shaped(cw, d)
    ensures forall u, v :: u in cw.variables && v in cw.variables ==> !Better(cw, d, u, v)
  {
    assert |{"aa", "bb"}| == 2 && |{"aa", "cc"}| == 2;
    forall u, v | u in cw.variables && v in cw.variables ensures !Better(cw, d, u, v) {
      assert |d[u]| == 2 && |d[v]| == 2;
      assert Degree(cw, u) == 0 && Degree(cw, v) == 0;
    }
  }

  /** With no neighbours, every slot's words come in pool order. */
  lemma ShapedOrder(cw: Crossword, d: Domains, x: Variable, a: Assignment)
    requires Shaped(cw, d) && x in cw.variables
    ensures OrderDomainValues(cw, d, x, a) == EnumerateFrom(["aa", "bb", "cc"], d[x])
  {
    assert OpenNeighbors(cw, x, a) == {};
  }

  /** The narrowed domains listed in pool order. */
  lemma NarrowedOrder()
    ensures EnumerateFrom(["aa", "bb", "cc"], Narrowed()[V1()]) == ["aa", "bb"]
    ensures EnumerateFrom(["aa", "bb", "cc"], Narrowed()[V2()]) == ["aa", "cc"]
    ensures EnumerateFrom(["aa", "bb", "cc"], Narrowed()[V3()]) == ["aa", "cc"]
  {
    EnumerateThree("aa", "bb", "cc", {"aa", "bb"});
    EnumerateThree("aa", "bb", "cc", {"aa", "cc"});
  }

  /** Listing a set's words in the order of a three-word pool. */
  lemma EnumerateThree(p: string, q: string, r: string, s: set<string>)
    ensures EnumerateFrom([p, q, r], s)
      == (if p in s then [p] else []) + (if q in s then [q] else []) + (if r in s then [r] else [])
  {
    var a, b, c := (if p in s then [p] else []), (if q in s then [q] else []), (if r in s then [r] else []);
    EnumerateStep([r], s);
    assert [r][1..] == [];
    EnumerateStep([q, r], s);
    assert [q, r][1..] == [r];
    EnumerateStep([p, q, r], s);
    assert [p, q, r][1..] == [q, r];
    assert a + (b + (c + [])) == a + b + c;
  }

  /** One turn of the listing: the pool's first word when the set holds it, then
      the rest. */
  lemma EnumerateStep(pool: seq<string>, s: set<string>)
    requires |pool| > 0
    ensures EnumerateFrom(pool, s) == (if pool[0] in s then [pool[0]] else []) + EnumerateFrom(pool[1..], s)
  {
  }

  /** Writing a key twice keeps the second value. */
  lemma Overwrite(m: Assignment, k: Variable, v: string, w: string)
    ensures m[k := v][k := w] == m[k := w]
  {
  }

  /** The search as written, from the empty assignment, fails on `Narrowed`, while
      `Witness` is a solution inside those domains and the search with undo finds
      one. The slot order v1, v2, v3 and the word order aa, bb, cc are one possible
      set iteration order. */
  lemma BacktrackGivesUpTooEarly()
    ensures Ready(Parallel(), Narrowed())
    ensures IsSolution(Parallel(), Witness())
    ensures forall v :: v in Witness() ==> Witness()[v] in Narrowed()[v]
    ensures !Backtrack(Parallel(), Narrowed(), map[]).0
    ensures BacktrackUndo(Parallel(), Narrowed(), map[]).Some?
  {
    ParallelShaped();
    var cw, d := Parallel(), Narrowed();
    WitnessSolution(cw, d);
    WitnessReachable(cw, d);
    BacktrackUndoComplete(cw, d, map[], Witness());
    ShapedFails(cw, d);
  }

  /** `Witness` fills the three slots with distinct two-letter pool words taken
      from the narrowed domains. */
  lemma WitnessWords()
    ensures Witness().Keys == {V1(), V2(), V3()}
    ensures Injective(Witness()) && LengthsFit(Witness())
    ensures forall v :: v in Witness() ==> Witness()[v] in ["aa", "bb", "cc"]
    ensures forall v :: v in Witness() ==> Witness()[v] in Narrowed()[v]
  {
    var s := Witness();
    assert s.Keys == {V1(), V2(), V3()};
  }

  /** `Witness` solves the crossword with words from the narrowed domains. */
  lemma WitnessSolution(cw: Crossword, d: Domains)
    requires Shaped(cw, d)
    ensures IsSolution(cw, Witness())
    ensures forall v :: v in Witness() ==> Witness()[v] in d[v]
  {
    WitnessWords();
  }

  lemma WitnessReachable(cw: Crossword, d: Domains)
    requires Shaped(cw, d)
    ensures Reachable(cw, d, map[], Witness())
  {
    WitnessSolution(cw, d);
    SolutionIsConsistent(cw, Witness());
  }

  /** Two slots holding the same word make an assignment inconsistent. */
  lemma Repeats(cw: Crossword, a: Assignment, x: Variable, y: Variable)
    requires WellFormed(cw)
    requires x in a && y in a && x != y && a[x] == a[y]
    ensures !Consistent(cw, a)
  {
  }

  /** A full assignment of the instance: the search returns it unchanged. */
  lemma ShapedFull(cw: Crossword, d: Domains, a: Assignment)
    requires Shaped(cw, d) && V1() in a && V2() in a && V3() in a
    ensures Backtrack(cw, d, a) == (true, a)
  {
    assert Complete(cw, a);
  }

  /** The assignments the search passes through, written both ways. */
  lemma Updates()
    ensures map[V1() := "aa"][V2() := "aa"] == map[V1() := "aa", V2() := "aa"]
    ensures map[V1() := "aa", V2() := "aa"][V3() := "cc"] == map[V1() := "aa", V2() := "aa", V3() := "cc"]
    ensures map[V1() := "aa", V2() := "aa", V3() := "cc"][V2() := "cc"]
      == map[V1() := "aa", V2() := "cc", V3() := "cc"]
  {
  }

  /** The first step on a partial assignment of the instance: the first open slot
      and its two words in pool order. */
  lemma ShapedStart(cw: Crossword, d: Domains, a: Assignment, x: Variable, values: seq<string>)
    requires Shaped(cw, d) && !Complete(cw, a)
    requires x == (if V1() !in a then V1() else if V2() !in a then V2() else V3())
    requires values == (if x == V1() then ["aa", "bb"] else ["aa", "cc"])
    ensures x in cw.variables && x !in a && values[0] in d[x]
    ensures forall w :: w in values ==> w in d[x]
    ensures Backtrack(cw, d, a) == TryValues(cw, d, x, values, a, a)
  {
    ShapedSelect(cw, d, a);
    ShapedOrder(cw, d, x, a);
    NarrowedOrder();
    BacktrackUnfold(cw, d, a, x, values);
  }

  /** With v1 = aa and v2 = aa, slot v3 tries aa and then cc; both fill the grid
      with a repeated word, and cc is left in place. */
  lemma StepV3(cw: Crossword, d: Domains)
    requires Shaped(cw, d)
    ensures Backtrack(cw, d, map[V1() := "aa", V2() := "aa"])
      == (false, map[V1() := "aa", V2() := "aa", V3() := "cc"])
  {
    var a := map[V1() := "aa", V2() := "aa"];
    var f1 := a[V3() := "aa"];
    var f2 := a[V3() := "cc"];
    var values := ["aa", "cc"];
    assert !Complete(cw, a) by {
      assert V3() in cw.variables && V3() !in a;
    }
    ShapedStart(cw, d, a, V3(), values);
    ShapedFull(cw, d, f1);
    Repeats(cw, f1, V1(), V2());
    AfterExtends(cw, d, V3(), "aa", a, a);
    TryNext(cw, d, V3(), values, a, a, f1);
    assert values[1..] == ["cc"];
    Overwrite(a, V3(), "aa", "cc");
    ShapedFull(cw, d, f2);
    Repeats(cw, f2, V1(), V2());
    AfterExtends(cw, d, V3(), "cc", a, f1);
    TryNext(cw, d, V3(), ["cc"], a, f1, f2);
    assert ["cc"][1..] == [];
    TryEmpty(cw, d, V3(), a, f2);
    Updates();
  }

  /** With v1 = aa, slot v2 tries aa (which fails below it) and then cc on top of
      what that left; cc then appears twice. */
  lemma StepV2(cw: Crossword, d: Domains)
    requires Shaped(cw, d)
    ensures Backtrack(cw, d, map[V1() := "aa"])
      == (false, map[V1() := "aa", V2() := "cc", V3() := "cc"])
  {
    var a := map[V1() := "aa"];
    var f2 := map[V1() := "aa", V2() := "aa", V3() := "cc"];
    var f3 := f2[V2() := "cc"];
    var values := ["aa", "cc"];
    assert !Complete(cw, a) by {
      assert V2() in cw.variables && V2() !in a;
    }
    ShapedStart(cw, d, a, V2(), values);
    Updates();
    StepV3(cw, d);
    AfterExtends(cw, d, V2(), "aa", a, a);
    TryNext(cw, d, V2(), values, a, a, f2);
    assert values[1..] == ["cc"];
    ShapedFull(cw, d, f3);
    Repeats(cw, f3, V2(), V3());
    AfterExtends(cw, d, V2(), "cc", a, f2);
    TryNext(cw, d, V2(), ["cc"], a, f2, f3);
    assert ["cc"][1..] == [];
    TryEmpty(cw, d, V2(), a, f3);
    Updates();
  }

  /** From nothing, slot v1 tries aa (which fails below it) and then bb on top of
      what that left; cc still appears twice, and the search gives up. */
  lemma ShapedFails(cw: Crossword, d: Domains)
    requires Shaped(cw, d)
    ensures !Backtrack(cw, d, map[]).0
  {
    var a: Assignment := map[];
    var f3 := map[V1() := "aa", V2() := "cc", V3() := "cc"];
    var f4 := f3[V1() := "bb"];
    var values := ["aa", "bb"];
    assert !Complete(cw, a) by {
      assert V1() in cw.variables;
    }
    ShapedStart(cw, d, a, V1(), values);
    assert a[V1() := "aa"] == map[V1() := "aa"];
    StepV2(cw, d);
    AfterExtends(cw, d, V1(), "aa", a, a);
    TryNext(cw, d, V1(), values, a, a, f3);
    assert values[1..] == ["bb"];
    ShapedFull(cw, d, f4);
    Repeats(cw, f4, V2(), V3());
    AfterExtends(cw, d, V1(), "bb", a, f3);
    TryNext(cw, d, V1(), ["bb"], a, f3, f4);
    assert ["bb"][1..] == [];
    TryEmpty(cw, d, V1(), a, f4);
  }
}
