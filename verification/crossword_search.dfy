/**
 * The backtracking search of the crossword solver as the source writes it:
 * completeness and consistency checks, the minimum-remaining-values variable
 * choice, the least-constraining-value ordering, `backtrack` and `solve`.
 *
 * The source's `backtrack` writes each tentative word into the one assignment
 * dictionary shared by the whole search and never takes it out again, so a
 * call hands its caller back whatever the deeper calls left in it. The model
 * returns that dictionary alongside the success flag.
 */
module Search {
  import opened Wrappers
  import opened CrosswordModel
  import opened Consistency
  import KeySort

  /** `assignment_complete`: scan the slots for one without a word. */
  function AssignmentComplete(cw: Crossword, a: Assignment): (r: bool)
    ensures r <==> Complete(cw, a)
  {
    AllAssigned(cw.variables, a)
  }

  function AllAssigned(vars: seq<Variable>, a: Assignment): (r: bool)
    ensures r <==> forall v :: v in vars ==> v in a
    decreases |vars|
  {
    if |vars| == 0 then true
    else
      assert forall v :: v in vars <==> v == vars[0] || v in vars[1..];
      vars[0] in a && AllAssigned(vars[1..], a)
  }

  /** A map has as many distinct values as keys exactly when no two keys share a
      value. */
  lemma {:induction false} ValuesCount(a: Assignment)
    ensures |a.Values| <= |a.Keys|
    ensures |a.Values| == |a.Keys| <==> Injective(a)
    decreases |a|
  {
    if |a| > 0 {
      var k :| k in a;
      var a' := a - {k};
      ValuesCount(a');
      assert a.Keys == a'.Keys + {k};
      assert |a.Keys| == |a'.Keys| + 1;
      if k2 :| k2 in a' && a'[k2] == a[k] {
        assert a.Values == a'.Values;
        assert !Injective(a);
      } else {
        assert a.Values == a'.Values + {a[k]};
        assert a[k] !in a'.Values;
        assert Injective(a') ==> Injective(a);
      }
    }
  }

  /** `consistent`: as many distinct words as slots, every word of its slot's
      length, and every assigned neighbour agreeing at the shared cell. */
  function Consistent(cw: Crossword, a: Assignment): (r: bool)
    requires WellFormed(cw)
    ensures r <==> Injective(a) && LengthsFit(a) && OverlapsAgree(cw, a)
  {
    ValuesCount(a);
    NeighborsAgree(cw, a);
    && |a.Values| == |a.Keys|
    && (forall v :: v in a ==> v.length == |a[v]|)
    && (forall v, n :: v in a && n in Neighbors(cw, v) && n in a ==>
          Agree(a[v], a[n], cw.overlaps[(v, n)].value))
  }

  /** Checking each slot against its neighbours covers every overlapping pair. */
  lemma NeighborsAgree(cw: Crossword, a: Assignment)
    requires WellFormed(cw)
    ensures (forall v, n :: v in a && n in Neighbors(cw, v) && n in a ==>
               (v, n) in cw.overlaps && cw.overlaps[(v, n)].Some?)
    ensures (forall v, n :: v in a && n in Neighbors(cw, v) && n in a ==>
               Agree(a[v], a[n], cw.overlaps[(v, n)].value)) <==> OverlapsAgree(cw, a)
  {
    forall v, n | v in a && n in a ensures n in Neighbors(cw, v) <==> Overlap(cw, v, n).Some? {
      NeighborsSymmetric(cw, v, n);
    }
  }

  /** Part of a consistent assignment is consistent. */
  lemma ConsistentRestrict(cw: Crossword, a: Assignment, b: Assignment)
    requires WellFormed(cw) && Consistent(cw, a)
    requires forall v :: v in b ==> v in a && b[v] == a[v]
    ensures Consistent(cw, b)
  {
  }

  /** A solution is a complete, consistent assignment of pool words to exactly the
      slots. */
  lemma SolutionIsConsistent(cw: Crossword, a: Assignment)
    requires WellFormed(cw)
    ensures IsSolution(cw, a) <==>
      a.Keys == Slots(cw) && (forall v :: v in a ==> a[v] in cw.words) && Consistent(cw, a)
  {
  }

  /** The slots still without a word. */
  function Unassigned(cw: Crossword, a: Assignment): (r: set<Variable>)
    ensures forall v :: v in r <==> v in cw.variables && v !in a
  {
    set v | v in cw.variables && v !in a
  }

  /** The sort key of `select_unassigned_variable`: fewer remaining words first,
      then more neighbours. */
  predicate Better(cw: Crossword, d: Domains, u: Variable, v: Variable)
    requires u in d && v in d
  {
    |d[u]| < |d[v]| || (|d[u]| == |d[v]| && Degree(cw, u) > Degree(cw, v))
  }

  /** No unassigned slot before position `k` of `vars` is as good as `x`. */
  predicate FirstBest(cw: Crossword, d: Domains, a: Assignment, vars: seq<Variable>, x: Variable)
    requires x in d && forall v :: v in vars ==> v in d
  {
    exists k :: 0 <= k < |vars| && vars[k] == x && BeatsPrefix(cw, d, a, vars, x, k)
  }

  predicate BeatsPrefix(cw: Crossword, d: Domains, a: Assignment, vars: seq<Variable>, x: Variable, k: int)
    requires x in d && forall v :: v in vars ==> v in d
    requires 0 <= k <= |vars|
  {
    forall i :: 0 <= i < k && vars[i] !in a ==> Better(cw, d, x, vars[i])
  }

  /** The first of the best unassigned slots of `vars`: what taking element 0 of
      the stably sorted list gives. */
  function SelectFrom(cw: Crossword, d: Domains, a: Assignment, vars: seq<Variable>): (r: Option<Variable>)
    requires forall v :: v in vars ==> v in d
    ensures r.None? <==> forall v :: v in vars ==> v in a
    ensures r.Some? ==> r.value in vars && r.value !in a
    ensures r.Some? ==> forall v :: v in vars && v !in a ==> !Better(cw, d, v, r.value)
    ensures r.Some? ==> FirstBest(cw, d, a, vars, r.value)
    decreases |vars|
  {
    if |vars| == 0 then None
    else
      var v := vars[0];
      var rest := SelectFrom(cw, d, a, vars[1..]);
      assert forall u :: u in vars <==> u == v || u in vars[1..];
      if v in a then
        assert rest.Some? ==> FirstBest(cw, d, a, vars, rest.value) by {
          if rest.Some? {
            ShiftFirstBest(cw, d, a, vars, rest.value);
          }
        }
        rest
      else if rest.Some? && Better(cw, d, rest.value, v) then
        ShiftFirstBest(cw, d, a, vars, rest.value);
        rest
      else
        assert BeatsPrefix(cw, d, a, vars, v, 0);
        Some(v)
  }

  /** A first best slot of `vars[1..]` is a first best slot of `vars` when it beats
      `vars[0]` or `vars[0]` is assigned. */
  lemma ShiftFirstBest(cw: Crossword, d: Domains, a: Assignment, vars: seq<Variable>, x: Variable)
    requires |vars| > 0 && x in d && forall v :: v in vars ==> v in d
    requires FirstBest(cw, d, a, vars[1..], x)
    requires vars[0] in a || Better(cw, d, x, vars[0])
    ensures FirstBest(cw, d, a, vars, x)
  {
    var k :| 0 <= k < |vars[1..]| && vars[1..][k] == x && BeatsPrefix(cw, d, a, vars[1..], x, k);
    assert vars[k + 1] == x;
    forall i | 0 <= i < k + 1 && vars[i] !in a ensures Better(cw, d, x, vars[i]) {
      if i > 0 {
        assert vars[i] == vars[1..][i - 1];
      }
    }
    assert BeatsPrefix(cw, d, a, vars, x, k + 1);
  }

  /** `select_unassigned_variable`: an unassigned slot with the fewest remaining
      words, ties going to the most neighbours and then to the earliest slot. The
      source indexes the sorted list, so some slot must be unassigned. */
  function SelectUnassignedVariable(cw: Crossword, d: Domains, a: Assignment): (r: Variable)
    requires forall v :: v in cw.variables ==> v in d
    requires !Complete(cw, a)
    ensures r in cw.variables && r !in a
    ensures forall v :: v in cw.variables && v !in a ==> !Better(cw, d, v, r)
    ensures FirstBest(cw, d, a, cw.variables, r)
  {
    SelectFrom(cw, d, a, cw.variables).value
  }

  /** The neighbours of `x` still without a word. */
  function OpenNeighbors(cw: Crossword, x: Variable, a: Assignment): (r: set<Variable>)
    ensures forall v :: v in r <==> v in Neighbors(cw, x) && v !in a
  {
    Neighbors(cw, x) - a.Keys
  }

  /** The words of `n`'s domain that `w` in `x` would rule out. */
  function RuledOut(cw: Crossword, d: Domains, x: Variable, n: Variable, w: string): (r: set<string>)
    requires n in d
    ensures r <= d[n]
    ensures forall v :: v in r <==> v in d[n] && Overlap(cw, x, n).Some? && !Agree(w, v, Overlap(cw, x, n).value)
  {
    match Overlap(cw, x, n)
    case None => {}
    case Some(o) => set v | v in d[n] && !Agree(w, v, o)
  }

  /** The least-constraining-value heuristic of `w` for `x`: how many words it rules
      out across the domains of the slots `ns` among `open`. */
  function Constraining(cw: Crossword, d: Domains, x: Variable, ns: seq<Variable>, open: set<Variable>, w: string): (r: nat)
    requires forall n :: n in open ==> n in d
    ensures r == 0 <==> forall n :: n in ns && n in open ==> RuledOut(cw, d, x, n, w) == {}
    decreases |ns|
  {
    if |ns| == 0 then 0
    else
      assert forall v :: v in ns <==> v == ns[0] || v in ns[1..];
      (if ns[0] in open then |RuledOut(cw, d, x, ns[0], w)| else 0)
        + Constraining(cw, d, x, ns[1..], open, w)
  }

  /** The heuristic of every word of x's domain: the source's `ordered_vars`. */
  function Heuristics(cw: Crossword, d: Domains, x: Variable, a: Assignment): (r: map<string, int>)
    requires x in d && forall n :: n in Neighbors(cw, x) ==> n in d
    ensures r.Keys == d[x]
  {
    var open := OpenNeighbors(cw, x, a);
    map w | w in d[x] :: Constraining(cw, d, x, cw.variables, open, w)
  }

  /** `order_domain_values`: x's words, in pool order when no neighbour is open,
      and otherwise sorted by how many words they rule out for the open
      neighbours, fewest first. */
  function OrderDomainValues(cw: Crossword, d: Domains, x: Variable, a: Assignment): (r: seq<string>)
    requires Ready(cw, d) && x in d
    ensures forall w :: w in r <==> w in d[x]
    ensures multiset(r) == multiset(Enumerate(cw, d[x]))
    ensures NoDup(r)
    ensures OpenNeighbors(cw, x, a) == {} ==> r == Enumerate(cw, d[x])
    ensures OpenNeighbors(cw, x, a) != {} ==>
      forall i, j :: 0 <= i < j < |r| ==>
        Heuristics(cw, d, x, a)[r[i]] <= Heuristics(cw, d, x, a)[r[j]]
  {
    if OpenNeighbors(cw, x, a) == {} then Enumerate(cw, d[x])
    else LeastConstraining(cw, d, x, a)
  }

  /** x's words sorted by the heuristic, fewest ruled-out words first. */
  function LeastConstraining(cw: Crossword, d: Domains, x: Variable, a: Assignment): (r: seq<string>)
    requires Ready(cw, d) && x in d
    ensures forall w :: w in r <==> w in d[x]
    ensures multiset(r) == multiset(Enumerate(cw, d[x]))
    ensures NoDup(r)
    ensures forall i, j :: 0 <= i < j < |r| ==>
      Heuristics(cw, d, x, a)[r[i]] <= Heuristics(cw, d, x, a)[r[j]]
  {
    var words := Enumerate(cw, d[x]);
    var key := Heuristics(cw, d, x, a);
    var r := KeySort.Sort(words, key);
    NoDupMultiset(words);
    NoDupMultiset(r);
    assert forall w :: w in r <==> w in multiset(r);
    r
  }

  /** A sequence has no duplicates exactly when each element occurs once. */
  lemma {:induction false} NoDupMultiset(s: seq<string>)
    ensures NoDup(s) <==> forall w :: w in s ==> multiset(s)[w] == 1
    decreases |s|
  {
    if |s| > 0 {
      NoDupMultiset(s[1..]);
      assert s == [s[0]] + s[1..];
      assert forall w :: w in s <==> w == s[0] || w in s[1..];
      if NoDup(s) {
        assert s[0] !in s[1..];
      } else {
        var i, j :| 0 <= i < j < |s| && s[i] == s[j];
        if i == 0 {
          assert s[j] in s[1..];
        } else {
          assert !NoDup(s[1..]) by {
            assert s[1..][i - 1] == s[1..][j - 1];
          }
        }
      }
    }
  }

  /** `b` keeps every word of `a` and gives each new slot a word of its domain. */
  predicate Extends(a: Assignment, b: Assignment, d: Domains) {
    && (forall v :: v in a ==> v in b && b[v] == a[v])
    && (forall v :: v in b && v !in a ==> v in d && b[v] in d[v])
  }

  /** A strictly smaller set has fewer elements. */
  lemma SmallerSet<T>(s: set<T>, t: set<T>)
    requires s < t
    ensures |s| < |t|
  {
    assert t == s + (t - s);
    assert s * (t - s) == {};
  }

  /** `backtrack` as written. On a complete assignment it succeeds with that
      assignment; otherwise it picks a slot and tries its ordered words, leaving
      each one in the shared assignment. A success found below a partial
      assignment is complete and consistent. */
  function Backtrack(cw: Crossword, d: Domains, a: Assignment): (r: (bool, Assignment))
    requires Ready(cw, d)
    ensures Extends(a, r.1, d)
    ensures r.1.Keys <= a.Keys + Slots(cw)
    ensures r.0 ==> Complete(cw, r.1)
    ensures r.0 && !Complete(cw, a) ==> Consistent(cw, r.1)
    decreases |Unassigned(cw, a)|, 1, 0
  {
    if AssignmentComplete(cw, a) then (true, a)
    else
      var x := SelectUnassignedVariable(cw, d, a);
      var values := OrderDomainValues(cw, d, x, a);
      TryValues(cw, d, x, values, a, a)
  }

  /** The loop of `backtrack` over x's ordered words, starting from assignment `a`
      that already extends the caller's `base`. Each word is written into the
      assignment, the search recurses, and the next word starts from whatever the
      recursion left behind. */
  function TryValues(cw: Crossword, d: Domains, x: Variable, values: seq<string>,
                     base: Assignment, a: Assignment): (r: (bool, Assignment))
    requires Ready(cw, d) && x in cw.variables && x !in base
    requires forall w :: w in values ==> w in d[x]
    requires Extends(base, a, d) && a.Keys <= base.Keys + Slots(cw)
    ensures Extends(base, r.1, d)
    ensures r.1.Keys <= base.Keys + Slots(cw)
    ensures r.0 ==> Complete(cw, r.1) && Consistent(cw, r.1)
    decreases |Unassigned(cw, base)|, 0, |values|
  {
    if |values| == 0 then (false, a)
    else
      var a' := a[x := values[0]];
      TryStep(cw, d, x, values[0], base, a);
      var (found, after) := Backtrack(cw, d, a');
      ExtendsTrans(cw, d, x, values[0], base, a, after);
      if found && Consistent(cw, after) then (true, after)
      else TryValues(cw, d, x, values[1..], base, after)
  }

  /** Writing a word for `x` into an assignment that extends `base` leaves fewer
      slots open than `base` has and still extends `base`. */
  lemma TryStep(cw: Crossword, d: Domains, x: Variable, w: string, base: Assignment, a: Assignment)
    requires Ready(cw, d) && x in cw.variables && x !in base && w in d[x]
    requires Extends(base, a, d) && a.Keys <= base.Keys + Slots(cw)
    ensures |Unassigned(cw, a[x := w])| < |Unassigned(cw, base)|
    ensures Extends(base, a[x := w], d) && a[x := w].Keys <= base.Keys + Slots(cw)
  {
    assert Unassigned(cw, a[x := w]) < Unassigned(cw, base) by {
      assert x in Unassigned(cw, base) && x !in Unassigned(cw, a[x := w]);
    }
    SmallerSet(Unassigned(cw, a[x := w]), Unassigned(cw, base));
  }

  /** What the search leaves behind below `a[x := w]` still extends `base`. */
  lemma ExtendsTrans(cw: Crossword, d: Domains, x: Variable, w: string, base: Assignment, a: Assignment, after: Assignment)
    requires x !in base && x in d && w in d[x]
    requires Extends(base, a, d) && Extends(a[x := w], after, d)
    ensures Extends(base, after, d)
  {
  }

  /** `solve`: start from the whole pool, enforce node consistency, run AC-3 and
      ignore its verdict, then search from the empty assignment. Whatever it
      returns is a solution. */
  function Solve(cw: Crossword): (r: Option<Assignment>)
    requires WellFormed(cw)
    ensures r.Some? ==> IsSolution(cw, r.value)
  {
    var d := Propagated(cw);
    var (found, a) := Backtrack(cw, d, map[]);
    if found then
      FoundIsSolution(cw, d, a);
      Some(a)
    else None
  }

  /** A success of the search from the empty assignment is a solution. */
  lemma FoundIsSolution(cw: Crossword, d: Domains, a: Assignment)
    requires Ready(cw, d)
    requires Backtrack(cw, d, map[]) == (true, a)
    ensures IsSolution(cw, a)
  {
    assert a.Keys == Slots(cw);
    if Complete(cw, map[]) {
      assert a == map[];
    }
  }

  /** The domains `solve` hands to the search. */
  function Propagated(cw: Crossword): (d: Domains)
    requires WellFormed(cw)
    ensures Ready(cw, d)
  {
    AC3Checked(cw, EnforceNodeConsistency(InitialDomains(cw)), None).1
  }

  /** A slot left with no words makes the search fail: the variable choice takes
      a slot with the fewest words, so it takes one with none, and there is no
      word to try. */
  lemma EmptyDomainFails(cw: Crossword, d: Domains, a: Assignment, v: Variable)
    requires Ready(cw, d) && v in cw.variables && v !in a && d[v] == {}
    ensures !Backtrack(cw, d, a).0
  {
    var x := SelectUnassignedVariable(cw, d, a);
    assert !Better(cw, d, v, x);
    assert d[x] == {};
  }

  /** When AC-3 fails inside `solve`, the search that follows finds nothing, even
      though `solve` does not look at AC-3's verdict. */
  lemma AC3FailureMeansNoSolution(cw: Crossword)
    requires WellFormed(cw)
    requires !AC3(cw, EnforceNodeConsistency(InitialDomains(cw)), None).0
    ensures Solve(cw) == None
  {
    var d := Propagated(cw);
    var v :| v in d && d[v] == {};
    EmptyDomainFails(cw, d, map[], v);
  }
}
