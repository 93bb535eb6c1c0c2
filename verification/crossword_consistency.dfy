/**
 * Node and arc consistency for the crossword: the length filter and AC-3. The
 * domain store is a map from slot to the set of words still possible for it;
 * both procedures only ever remove words from it.
 */
module Consistency {
  import opened Wrappers
  import opened CrosswordModel

  /** The constructor's domains: every slot starts with the whole word pool. */
  function InitialDomains(cw: Crossword): (d: Domains)
    ensures d.Keys == Slots(cw)
    ensures forall v, w :: v in d ==> (w in d[v] <==> w in cw.words)
  {
    map v | v in cw.variables :: set w | w in cw.words
  }

  /** `enforce_node_consistency`: keep, for each slot, exactly the words of its
      length. The result is the largest node-consistent store inside `d`. */
  function EnforceNodeConsistency(d: Domains): (r: Domains)
    ensures r.Keys == d.Keys
    ensures NodeConsistent(r)
    ensures forall v :: v in d ==> r[v] <= d[v]
    ensures forall v, w :: v in d && w in d[v] && |w| == v.length ==> w in r[v]
  {
    map v | v in d :: set w | w in d[v] && |w| == v.length
  }

  /** A node-consistent store is left as it is. */
  lemma NodeConsistencyFixesConsistent(d: Domains)
    requires NodeConsistent(d)
    ensures EnforceNodeConsistency(d) == d
  {
    var r := EnforceNodeConsistency(d);
    forall v | v in d ensures r[v] == d[v] {
      assert forall w :: w in d[v] ==> w in r[v];
    }
  }

  /** Enforcing node consistency twice is the same as enforcing it once. */
  lemma NodeConsistencyIdempotent(d: Domains)
    ensures EnforceNodeConsistency(EnforceNodeConsistency(d)) == EnforceNodeConsistency(d)
  {
    NodeConsistencyFixesConsistent(EnforceNodeConsistency(d));
  }

  /** Every word of both domains is long enough to be read at the overlap. */
  predicate Readable(d: Domains, x: Variable, y: Variable, o: Offsets)
    requires x in d && y in d
  {
    (forall w :: w in d[x] ==> o.0 < |w|) && (forall v :: v in d[y] ==> o.1 < |v|)
  }

  /** `revise(x, y)`: drop from x's domain each word with no partner in y's domain
      at the overlap, and report whether anything was dropped. A pair without an
      overlap is left alone. The source reads the letters unguarded, so its words
      must be long enough; the table must hold the pair. */
  function Revise(cw: Crossword, d: Domains, x: Variable, y: Variable): (r: (bool, Domains))
    requires WellFormed(cw) && (x, y) in cw.overlaps
    requires cw.overlaps[(x, y)].Some? ==>
      x in d && y in d && Readable(d, x, y, cw.overlaps[(x, y)].value)
    ensures r.1.Keys == d.Keys
    ensures forall z :: z in d && z != x ==> r.1[z] == d[z]
    ensures cw.overlaps[(x, y)].None? ==> r == (false, d)
    ensures cw.overlaps[(x, y)].Some? ==>
      forall w :: w in r.1[x] <==> w in d[x] && Supported(w, d[y], cw.overlaps[(x, y)].value)
    ensures !r.0 <==> r.1 == d
    ensures x in d ==> r.1[x] <= d[x]
  {
    match cw.overlaps[(x, y)]
    case None => (false, d)
    case Some(o) =>
      var removed := Unsupported(d[x], d[y], o);
      if |removed| == 0 then (false, d)
      else
        assert d[x := d[x] - removed][x] != d[x] by {
          var w :| w in removed;
        }
        (true, d[x := d[x] - removed])
  }

  /** The words of `dx` with no partner in `dy`: `to_be_eliminated`. */
  function Unsupported(dx: set<string>, dy: set<string>, o: Offsets): (r: set<string>)
    ensures r <= dx
    ensures forall w :: w in dx ==> (w in r <==> !Supported(w, dy, o))
  {
    set w | w in dx && !Supported(w, dy, o)
  }

  /** After `revise(x, y)` the arc from x to y is consistent. */
  lemma ReviseMakesArcConsistent(cw: Crossword, d: Domains, x: Variable, y: Variable)
    requires WellFormed(cw) && (x, y) in cw.overlaps && x in d && y in d
    requires cw.overlaps[(x, y)].Some? ==> Readable(d, x, y, cw.overlaps[(x, y)].value)
    ensures ArcConsistent(cw, Revise(cw, d, x, y).1, x, y)
  {
    assert x != y;
  }

  /** `revise(x, y)` keeps the reverse arc from y to x consistent: a word of x that
      serves as a partner for some word of y itself has that partner and stays. */
  lemma ReviseKeepsReverse(cw: Crossword, d: Domains, x: Variable, y: Variable)
    requires WellFormed(cw) && (x, y) in cw.overlaps && x in d && y in d
    requires cw.overlaps[(x, y)].Some? ==> Readable(d, x, y, cw.overlaps[(x, y)].value)
    requires ArcConsistent(cw, d, y, x)
    ensures ArcConsistent(cw, Revise(cw, d, x, y).1, y, x)
  {
    var r := Revise(cw, d, x, y).1;
    assert x != y && (y, x) in cw.overlaps;
    if o :| cw.overlaps[(x, y)] == Some(o) {
      var back := (o.1, o.0);
      assert Overlap(cw, y, x) == Some(back);
      forall v | v in r[y] ensures Supported(v, r[x], back) {
        var w :| w in d[x] && Agree(v, w, back);
        assert Agree(w, v, o);
      }
    }
  }

  /** A pair of words that fits the overlap survives `revise`. */
  lemma ReviseKeepsPartners(cw: Crossword, d: Domains, x: Variable, y: Variable, wx: string, wy: string)
    requires WellFormed(cw) && (x, y) in cw.overlaps && x in d && y in d
    requires cw.overlaps[(x, y)].Some? ==> Readable(d, x, y, cw.overlaps[(x, y)].value)
    requires wx in d[x] && wy in d[y]
    requires cw.overlaps[(x, y)].Some? ==> Agree(wx, wy, cw.overlaps[(x, y)].value)
    ensures wx in Revise(cw, d, x, y).1[x]
  {
  }

  /** The number of words left across the slots `vars`. */
  function Size(vars: seq<Variable>, d: Domains): nat
    decreases |vars|
  {
    if |vars| == 0 then 0
    else (if vars[0] in d then |d[vars[0]]| else 0) + Size(vars[1..], d)
  }

  /** Shrinking one domain never grows the total and strictly lowers it when the
      slot is counted. */
  lemma {:induction false} SizeShrinks(vars: seq<Variable>, d: Domains, x: Variable, s: set<string>)
    requires x in d && s < d[x]
    ensures Size(vars, d[x := s]) <= Size(vars, d)
    ensures x in vars ==> Size(vars, d[x := s]) < Size(vars, d)
    decreases |vars|
  {
    if |vars| > 0 {
      assert x in vars ==> x == vars[0] || x in vars[1..];
      assert |s| < |d[x]| by {
        assert |d[x]| == |s| + |d[x] - s|;
        assert d[x] - s != {};
      }
      SizeShrinks(vars[1..], d, x, s);
    }
  }

  /** The arcs `(z, x)` the source queues after x's domain shrank because of y:
      one per neighbour z of x other than y, unless already queued, in slot order. */
  function NewArcs(cw: Crossword, vars: seq<Variable>, x: Variable, y: Variable, queue: seq<Arc>): (r: seq<Arc>)
    ensures forall a :: a in r <==> a.1 == x && a.0 in vars && a.0 in Neighbors(cw, x) && a.0 != y && a !in queue
    ensures NoDup(vars) ==> NoDup(r)
    decreases |vars|
  {
    if |vars| == 0 then []
    else
      var rest := NewArcs(cw, vars[1..], x, y, queue);
      var z := vars[0];
      assert forall v :: v in vars <==> v == z || v in vars[1..];
      if z in Neighbors(cw, x) && z != y && (z, x) !in queue then [(z, x)] + rest else rest
  }

  /** The arcs from `x` to each of `ys` that carry an overlap. */
  function ArcsOf(cw: Crossword, x: Variable, ys: seq<Variable>): (r: seq<Arc>)
    ensures forall a :: a in r <==> a.0 == x && a.1 in ys && (x, a.1) in cw.overlaps && cw.overlaps[(x, a.1)].Some?
    decreases |ys|
  {
    if |ys| == 0 then []
    else
      var rest := ArcsOf(cw, x, ys[1..]);
      var y := ys[0];
      assert forall v :: v in ys <==> v == y || v in ys[1..];
      if (x, y) in cw.overlaps && cw.overlaps[(x, y)].Some? then [(x, y)] + rest else rest
  }

  /** The overlapping pairs, slot by slot in the order of `xs` (the order of the
      crossword's slot list). */
  function ArcsFrom(cw: Crossword, xs: seq<Variable>): (r: seq<Arc>)
    requires WellFormed(cw)
    ensures forall a :: a in r <==> a.0 in xs && a in cw.overlaps && cw.overlaps[a].Some?
    decreases |xs|
  {
    if |xs| == 0 then []
    else
      assert forall v :: v in xs <==> v == xs[0] || v in xs[1..];
      ArcsOf(cw, xs[0], cw.variables) + ArcsFrom(cw, xs[1..])
  }

  /** The source's default queue: every arc of the table with an overlap. */
  function AllArcs(cw: Crossword): (r: seq<Arc>)
    requires WellFormed(cw)
    ensures forall a :: a in r <==> a in cw.overlaps && cw.overlaps[a].Some?
  {
    ArcsFrom(cw, cw.variables)
  }

  /** What AC-3 needs of its arguments: a well-formed table, one node-consistent
      domain per slot, and only arcs the table holds. */
  ghost predicate Workable(cw: Crossword, d: Domains, queue: seq<Arc>) {
    && WellFormed(cw)
    && d.Keys == Slots(cw)
    && NodeConsistent(d)
    && forall a :: a in queue ==> a in cw.overlaps
  }

  /** Node consistency and a well-formed table make every overlap readable. */
  lemma WorkableReadable(cw: Crossword, d: Domains, x: Variable, y: Variable)
    requires WellFormed(cw) && d.Keys == Slots(cw) && NodeConsistent(d)
    requires (x, y) in cw.overlaps
    ensures cw.overlaps[(x, y)].Some? ==> x in d && y in d && Readable(d, x, y, cw.overlaps[(x, y)].value)
  {
    assert x in cw.variables && y in cw.variables;
  }

  /** Every arc is consistent. */
  ghost predicate AllArcConsistent(cw: Crossword, d: Domains) {
    forall x, y :: x in d && y in d ==> ArcConsistent(cw, d, x, y)
  }

  /** The loop of `ac3`: pop the first arc, revise it; on a change fail if x's
      domain is empty and otherwise queue the arcs into x again. True when the
      queue runs dry. */
  function AC3Loop(cw: Crossword, d: Domains, queue: seq<Arc>): (r: (bool, Domains))
    requires Workable(cw, d, queue)
    ensures r.1.Keys == d.Keys
    ensures forall v :: v in d ==> r.1[v] <= d[v]
    ensures NodeConsistent(r.1)
    ensures !r.0 ==> exists v :: v in r.1 && r.1[v] == {}
    decreases Size(cw.variables, d), |queue|
  {
    if |queue| == 0 then (true, d)
    else
      var x, y := queue[0].0, queue[0].1;
      var rest := queue[1..];
      Pop(cw, d, queue);
      WorkableReadable(cw, d, x, y);
      var (changed, d') := Revise(cw, d, x, y);
      if !changed then AC3Loop(cw, d, rest)
      else if |d'[x]| == 0 then
        assert x in d';
        (false, d')
      else
        ChangedStep(cw, d, x, y, rest);
        var r := AC3Loop(cw, d', rest + NewArcs(cw, cw.variables, x, y, rest));
        NarrowChain(d, d', r.1);
        r
  }

  /** Narrowing twice narrows. */
  lemma NarrowChain(d: Domains, d': Domains, e: Domains)
    requires d'.Keys == d.Keys && e.Keys == d'.Keys
    requires forall v :: v in d ==> d'[v] <= d[v]
    requires forall v :: v in d' ==> e[v] <= d'[v]
    ensures forall v :: v in d ==> e[v] <= d[v]
  {
  }

  /** Taking the first arc off the queue leaves a queue of table arcs. */
  lemma Pop(cw: Crossword, d: Domains, queue: seq<Arc>)
    requires Workable(cw, d, queue) && |queue| > 0
    ensures queue[0] in cw.overlaps && Workable(cw, d, queue[1..])
    ensures queue == [queue[0]] + queue[1..]
  {
    assert queue[0] in queue;
    assert forall a :: a in queue[1..] ==> a in queue;
  }

  /** After a revision that shrank x's domain, the store is smaller and the
      extended queue still holds only arcs of the table. */
  lemma ChangedStep(cw: Crossword, d: Domains, x: Variable, y: Variable, rest: seq<Arc>)
    requires Workable(cw, d, rest) && (x, y) in cw.overlaps
    requires cw.overlaps[(x, y)].Some? ==> x in d && y in d && Readable(d, x, y, cw.overlaps[(x, y)].value)
    requires Revise(cw, d, x, y).0
    ensures var d' := Revise(cw, d, x, y).1;
      && Size(cw.variables, d') < Size(cw.variables, d)
      && (forall v :: v in d ==> d'[v] <= d[v])
      && Workable(cw, d', rest + NewArcs(cw, cw.variables, x, y, rest))
  {
    var d' := Revise(cw, d, x, y).1;
    assert x in cw.variables;
    assert d'[x] < d[x];
    SizeShrinks(cw.variables, d, x, d'[x]);
    assert d' == d[x := d'[x]];
    var more := NewArcs(cw, cw.variables, x, y, rest);
    forall a | a in more ensures a in cw.overlaps {
      NeighborsSymmetric(cw, x, a.0);
    }
  }

  /** The AC-3 invariant: every arc not waiting in the queue is consistent. */
  ghost predicate Settled(cw: Crossword, d: Domains, queue: seq<Arc>) {
    forall x, y :: x in d && y in d && (x, y) !in queue ==> ArcConsistent(cw, d, x, y)
  }

  /** An arc that was consistent stays consistent after `revise(x, y)` unless it
      points into x; the arc from y back to x is the one exception handled by
      `ReviseKeepsReverse`. */
  lemma ReviseKeepsOthers(cw: Crossword, d: Domains, x: Variable, y: Variable, a: Variable, b: Variable)
    requires WellFormed(cw) && (x, y) in cw.overlaps && x in d && y in d
    requires cw.overlaps[(x, y)].Some? ==> Readable(d, x, y, cw.overlaps[(x, y)].value)
    requires a in d && b in d && b != x && ArcConsistent(cw, d, a, b)
    ensures ArcConsistent(cw, Revise(cw, d, x, y).1, a, b)
  {
    var r := Revise(cw, d, x, y).1;
    assert r[b] == d[b];
    assert r[a] <= d[a];
  }

  /** One changing step of AC-3 keeps the invariant for the extended queue. */
  lemma StepSettled(cw: Crossword, d: Domains, x: Variable, y: Variable, rest: seq<Arc>)
    requires Workable(cw, d, [(x, y)] + rest)
    requires (x, y) in cw.overlaps
    requires cw.overlaps[(x, y)].Some? ==> x in d && y in d && Readable(d, x, y, cw.overlaps[(x, y)].value)
    requires Settled(cw, d, [(x, y)] + rest)
    ensures var d' := Revise(cw, d, x, y).1;
      Settled(cw, d', rest + NewArcs(cw, cw.variables, x, y, rest))
  {
    var d' := Revise(cw, d, x, y).1;
    var q' := rest + NewArcs(cw, cw.variables, x, y, rest);
    forall a, b | a in d' && b in d' && (a, b) !in q' ensures ArcConsistent(cw, d', a, b) {
      if (a, b) == (x, y) {
        ReviseMakesArcConsistent(cw, d, x, y);
      } else {
        assert (a, b) !in [(x, y)] + rest;
        assert ArcConsistent(cw, d, a, b);
        if b != x {
          ReviseKeepsOthers(cw, d, x, y, a, b);
        } else if a == y {
          ReviseKeepsReverse(cw, d, x, y);
        }
      }
    }
  }

  /** A revision that removed nothing leaves every arc but the popped one as it
      was, and makes the popped one consistent. */
  lemma UnchangedSettled(cw: Crossword, d: Domains, x: Variable, y: Variable, rest: seq<Arc>)
    requires WellFormed(cw) && (x, y) in cw.overlaps && x in d && y in d
    requires cw.overlaps[(x, y)].Some? ==> Readable(d, x, y, cw.overlaps[(x, y)].value)
    requires Settled(cw, d, [(x, y)] + rest) && !Revise(cw, d, x, y).0
    ensures Settled(cw, d, rest)
  {
    forall a, b | a in d && b in d && (a, b) !in rest ensures ArcConsistent(cw, d, a, b) {
      if (a, b) == (x, y) {
        ReviseMakesArcConsistent(cw, d, x, y);
      } else {
        assert (a, b) !in [(x, y)] + rest;
      }
    }
  }

  /** AC-3 reaches a fixed point: when it succeeds, every arc is consistent,
      provided every arc that was not consistent started in the queue. */
  lemma {:induction false} AC3LoopSound(cw: Crossword, d: Domains, queue: seq<Arc>)
    requires Workable(cw, d, queue) && Settled(cw, d, queue)
    ensures AC3Loop(cw, d, queue).0 ==> AllArcConsistent(cw, AC3Loop(cw, d, queue).1)
    decreases Size(cw.variables, d), |queue|
  {
    if |queue| > 0 {
      var x, y := queue[0].0, queue[0].1;
      var rest := queue[1..];
      Pop(cw, d, queue);
      WorkableReadable(cw, d, x, y);
      var (changed, d') := Revise(cw, d, x, y);
      if !changed {
        UnchangedSettled(cw, d, x, y, rest);
        AC3LoopSound(cw, d, rest);
      } else if |d'[x]| > 0 {
        ChangedStep(cw, d, x, y, rest);
        var more := NewArcs(cw, cw.variables, x, y, rest);
        StepSettled(cw, d, x, y, rest);
        AC3LoopSound(cw, d', rest + more);
      }
    }
  }

  /** The words of the assignment `s` are still in every domain. */
  ghost predicate Admits(d: Domains, s: Assignment) {
    forall v :: v in d ==> v in s && s[v] in d[v]
  }

  /** `revise` never removes a word that belongs to a solution the domains admit. */
  lemma ReviseAdmits(cw: Crossword, d: Domains, x: Variable, y: Variable, s: Assignment)
    requires WellFormed(cw) && (x, y) in cw.overlaps && x in d && y in d
    requires cw.overlaps[(x, y)].Some? ==> Readable(d, x, y, cw.overlaps[(x, y)].value)
    requires OverlapsAgree(cw, s) && Admits(d, s)
    ensures Admits(Revise(cw, d, x, y).1, s)
  {
    var r := Revise(cw, d, x, y).1;
    assert x in s && y in s && s[x] in d[x] && s[y] in d[y];
    assert Overlap(cw, x, y) == cw.overlaps[(x, y)];
    ReviseKeepsPartners(cw, d, x, y, s[x], s[y]);
    forall v | v in r ensures v in s && s[v] in r[v] {
      if v != x {
        assert r[v] == d[v];
      }
    }
  }

  /** AC-3 never removes a word that belongs to a solution the domains admit. */
  lemma {:induction false} AC3LoopKeepsSolutions(cw: Crossword, d: Domains, queue: seq<Arc>, s: Assignment)
    requires Workable(cw, d, queue) && OverlapsAgree(cw, s) && Admits(d, s)
    ensures Admits(AC3Loop(cw, d, queue).1, s)
    decreases Size(cw.variables, d), |queue|
  {
    if |queue| > 0 {
      var x, y := queue[0].0, queue[0].1;
      var rest := queue[1..];
      assert queue[0] in queue;
      assert x in cw.variables && y in cw.variables;
      WorkableReadable(cw, d, x, y);
      var (changed, d') := Revise(cw, d, x, y);
      ReviseAdmits(cw, d, x, y, s);
      if !changed {
        AC3LoopKeepsSolutions(cw, d', rest, s);
      } else if |d'[x]| > 0 {
        ChangedStep(cw, d, x, y, rest);
        AC3LoopKeepsSolutions(cw, d', rest + NewArcs(cw, cw.variables, x, y, rest), s);
      }
    }
  }

  /** `ac3(arcs)`: run the loop from the given queue, or from every overlapping arc
      when none is given. Starting from every arc, success means every arc is
      consistent; from any queue, the result keeps every solution the domains
      admit, so failure means the domains admit none. */
  function AC3(cw: Crossword, d: Domains, arcs: Option<seq<Arc>>): (r: (bool, Domains))
    requires WellFormed(cw) && d.Keys == Slots(cw) && NodeConsistent(d)
    requires arcs.Some? ==> forall a :: a in arcs.value ==> a in cw.overlaps
    ensures r.1.Keys == d.Keys
    ensures forall v :: v in d ==> r.1[v] <= d[v]
    ensures NodeConsistent(r.1)
    ensures !r.0 ==> exists v :: v in r.1 && r.1[v] == {}
    ensures arcs.None? && r.0 ==> AllArcConsistent(cw, r.1)
    ensures forall s :: OverlapsAgree(cw, s) && Admits(d, s) ==> Admits(r.1, s)
  {
    var queue := if arcs.None? then AllArcs(cw) else arcs.value;
    AC3KeepsSolutions(cw, d, queue);
    if arcs.None? then
      AllArcsSettled(cw, d);
      AC3LoopSound(cw, d, queue);
      AC3Loop(cw, d, queue)
    else
      AC3Loop(cw, d, queue)
  }

  /** With every overlapping arc queued, the invariant holds trivially. */
  lemma AllArcsSettled(cw: Crossword, d: Domains)
    requires WellFormed(cw)
    ensures Settled(cw, d, AllArcs(cw))
  {
    CoverSettled(cw, d, AllArcs(cw));
  }

  /** A queue holding every overlapping arc leaves nothing outside it to check. */
  lemma CoverSettled(cw: Crossword, d: Domains, queue: seq<Arc>)
    requires forall a :: a in cw.overlaps && cw.overlaps[a].Some? ==> a in queue
    ensures Settled(cw, d, queue)
  {
    forall x, y | x in d && y in d && (x, y) !in queue ensures ArcConsistent(cw, d, x, y) {
      assert Overlap(cw, x, y).None?;
    }
  }

  /** `AC3LoopKeepsSolutions` for every solution at once. */
  lemma AC3KeepsSolutions(cw: Crossword, d: Domains, queue: seq<Arc>)
    requires Workable(cw, d, queue)
    ensures forall s :: OverlapsAgree(cw, s) && Admits(d, s) ==> Admits(AC3Loop(cw, d, queue).1, s)
  {
    forall s | OverlapsAgree(cw, s) && Admits(d, s) ensures Admits(AC3Loop(cw, d, queue).1, s) {
      AC3LoopKeepsSolutions(cw, d, queue, s);
    }
  }

  /** `ac3` as its documentation describes it: false exactly when some domain ends
      up empty. The source's `ac3` only looks at a domain right after revising it,
      so a domain that was empty from the start goes unnoticed. */
  function AC3Checked(cw: Crossword, d: Domains, arcs: Option<seq<Arc>>): (r: (bool, Domains))
    requires WellFormed(cw) && d.Keys == Slots(cw) && NodeConsistent(d)
    requires arcs.Some? ==> forall a :: a in arcs.value ==> a in cw.overlaps
    ensures r.1 == AC3(cw, d, arcs).1
    ensures r.0 <==> forall v :: v in r.1 ==> r.1[v] != {}
    ensures arcs.None? && r.0 ==> AllArcConsistent(cw, r.1)
  {
    var (ok, d') := AC3(cw, d, arcs);
    (ok && forall v :: v in d' ==> d'[v] != {}, d')
  }

  /** A crossword with one three-letter slot and the pool ["ab"]. */
  function OneSlot(): Crossword {
    Crossword([Variable(0, 0, Across, 3)], ["ab"], map[])
  }

  /** On that crossword node consistency empties the slot's domain, yet `ac3`
      reports success, while the documented check reports failure. */
  lemma AC3MissesEmptyDomain()
    ensures WellFormed(OneSlot())
    ensures var d := EnforceNodeConsistency(InitialDomains(OneSlot()));
      && AC3(OneSlot(), d, None).0
      && AC3(OneSlot(), d, None).1[Variable(0, 0, Across, 3)] == {}
      && !AC3Checked(OneSlot(), d, None).0
  {
    var cw := OneSlot();
    var v := Variable(0, 0, Across, 3);
    var d := EnforceNodeConsistency(InitialDomains(cw));
    assert d.Keys == {v};
    assert d[v] == {};
    assert AllArcs(cw) == [];
  }
}
