/** The crossword constraint solver (crossword/generate.py, class
    `CrosswordCreator`). The puzzle structure — the variables, their overlaps
    and the word list — is an input taken as given. */
module Crossword {
  import opened Wrappers

  datatype Direction = Across | Down

  /** A word slot: the cell it starts at, its direction and its length. */
  datatype Variable = Variable(i: int, j: int, direction: Direction, length: nat)

  /** An ordered pair of variables, as queued by AC-3. */
  type Arc = (Variable, Variable)

  type Domains = map<Variable, set<string>>

  type Assignment = map<Variable, string>

  /** The puzzle the solver is given. `variables` lists the structure's
      variables in the order the structure's collection yields them;
      `overlaps[(v1, v2)] == (k1, k2)` says character k1 of v1 is character k2
      of v2, and a pair that is not a key does not overlap. */
  datatype Crossword = Crossword(variables: seq<Variable>, overlaps: map<Arc, (nat, nat)>, words: set<string>)
  {
    /** What the puzzle structure guarantees: distinct variables, overlaps
        only between two distinct variables of the puzzle, and each overlap
        recorded in both directions with the indices swapped. */
    ghost predicate Valid() {
      && (forall n, m :: 0 <= n < m < |variables| ==> variables[n] != variables[m])
      && (forall a :: a in overlaps ==> a.0 in variables && a.1 in variables && a.0 != a.1)
      && (forall a :: a in overlaps ==>
            (a.1, a.0) in overlaps && overlaps[(a.1, a.0)] == (overlaps[a].1, overlaps[a].0))
    }

    /** `overlaps[x, y]`, with `None` for no overlap. */
    function Overlap(x: Variable, y: Variable): Option<(nat, nat)> {
      if (x, y) in overlaps then Some(overlaps[(x, y)]) else None
    }

    /** `neighbors(v)`: the variables that overlap `v`. */
    function Neighbors(v: Variable): set<Variable> {
      set u | u in variables && u != v && (u, v) in overlaps
    }
  }

  // ------------------------------------------------------- shared vocabulary

  /** `w1` and `w2` agree at the overlap `ov`: character ov.0 of `w1` is
      character ov.1 of `w2`. A word too short to have that character does
      not agree (after node consistency every word is long enough). */
  predicate Agree(w1: string, w2: string, ov: (nat, nat)) {
    ov.0 < |w1| && ov.1 < |w2| && w1[ov.0] == w2[ov.1]
  }

  /** Some word of `dom` agrees with `w` at `ov`. */
  predicate Supported(w: string, dom: set<string>, ov: (nat, nat)) {
    exists w2 :: w2 in dom && Agree(w, w2, ov)
  }

  /** An arc of the puzzle: two distinct variables. */
  predicate IsArc(cw: Crossword, a: Arc) {
    a.0 in cw.variables && a.1 in cw.variables && a.0 != a.1
  }

  /** The domains belong to exactly the puzzle's variables. */
  ghost predicate Covers(cw: Crossword, d: Domains) {
    forall v :: v in d <==> v in cw.variables
  }

  /** `d` is `d0` with words taken out and none added. */
  ghost predicate Shrinks(d0: Domains, d: Domains) {
    d.Keys == d0.Keys && forall v :: v in d ==> d[v] <= d0[v]
  }

  // ------------------------------------------------------------ assignments

  /** `assignment_complete`'s condition: every variable has a word. */
  predicate Complete(cw: Crossword, a: Assignment) {
    forall v :: v in cw.variables ==> v in a
  }

  /** `consistent`'s condition: the words are pairwise distinct, each has its
      variable's length, and overlapping assigned variables agree. */
  predicate Consistent(cw: Crossword, a: Assignment) {
    && (forall u, v :: u in a && v in a && u != v ==> a[u] != a[v])
    && (forall v :: v in a ==> |a[v]| == v.length)
    && (forall u, v :: u in a && v in a && (u, v) in cw.overlaps ==> Agree(a[u], a[v], cw.overlaps[(u, v)]))
  }

  /** A solution of the puzzle: a complete, consistent assignment of its
      variables. */
  ghost predicate IsSolution(cw: Crossword, s: Assignment) {
    Complete(cw, s) && Consistent(cw, s) && forall v :: v in s ==> v in cw.variables
  }

  /** Every word of `s` is still in its variable's domain. */
  ghost predicate Within(s: Assignment, d: Domains) {
    forall v :: v in s ==> v in d && s[v] in d[v]
  }

  /** Narrowing `d0` to `d` loses no solution. */
  ghost predicate KeepsSolutions(cw: Crossword, d0: Domains, d: Domains) {
    forall s :: IsSolution(cw, s) && Within(s, d0) ==> Within(s, d)
  }

  /** A consistent assignment stays consistent when entries are dropped. */
  lemma ConsistentSub(cw: Crossword, a: Assignment, s: Assignment)
    requires Consistent(cw, s)
    requires forall v :: v in a ==> v in s && a[v] == s[v]
    ensures Consistent(cw, a)
  {
  }

  /** Adding one variable to a consistent assignment only needs the new word
      checked: it is unused, has the right length and agrees with each
      assigned neighbour. */
  lemma {:induction false} ConsistentExtend(cw: Crossword, a: Assignment, v: Variable, w: string)
    requires cw.Valid() && Consistent(cw, a) && v !in a
    ensures Consistent(cw, a[v := w]) <==>
            && w !in a.Values
            && |w| == v.length
            && forall u :: u in cw.Neighbors(v) && u in a ==> Agree(w, a[u], cw.overlaps[(v, u)])
  {
    var a' := a[v := w];
    if Consistent(cw, a') {
      forall u | u in a ensures a[u] != w {
        assert a'[u] == a[u] && a'[v] == w;
      }
      forall u | u in cw.Neighbors(v) && u in a ensures Agree(w, a[u], cw.overlaps[(v, u)]) {
        assert (v, u) in cw.overlaps;
        assert a'[v] == w && a'[u] == a[u];
      }
    }
    if && w !in a.Values
       && |w| == v.length
       && forall u :: u in cw.Neighbors(v) && u in a ==> Agree(w, a[u], cw.overlaps[(v, u)])
    {
      forall x, y | x in a' && y in a' && (x, y) in cw.overlaps
        ensures Agree(a'[x], a'[y], cw.overlaps[(x, y)])
      {
        if x == v {
          assert y in cw.Neighbors(v);
        } else if y == v {
          assert x in cw.Neighbors(v);
          assert (v, x) in cw.overlaps;
          assert Agree(w, a[x], cw.overlaps[(v, x)]);
        }
      }
      forall x, y | x in a' && y in a' && x != y ensures a'[x] != a'[y] {
        if x == v {
          assert a[y] in a.Values;
        } else if y == v {
          assert a[x] in a.Values;
        }
      }
    }
  }

  // --------------------------------------------------------- node consistency

  /** The words of `ws` that fit `v`'s length. */
  function FitLength(v: Variable, ws: set<string>): (r: set<string>)
    ensures r <= ws
    ensures forall w :: w in ws ==> (w in r <==> |w| == v.length)
  {
    set w | w in ws && |w| == v.length
  }

  /** Every remaining word has its variable's length. */
  ghost predicate NodeConsistent(d: Domains) {
    forall v, w :: v in d && w in d[v] ==> |w| == v.length
  }

  /** The length filter leaves a node-consistent store, removes only words
      of another length, and loses no solution. */
  lemma NodeFilterSound(cw: Crossword, d0: Domains, d: Domains)
    requires d == map v | v in d0 :: FitLength(v, d0[v])
    ensures NodeConsistent(d) && Shrinks(d0, d)
    ensures forall v, w :: v in d0 && w in d0[v] && w !in d[v] ==> |w| != v.length
    ensures KeepsSolutions(cw, d0, d)
  {
  }

  // ------------------------------------------------------------------ revise

  /** What `revise(x, y)` leaves in x's domain `dx`: the words some word of
      `dy` agrees with at the overlap; everything when there is no overlap. */
  function Revised(dx: set<string>, dy: set<string>, ov: Option<(nat, nat)>): (r: set<string>)
    ensures r <= dx
  {
    match ov
    case None => dx
    case Some(o) => set w | w in dx && Supported(w, dy, o)
  }

  /** Every word of x's domain has support in y's domain. */
  ghost predicate ArcConsistentAt(cw: Crossword, d: Domains, a: Arc) {
    a.0 in d && a.1 in d && (a.0, a.1) in cw.overlaps ==>
      forall w :: w in d[a.0] ==> Supported(w, d[a.1], cw.overlaps[(a.0, a.1)])
  }

  /** Every arc of the puzzle is consistent. */
  ghost predicate ArcConsistent(cw: Crossword, d: Domains) {
    forall a :: IsArc(cw, a) ==> ArcConsistentAt(cw, d, a)
  }

  /** The domains after `revise(x, y)`. */
  function AfterRevise(cw: Crossword, d: Domains, x: Variable, y: Variable): Domains
    requires x in d && y in d
  {
    d[x := Revised(d[x], d[y], cw.Overlap(x, y))]
  }

  /** Revising makes its own arc consistent, never drops a word that has
      support, and leaves every domain but x's alone. */
  lemma ReviseMakesArcConsistent(cw: Crossword, d: Domains, x: Variable, y: Variable)
    requires x in d && y in d && x != y
    ensures ArcConsistentAt(cw, AfterRevise(cw, d, x, y), (x, y))
    ensures forall w :: w in d[x] && cw.Overlap(x, y).Some? && Supported(w, d[y], cw.Overlap(x, y).value) ==>
              w in AfterRevise(cw, d, x, y)[x]
    ensures forall v :: v in d && v != x ==> AfterRevise(cw, d, x, y)[v] == d[v]
    ensures Shrinks(d, AfterRevise(cw, d, x, y))
  {
    var d' := AfterRevise(cw, d, x, y);
    if (x, y) in cw.overlaps {
      forall w | w in d'[x] ensures Supported(w, d'[y], cw.overlaps[(x, y)]) {
        assert d'[y] == d[y];
      }
    }
  }

  /** Revising x against y keeps the reverse arc (y, x) consistent: a word of
      x that supported a word of y is supported by that word in turn. */
  lemma {:induction false} ReviseKeepsReverseArc(cw: Crossword, d: Domains, x: Variable, y: Variable)
    requires cw.Valid() && x in d && y in d && x != y
    requires ArcConsistentAt(cw, d, (y, x))
    ensures ArcConsistentAt(cw, AfterRevise(cw, d, x, y), (y, x))
  {
    var d' := AfterRevise(cw, d, x, y);
    if (y, x) in cw.overlaps {
      var o := cw.overlaps[(y, x)];
      assert (x, y) in cw.overlaps && cw.overlaps[(x, y)] == (o.1, o.0);
      forall w | w in d'[y] ensures Supported(w, d'[x], o) {
        assert d'[y] == d[y];
        var w2 :| w2 in d[x] && Agree(w, w2, o);
        assert Agree(w2, w, (o.1, o.0));
        assert Supported(w2, d[y], (o.1, o.0));
        assert w2 in d'[x];
      }
    }
  }

  /** Revising x keeps every arc that does not end in x consistent. */
  lemma ReviseKeepsOtherArcs(cw: Crossword, d: Domains, x: Variable, y: Variable, a: Arc)
    requires x in d && y in d && x != y && a.1 != x
    requires ArcConsistentAt(cw, d, a)
    ensures ArcConsistentAt(cw, AfterRevise(cw, d, x, y), a)
  {
    var d' := AfterRevise(cw, d, x, y);
    if a.0 in d' && a.1 in d' && (a.0, a.1) in cw.overlaps {
      forall w | w in d'[a.0] ensures Supported(w, d'[a.1], cw.overlaps[(a.0, a.1)]) {
        assert d'[a.1] == d[a.1];
        assert w in d[a.0];
      }
    }
  }

  /** Revising loses no solution: a solution's word for x agrees with its word
      for y, which is in y's domain. */
  lemma {:induction false} ReviseKeepsSolutions(cw: Crossword, d: Domains, x: Variable, y: Variable)
    requires x in d && y in d && IsArc(cw, (x, y))
    ensures KeepsSolutions(cw, d, AfterRevise(cw, d, x, y))
  {
    var d' := AfterRevise(cw, d, x, y);
    forall s | IsSolution(cw, s) && Within(s, d) ensures Within(s, d') {
      if (x, y) in cw.overlaps {
        assert x in s && y in s;
        assert Agree(s[x], s[y], cw.overlaps[(x, y)]);
        assert Supported(s[x], d[y], cw.overlaps[(x, y)]);
      }
    }
  }

  lemma ShrinksTrans(d0: Domains, d1: Domains, d2: Domains)
    requires Shrinks(d0, d1) && Shrinks(d1, d2)
    ensures Shrinks(d0, d2)
  {
  }

  /** No domain that had words has lost all of them. */
  ghost predicate NoNewEmpty(d0: Domains, d: Domains) {
    forall v :: v in d && d[v] == {} ==> v in d0 && d0[v] == {}
  }

  lemma NoNewEmptyTrans(d0: Domains, d1: Domains, d2: Domains, x: Variable)
    requires NoNewEmpty(d0, d1) && d2.Keys == d1.Keys
    requires forall v :: v in d1 && v != x ==> d2[v] == d1[v]
    requires x in d2 ==> d2[x] != {} || d2[x] == d1[x]
    ensures NoNewEmpty(d0, d2)
  {
    forall v | v in d2 && d2[v] == {} ensures v in d0 && d0[v] == {} {
      assert d1[v] == {};
    }
  }

  /** Every arc of the puzzle that is not queued is consistent: the loop
      invariant of AC-3. */
  ghost predicate ConsistentOutside(cw: Crossword, d: Domains, queue: seq<Arc>) {
    forall a :: IsArc(cw, a) && a !in queue ==> ArcConsistentAt(cw, d, a)
  }

  /** Narrowing twice loses no solution when neither step does. */
  lemma KeepsSolutionsTrans(cw: Crossword, d0: Domains, d1: Domains, d2: Domains)
    requires KeepsSolutions(cw, d0, d1) && KeepsSolutions(cw, d1, d2)
    ensures KeepsSolutions(cw, d0, d2)
  {
  }

  /** One round of AC-3 keeps its invariant: after revising (x, y) taken off
      the queue, and queueing (z, x) for the other neighbours z of x when x's
      domain shrank, every arc left out of the queue is consistent. */
  lemma {:induction false} QueueStepKeepsConsistency(cw: Crossword, d: Domains, x: Variable, y: Variable,
                                                     rest: seq<Arc>, queue: seq<Arc>)
    requires cw.Valid() && Covers(cw, d) && IsArc(cw, (x, y))
    requires ConsistentOutside(cw, d, [(x, y)] + rest)
    requires forall a :: a in rest ==> a in queue
    requires AfterRevise(cw, d, x, y)[x] != d[x] ==>
               forall z :: z in cw.variables && z != x && z != y && (z, x) in cw.overlaps ==> (z, x) in queue
    ensures ConsistentOutside(cw, AfterRevise(cw, d, x, y), queue)
  {
    var d' := AfterRevise(cw, d, x, y);
    ReviseMakesArcConsistent(cw, d, x, y);
    forall a | IsArc(cw, a) && a !in queue
      ensures ArcConsistentAt(cw, d', a)
    {
      if a == (x, y) {
      } else if d'[x] == d[x] {
        assert d' == d;
        assert a !in [(x, y)] + rest;
      } else if a.1 == x {
        if a.0 == y {
          assert a !in [(x, y)] + rest;
          ReviseKeepsReverseArc(cw, d, x, y);
        } else if (a.0, a.1) in cw.overlaps {
          assert false;
        }
      } else {
        assert a !in [(x, y)] + rest;
        ReviseKeepsOtherArcs(cw, d, x, y, a);
      }
    }
  }

  /** The invariant of `ac3`'s loop: queued arcs are arcs of the puzzle; the
      domains have only narrowed since `start`, losing no solution and
      emptying no domain; and, when it held at the start, every arc off the
      queue is consistent. */
  ghost predicate AC3Invariant(cw: Crossword, start: Domains, d: Domains, queue: seq<Arc>, tracked: bool) {
    && (forall a :: a in queue ==> IsArc(cw, a))
    && Shrinks(start, d) && KeepsSolutions(cw, start, d) && NoNewEmpty(start, d)
    && (tracked ==> ConsistentOutside(cw, d, queue))
  }

  /** Revising an arc keeps the domains narrower than at the start and loses
      no solution. */
  lemma ArcStepKeepsSolutions(cw: Crossword, start: Domains, d: Domains, x: Variable, y: Variable)
    requires cw.Valid() && Covers(cw, d) && IsArc(cw, (x, y))
    requires Shrinks(start, d) && KeepsSolutions(cw, start, d)
    ensures Shrinks(start, AfterRevise(cw, d, x, y)) && KeepsSolutions(cw, start, AfterRevise(cw, d, x, y))
  {
    ReviseMakesArcConsistent(cw, d, x, y);
    ReviseKeepsSolutions(cw, d, x, y);
    KeepsSolutionsTrans(cw, start, d, AfterRevise(cw, d, x, y));
    ShrinksTrans(start, d, AfterRevise(cw, d, x, y));
  }

  /** One round of `ac3` that empties no domain keeps the loop invariant. */
  lemma ArcStepKeepsInvariant(cw: Crossword, start: Domains, d: Domains, x: Variable, y: Variable,
                              rest: seq<Arc>, queue: seq<Arc>, tracked: bool)
    requires cw.Valid() && Covers(cw, d) && IsArc(cw, (x, y))
    requires AC3Invariant(cw, start, d, [(x, y)] + rest, tracked)
    requires forall a :: a in queue ==> IsArc(cw, a)
    requires forall a :: a in rest ==> a in queue
    requires AfterRevise(cw, d, x, y)[x] != d[x] ==>
               AfterRevise(cw, d, x, y)[x] != {} &&
               forall z :: z in cw.variables && z != x && z != y && (z, x) in cw.overlaps ==> (z, x) in queue
    ensures AC3Invariant(cw, start, AfterRevise(cw, d, x, y), queue, tracked)
  {
    var d' := AfterRevise(cw, d, x, y);
    ArcStepKeepsSolutions(cw, start, d, x, y);
    ReviseMakesArcConsistent(cw, d, x, y);
    NoNewEmptyTrans(start, d, d', x);
    if tracked {
      QueueStepKeepsConsistency(cw, d, x, y, rest, queue);
    }
  }

  /** The pairs (variable, word) still possible; every removal shrinks it, so
      it bounds the work AC-3 can do. */
  ghost function Pairs(d: Domains): set<(Variable, string)> {
    set v, w | v in d && w in d[v] :: (v, w)
  }

  lemma RemovalShrinksPairs(d: Domains, x: Variable, s: set<string>)
    requires x in d && s < d[x]
    ensures Pairs(d[x := s]) < Pairs(d)
  {
    var w :| w in d[x] && w !in s;
    assert (x, w) in Pairs(d) && (x, w) !in Pairs(d[x := s]);
  }

  // -------------------------------------------------------------- heuristics

  /** `assignment_complete`: scan the variables in order for one without a
      word. */
  function AssignmentComplete(cw: Crossword, a: Assignment): (r: bool)
    ensures r <==> Complete(cw, a)
  {
    AllAssignedFrom(cw.variables, a, 0)
  }

  function AllAssignedFrom(vars: seq<Variable>, a: Assignment, k: nat): (r: bool)
    requires k <= |vars|
    ensures r <==> forall n :: k <= n < |vars| ==> vars[n] in a
    decreases |vars| - k
  {
    if k == |vars| then true
    else if vars[k] !in a then false
    else AllAssignedFrom(vars, a, k + 1)
  }

  /** The variables still without a word. */
  ghost function Unassigned(cw: Crossword, a: Assignment): set<Variable> {
    set v | v in cw.variables && v !in a
  }

  /** Giving an unassigned variable a word leaves one variable fewer
      unassigned: the measure `backtrack`'s recursion decreases. */
  lemma UnassignedShrinks(cw: Crossword, a: Assignment, v: Variable, w: string)
    requires v in cw.variables && v !in a
    ensures |Unassigned(cw, a[v := w])| < |Unassigned(cw, a)|
  {
    assert Unassigned(cw, a[v := w]) == Unassigned(cw, a) - {v};
  }

  /** A word for `v` that makes the assignment inconsistent, or from which
      no completion exists, is the word of no completion of `a`. */
  lemma RejectValue(cw: Crossword, d: Domains, a: Assignment, v: Variable, w: string, extended: Assignment)
    requires v in cw.variables && v !in a && v in d && extended == a[v := w]
    requires !Consistent(cw, extended) || forall s :: !Completes(cw, d, extended, s)
    ensures forall s :: Completes(cw, d, a, s) ==> v in s && s[v] != w
  {
    forall s | Completes(cw, d, a, s) ensures v in s && s[v] != w {
      if s[v] == w {
        CompletesStep(cw, d, a, v, w, s);
        assert Completes(cw, d, extended, s);
        ConsistentSub(cw, extended, s);
      }
    }
  }

  /** When every word of v's domain has been rejected, `a` has no
      completion. */
  lemma NoValueLeft(cw: Crossword, d: Domains, a: Assignment, v: Variable, values: seq<string>)
    requires v in cw.variables && v !in a && v in d
    requires forall w :: w in d[v] ==> w in values
    requires forall s :: Completes(cw, d, a, s) ==> s[v] !in values
    ensures forall s :: !Completes(cw, d, a, s)
  {
  }

  /** The degree heuristic's measure: how many variables overlap `v`. */
  function Degree(cw: Crossword, v: Variable): nat {
    |cw.Neighbors(v)|
  }

  /** `u` is at least as good a choice as `best` for
      `select_unassigned_variable`: a smaller domain, or an equal domain and
      at least as high a degree. */
  predicate AtLeastAsGood(cw: Crossword, d: Domains, u: Variable, best: Variable)
    requires u in d && best in d
  {
    |d[u]| < |d[best]| || (|d[u]| == |d[best]| && Degree(cw, u) >= Degree(cw, best))
  }

  /** The unassigned variable a scan of `vars[k..]` settles on, starting from
      `best`, keeping the later of two equally good ones. */
  function SelectFrom(cw: Crossword, d: Domains, a: Assignment, k: nat, best: Option<Variable>): (r: Option<Variable>)
    requires Covers(cw, d) && k <= |cw.variables|
    requires best.Some? ==> best.value in cw.variables && best.value !in a
    ensures best.Some? ==> r.Some?
    ensures r.Some? ==> r.value in cw.variables && r.value !in a
    ensures r.None? ==> forall n :: k <= n < |cw.variables| ==> cw.variables[n] in a
    ensures r.Some? ==> forall n :: k <= n < |cw.variables| && cw.variables[n] !in a ==>
              |d[r.value]| <= |d[cw.variables[n]]| &&
              (|d[r.value]| == |d[cw.variables[n]]| ==> Degree(cw, cw.variables[n]) <= Degree(cw, r.value))
    ensures r.Some? && best.Some? ==> AtLeastAsGood(cw, d, r.value, best.value)
    decreases |cw.variables| - k
  {
    if k == |cw.variables| then best
    else
      var v := cw.variables[k];
      var next := if v !in a && (best.None? || AtLeastAsGood(cw, d, v, best.value)) then Some(v) else best;
      SelectFrom(cw, d, a, k + 1, next)
  }

  /** `select_unassigned_variable` as its documentation specifies it: an
      unassigned variable with the fewest remaining words, and among those
      one of highest degree (the last such in variable order). */
  function SelectUnassignedVariable(cw: Crossword, d: Domains, a: Assignment): (r: Variable)
    requires Covers(cw, d) && !Complete(cw, a)
    ensures r in cw.variables && r !in a
    ensures forall v :: v in cw.variables && v !in a ==> |d[r]| <= |d[v]|
    ensures forall v :: v in cw.variables && v !in a && |d[v]| == |d[r]| ==> Degree(cw, v) <= Degree(cw, r)
  {
    var r := SelectFrom(cw, d, a, 0, None);
    assert r.Some? by {
      var v :| v in cw.variables && v !in a;
      var n :| 0 <= n < |cw.variables| && cw.variables[n] == v;
    }
    r.value
  }

  /** How many words of `dom` a word `value` placed at an overlap `ov` rules
      out. */
  function Conflicts(value: string, dom: set<string>, ov: (nat, nat)): (r: nat)
    ensures r == 0 <==> forall w :: w in dom ==> Agree(value, w, ov)
  {
    var bad := set w | w in dom && !Agree(value, w, ov);
    assert bad != {} ==> exists w :: w in dom && !Agree(value, w, ov) by {
      if bad != {} {
        var w :| w in bad;
      }
    }
    assert (exists w :: w in dom && !Agree(value, w, ov)) ==> |bad| > 0 by {
      if exists w :: w in dom && !Agree(value, w, ov) {
        var w :| w in dom && !Agree(value, w, ov);
        assert w in bad;
      }
    }
    |bad|
  }

  /** The sum of `Conflicts` over the variables `ns` that overlap `v` and
      have no word yet. */
  function RuledOutOver(cw: Crossword, d: Domains, v: Variable, value: string, a: Assignment, ns: seq<Variable>): (r: nat)
    requires Covers(cw, d)
    ensures r == 0 <==>
            forall n :: 0 <= n < |ns| && ns[n] in d && ns[n] !in a && (v, ns[n]) in cw.overlaps ==>
              forall w :: w in d[ns[n]] ==> Agree(value, w, cw.overlaps[(v, ns[n])])
  {
    if ns == [] then 0
    else
      var u := ns[0];
      var here := if u in d && u !in a && (v, u) in cw.overlaps then Conflicts(value, d[u], cw.overlaps[(v, u)]) else 0;
      var rest := RuledOutOver(cw, d, v, value, a, ns[1..]);
      assert forall n :: 1 <= n < |ns| ==> ns[n] == ns[1..][n - 1];
      here + rest
  }

  /** The sort key of `order_domain_values`: how many words `value` for `v`
      would rule out in the domains of `v`'s unassigned neighbours. It is
      zero exactly when every word left to each unassigned neighbour agrees
      with `value`. */
  function RuledOut(cw: Crossword, d: Domains, v: Variable, value: string, a: Assignment): (r: nat)
    requires Covers(cw, d)
    ensures r == 0 <==>
            forall u, w :: u in d && (v, u) in cw.overlaps && u !in a && w in d[u] ==> Agree(value, w, cw.overlaps[(v, u)])
  {
    var r := RuledOutOver(cw, d, v, value, a, cw.variables);
    assert r == 0 ==> forall u, w :: u in d && (v, u) in cw.overlaps && u !in a && w in d[u] ==> Agree(value, w, cw.overlaps[(v, u)]) by {
      if r == 0 {
        forall u, w | u in d && (v, u) in cw.overlaps && u !in a && w in d[u]
          ensures Agree(value, w, cw.overlaps[(v, u)])
        {
          var n :| 0 <= n < |cw.variables| && cw.variables[n] == u;
        }
      }
    }
    r
  }

  /** In a well-formed puzzle the variables `v` overlaps are its neighbours. */
  lemma OverlapsAreNeighbors(cw: Crossword, v: Variable, u: Variable)
    requires cw.Valid()
    ensures (v, u) in cw.overlaps <==> u in cw.Neighbors(v)
  {
    if (v, u) in cw.overlaps {
      assert (u, v) in cw.overlaps;
    }
    if u in cw.Neighbors(v) {
      assert (v, u) in cw.overlaps;
    }
  }

  /** Search: the words of `s` complete the partial assignment `a`, taking
      every new word from its variable's domain in `d`. */
  ghost predicate Completes(cw: Crossword, d: Domains, a: Assignment, s: Assignment) {
    Extends(cw, d, a, s) && Consistent(cw, s)
  }

  /** `s` gives every variable of the puzzle a word, keeps the words of `a`
      and takes every other word from its variable's domain in `d`. */
  ghost predicate Extends(cw: Crossword, d: Domains, a: Assignment, s: Assignment) {
    && Complete(cw, s)
    && (forall v :: v in s ==> v in cw.variables)
    && (forall v :: v in a ==> v in s && s[v] == a[v])
    && (forall v :: v in s && v !in a ==> v in d && s[v] in d[v])
  }

  /** A completion of `a` that puts `w` at the unassigned `v` completes
      `a[v := w]`; and a completion of `a[v := w]`, with `w` from v's
      domain, completes `a`. */
  lemma CompletesStep(cw: Crossword, d: Domains, a: Assignment, v: Variable, w: string, s: Assignment)
    requires v !in a && v in d
    ensures Extends(cw, d, a, s) && v in s && s[v] == w ==> Extends(cw, d, a[v := w], s)
    ensures Extends(cw, d, a[v := w], s) && w in d[v] ==> Extends(cw, d, a, s)
  {
  }

  // ----------------------------------------------------- the code as written

  /** The loop over x's words in `revise` as written
      (crossword/generate.py:137-159), over the words `xs` still to visit:
      each starts with `option_exists` false, and the word is removed from
      `dom`, and the revision flag set, when the flag is still false after
      the scan of y's words. That scan (lines 142-151) can do no more than
      evaluate `option_exists == True` and break: the comparison assigns
      nothing, so the flag leaves the scan false whatever y's words are, and
      every visited word is removed. */
  function RemoveAsWritten(xs: seq<string>, ys: seq<string>, ov: (nat, nat), dom: set<string>, revision: bool)
    : (r: (set<string>, bool))
    ensures r.0 == dom - (set w | w in xs)
    ensures r.1 <==> revision || xs != []
  {
    if xs == [] then (dom, revision)
    else
      var optionExists := false;
      var next := if optionExists == false then (dom - {xs[0]}, true) else (dom, revision);
      var r := RemoveAsWritten(xs[1..], ys, ov, next.0, next.1);
      assert (set w | w in xs) == {xs[0]} + (set w | w in xs[1..]);
      r
  }

  /** `revise(x, y)` as written (crossword/generate.py:130-162), with x's and
      y's domains given in their iteration order `xs` and `ys`: the new
      domain of x and the returned flag. With no overlap nothing changes;
      with one, x loses every word and the flag is set when it had any. */
  function RevisedAsWritten(xs: seq<string>, ys: seq<string>, ov: Option<(nat, nat)>): (r: (set<string>, bool))
    ensures ov.None? ==> r == (set w | w in xs, false)
    ensures ov.Some? ==> r.0 == {} && (r.1 <==> xs != [])
  {
    var dx := set w | w in xs;
    if ov.None? then (dx, false)
    else RemoveAsWritten(xs, ys, ov.value, dx, false)
  }

  /** With "CAT" for x, "COT" for y and their first letters crossing, "CAT"
      has support, yet `revise` as written removes it. */
  lemma RevisedAsWrittenDropsSupportedWord()
    ensures "CAT" in Revised({"CAT"}, {"COT"}, Some((0, 0)))
    ensures "CAT" !in RevisedAsWritten(["CAT"], ["COT"], Some((0, 0))).0
  {
    assert Agree("CAT", "COT", (0, 0));
  }

  /** The sort key of `order_domain_values` as written at
      crossword/generate.py:268-282: `break` at the first neighbour that
      already has a word, so neighbours after it in `ns` are not counted. */
  function RuledOutAsWritten(cw: Crossword, d: Domains, v: Variable, value: string, a: Assignment, ns: seq<Variable>): (r: nat)
    requires Covers(cw, d)
    ensures r <= RuledOutOver(cw, d, v, value, a, ns)
  {
    if ns == [] || ns[0] in a then 0
    else
      var u := ns[0];
      var here := if u in d && (v, u) in cw.overlaps then Conflicts(value, d[u], cw.overlaps[(v, u)]) else 0;
      here + RuledOutAsWritten(cw, d, v, value, a, ns[1..])
  }

  /** `select_unassigned_variable` as written at
      crossword/generate.py:312-344: on a tie in domain size it sorts the
      domain sizes again (line 342) instead of the degrees, so it returns
      the last variable of smallest domain whatever its degree. */
  function SelectAsWrittenFrom(cw: Crossword, d: Domains, a: Assignment, k: nat, best: Option<Variable>): (r: Option<Variable>)
    requires Covers(cw, d) && k <= |cw.variables|
    requires best.Some? ==> best.value in cw.variables && best.value !in a
    ensures r.Some? ==> r.value in cw.variables && r.value !in a
    decreases |cw.variables| - k
  {
    if k == |cw.variables| then best
    else
      var v := cw.variables[k];
      var next := if v !in a && (best.None? || |d[v]| <= |d[best.value]|) then Some(v) else best;
      SelectAsWrittenFrom(cw, d, a, k + 1, next)
  }

  // Three variables: A and B have one-word domains; A crosses C, B crosses
  // nothing.
  const SlotA := Variable(0, 0, Across, 3)
  const SlotB := Variable(2, 0, Across, 3)
  const SlotC := Variable(0, 0, Down, 2)
  const TieBreakPuzzle := Crossword([SlotA, SlotB, SlotC],
                                    map[(SlotA, SlotC) := (0, 0), (SlotC, SlotA) := (0, 0)],
                                    {"CAT", "DOG", "CO", "CU"})
  const TieBreakDomains: Domains := map[SlotA := {"CAT"}, SlotB := {"DOG"}, SlotC := {"CO", "CU"}]

  /** On that puzzle A and B tie on domain size and A has the higher degree:
      the documented choice is A, the code as written picks B. */
  lemma SelectAsWrittenIgnoresDegree()
    ensures Covers(TieBreakPuzzle, TieBreakDomains)
    ensures SelectAsWrittenFrom(TieBreakPuzzle, TieBreakDomains, map[], 0, None) == Some(SlotB)
    ensures SelectUnassignedVariable(TieBreakPuzzle, TieBreakDomains, map[]) == SlotA
    ensures Degree(TieBreakPuzzle, SlotB) < Degree(TieBreakPuzzle, SlotA)
  {
    var cw := TieBreakPuzzle;
    assert cw.Neighbors(SlotA) == {SlotC};
    assert cw.Neighbors(SlotB) == {};
    assert cw.Neighbors(SlotC) == {SlotA};
    var d := TieBreakDomains;
    assert |d[SlotC]| == 2;
    assert SelectAsWrittenFrom(cw, d, map[], 2, Some(SlotB)) == Some(SlotB);
    assert SelectAsWrittenFrom(cw, d, map[], 1, Some(SlotA)) == Some(SlotB);
  }

  // A three-letter slot A across, crossed at its first letter by B and at
  // its last by C; the puzzle yields its variables in the order C, A, B.
  const KeyA := Variable(0, 0, Across, 3)
  const KeyB := Variable(0, 0, Down, 3)
  const KeyC := Variable(0, 2, Down, 2)
  const KeyPuzzle := Crossword([KeyC, KeyA, KeyB],
                               map[(KeyA, KeyB) := (0, 0), (KeyB, KeyA) := (0, 0),
                                   (KeyA, KeyC) := (2, 0), (KeyC, KeyA) := (0, 2)],
                               {"CAT", "COW", "OX", "UP"})
  const KeyDomains: Domains := map[KeyA := {"CAT", "COW"}, KeyB := {"CAT", "COW"}, KeyC := {"OX", "UP"}]

  lemma KeyPuzzleValid()
    ensures KeyPuzzle.Valid() && Covers(KeyPuzzle, KeyDomains)
  {
    var cw := KeyPuzzle;
    assert KeyA != KeyB && KeyA != KeyC && KeyB != KeyC;
    assert cw.overlaps.Keys == {(KeyA, KeyB), (KeyB, KeyA), (KeyA, KeyC), (KeyC, KeyA)};
    forall x | x in cw.overlaps
      ensures x.0 in cw.variables && x.1 in cw.variables && x.0 != x.1
      ensures (x.1, x.0) in cw.overlaps && cw.overlaps[(x.1, x.0)] == (cw.overlaps[x].1, cw.overlaps[x].0)
    {
      assert x == (KeyA, KeyB) || x == (KeyB, KeyA) || x == (KeyA, KeyC) || x == (KeyC, KeyA);
    }
  }

  /** The domains are what `enforce_node_consistency` makes of the word
      list that `__init__` gives every variable; `ac3` as written never
      processes its arcs, so `backtrack` searches in these domains. */
  lemma KeyDomainsNodeConsistent()
    ensures KeyDomains == map v | v in KeyPuzzle.variables :: FitLength(v, KeyPuzzle.words)
  {
    var words := KeyPuzzle.words;
    assert FitLength(KeyA, words) == {"CAT", "COW"} by {
      assert forall w :: w in FitLength(KeyA, words) <==> w in words && |w| == 3;
    }
    assert FitLength(KeyC, words) == {"OX", "UP"} by {
      assert forall w :: w in FitLength(KeyC, words) <==> w in words && |w| == 2;
    }
    var m := map v | v in KeyPuzzle.variables :: FitLength(v, words);
    assert m.Keys == KeyDomains.Keys;
  }

  /** The first two choices of `backtrack` as written from the empty
      assignment on these domains: the selection as written picks B (all
      three domains have two words, and it keeps the last); B's two words
      both have key 0 as written, so the order in which they are tried is
      the domain set's iteration order; and with "COW" given to B, which is
      consistent, it picks A next and asks for the order of A's words. */
  lemma KeySearchState()
    ensures KeyPuzzle.Valid() && Covers(KeyPuzzle, KeyDomains)
    ensures KeyPuzzle.Neighbors(KeyB) == {KeyA} && KeyPuzzle.Neighbors(KeyA) == {KeyB, KeyC}
    ensures SelectAsWrittenFrom(KeyPuzzle, KeyDomains, map[], 0, None) == Some(KeyB)
    ensures RuledOutAsWritten(KeyPuzzle, KeyDomains, KeyB, "CAT", map[], [KeyA]) == 0
    ensures RuledOutAsWritten(KeyPuzzle, KeyDomains, KeyB, "COW", map[], [KeyA]) == 0
    ensures "COW" in KeyDomains[KeyB] && Consistent(KeyPuzzle, map[KeyB := "COW"])
    ensures SelectAsWrittenFrom(KeyPuzzle, KeyDomains, map[KeyB := "COW"], 0, None) == Some(KeyA)
  {
    KeyPuzzleValid();
    KeyNeighbours();
    KeySelections();
    KeyOfB("CAT");
    KeyOfB("COW");
  }

  lemma KeyNeighbours()
    ensures KeyPuzzle.Neighbors(KeyB) == {KeyA} && KeyPuzzle.Neighbors(KeyA) == {KeyB, KeyC}
    ensures Consistent(KeyPuzzle, map[KeyB := "COW"])
  {
    var cw := KeyPuzzle;
    assert KeyA != KeyB && KeyA != KeyC && KeyB != KeyC;
    assert forall u :: u in cw.variables ==> u == KeyA || u == KeyB || u == KeyC;
    assert (KeyC, KeyA) in cw.overlaps && (KeyB, KeyA) in cw.overlaps && (KeyA, KeyB) in cw.overlaps;
  }

  /** The selection as written on the empty assignment and on B := "COW". */
  lemma KeySelections()
    ensures SelectAsWrittenFrom(KeyPuzzle, KeyDomains, map[], 0, None) == Some(KeyB)
    ensures SelectAsWrittenFrom(KeyPuzzle, KeyDomains, map[KeyB := "COW"], 0, None) == Some(KeyA)
  {
    var cw, d := KeyPuzzle, KeyDomains;
    assert |d[KeyA]| == 2 && |d[KeyB]| == 2 && |d[KeyC]| == 2;
    assert SelectAsWrittenFrom(cw, d, map[], 3, Some(KeyB)) == Some(KeyB);
    assert SelectAsWrittenFrom(cw, d, map[], 2, Some(KeyA)) == Some(KeyB);
    assert SelectAsWrittenFrom(cw, d, map[], 1, Some(KeyC)) == Some(KeyB);
    var a := map[KeyB := "COW"];
    assert SelectAsWrittenFrom(cw, d, a, 3, Some(KeyA)) == Some(KeyA);
    assert SelectAsWrittenFrom(cw, d, a, 2, Some(KeyA)) == Some(KeyA);
    assert SelectAsWrittenFrom(cw, d, a, 1, Some(KeyC)) == Some(KeyA);
  }

  /** Either word of B agrees with both words of A at their first letters. */
  lemma KeyOfB(w: string)
    requires w == "CAT" || w == "COW"
    ensures RuledOutAsWritten(KeyPuzzle, KeyDomains, KeyB, w, map[], [KeyA]) == 0
  {
    var d := KeyDomains;
    var bad := set u | u in d[KeyA] && !Agree(w, u, (0, 0));
    assert bad == {};
    assert Conflicts(w, d[KeyA], (0, 0)) == 0;
    assert [KeyA][1..] == [];
  }

  /** The documented key of "CAT" for A with B holding "COW": both words of C
      disagree with the "T" they cross. */
  lemma KeyOfCat()
    ensures RuledOut(KeyPuzzle, KeyDomains, KeyA, "CAT", map[KeyB := "COW"]) == 2
  {
    assert KeyA != KeyB && KeyA != KeyC && KeyB != KeyC;
    var cw, d, a := KeyPuzzle, KeyDomains, map[KeyB := "COW"];
    var bad := set w | w in d[KeyC] && !Agree("CAT", w, (2, 0));
    assert bad == {"OX", "UP"};
    assert Conflicts("CAT", d[KeyC], (2, 0)) == 2;
    var vs := cw.variables;
    assert vs[1..] == [KeyA, KeyB] && vs[1..][1..] == [KeyB] && [KeyB][1..] == [];
    assert RuledOutOver(cw, d, KeyA, "CAT", a, [KeyB]) == 0;
    assert RuledOutOver(cw, d, KeyA, "CAT", a, [KeyA, KeyB]) == 0;
    assert RuledOutOver(cw, d, KeyA, "CAT", a, vs) == 2;
  }

  /** In the state `KeySearchState` shows `backtrack` as written can reach
      (B holding "COW", A selected next), with A's neighbours visited as B
      then C, the key of A's word "CAT" as written is 0, while "CAT" rules
      out both words of C ("T" against "O" and "U"), which is what the
      documented key counts. */
  lemma RuledOutAsWrittenStopsEarly()
    ensures KeyPuzzle.Valid() && Covers(KeyPuzzle, KeyDomains)
    ensures KeyDomains == map v | v in KeyPuzzle.variables :: FitLength(v, KeyPuzzle.words)
    ensures "CAT" in KeyDomains[KeyA]
    ensures Consistent(KeyPuzzle, map[KeyB := "COW"]) && KeyA !in map[KeyB := "COW"]
    ensures SelectAsWrittenFrom(KeyPuzzle, KeyDomains, map[KeyB := "COW"], 0, None) == Some(KeyA)
    ensures forall u :: u in [KeyB, KeyC] <==> u in KeyPuzzle.Neighbors(KeyA)
    ensures KeyB != KeyC
    ensures RuledOutAsWritten(KeyPuzzle, KeyDomains, KeyA, "CAT", map[KeyB := "COW"], [KeyB, KeyC]) == 0
    ensures RuledOut(KeyPuzzle, KeyDomains, KeyA, "CAT", map[KeyB := "COW"]) == 2
  {
    KeyDomainsNodeConsistent();
    KeySearchState();
    KeyOfCat();
  }

  /** A word of `ws` whose key is least: one step of the selection sort
      that stands for the source's `sorted`. */
  method LeastKey(key: map<string, nat>, ws: set<string>) returns (best: string)
    requires ws != {} && ws <= key.Keys
    ensures best in ws
    ensures forall w :: w in ws ==> key[best] <= key[w]
  {
    best :| best in ws;
    var unseen := ws - {best};
    while unseen != {}
      invariant unseen <= ws && best in ws && best !in unseen
      invariant forall w :: w in ws && w !in unseen ==> key[best] <= key[w]
      decreases unseen
    {
      var w :| w in unseen;
      if key[w] < key[best] {
        best := w;
      }
      unseen := unseen - {w};
    }
  }

  /** The words of `ws`, each once, by ascending key: a selection sort
      that repeatedly takes a word of least key among those left. */
  method SortByKey(key: map<string, nat>, ws: set<string>) returns (ordered: seq<string>)
    requires ws <= key.Keys
    ensures forall w :: w in ordered <==> w in ws
    ensures forall n, m :: 0 <= n < m < |ordered| ==> ordered[n] != ordered[m]
    ensures forall n, m :: 0 <= n < m < |ordered| ==> key[ordered[n]] <= key[ordered[m]]
  {
    ordered := [];
    var remaining := ws;
    while remaining != {}
      invariant remaining <= ws
      invariant forall w :: w in ordered <==> w in ws && w !in remaining
      invariant forall n, m :: 0 <= n < m < |ordered| ==> ordered[n] != ordered[m]
      invariant forall n, m :: 0 <= n < m < |ordered| ==> key[ordered[n]] <= key[ordered[m]]
      invariant forall n, w :: 0 <= n < |ordered| && w in remaining ==> key[ordered[n]] <= key[w]
      decreases remaining
    {
      var best := LeastKey(key, remaining);
      ordered := ordered + [best];
      remaining := remaining - {best};
    }
  }

  // ------------------------------------------------------------- the creator

  /** The solver's state: the fixed puzzle and the mutable domain store. */
  class CrosswordCreator {
    const crossword: Crossword
    var domains: Domains

    ghost predicate Valid()
      reads this
    {
      crossword.Valid() && Covers(crossword, domains)
    }

    /** `__init__`: every variable starts with the whole word list. */
    constructor (crossword: Crossword)
      requires crossword.Valid()
      ensures Valid() && this.crossword == crossword
      ensures domains == map v | v in crossword.variables :: crossword.words
    {
      this.crossword := crossword;
      domains := map v | v in crossword.variables :: crossword.words;
    }

    /** `enforce_node_consistency`: drop from each domain the words whose
        length is not the variable's. */
    method EnforceNodeConsistency()
      requires Valid()
      modifies this
      ensures Valid()
      ensures domains == map v | v in old(domains) :: FitLength(v, old(domains)[v])
    {
      var todo := domains.Keys;
      while todo != {}
        invariant todo <= old(domains).Keys && domains.Keys == old(domains).Keys
        invariant forall v :: v in domains ==>
                    domains[v] == if v in todo then old(domains)[v] else FitLength(v, old(domains)[v])
        decreases todo
      {
        var variable :| variable in todo;
        var wordsToRemove := WrongLength(variable, domains[variable]);
        RemoveWords(variable, wordsToRemove);
        todo := todo - {variable};
      }
    }

    /** The first pass of `enforce_node_consistency` over one domain: the
        words of the wrong length. */
    static method WrongLength(variable: Variable, words: set<string>) returns (wrong: set<string>)
      ensures wrong == words - FitLength(variable, words)
    {
      wrong := {};
      var unseen := words;
      while unseen != {}
        invariant unseen <= words
        invariant wrong == set w | w in words - unseen && |w| != variable.length
        decreases unseen
      {
        var word :| word in unseen;
        if |word| != variable.length {
          wrong := wrong + {word};
        }
        unseen := unseen - {word};
      }
    }

    /** The second pass: remove the collected words from the domain one at a
        time. */
    method RemoveWords(variable: Variable, words: set<string>)
      requires variable in domains
      modifies this
      ensures domains == old(domains)[variable := old(domains)[variable] - words]
    {
      var pending := words;
      while pending != {}
        invariant pending <= words
        invariant domains.Keys == old(domains).Keys
        invariant domains[variable] == old(domains)[variable] - (words - pending)
        invariant forall v :: v in domains && v != variable ==> domains[v] == old(domains)[v]
        decreases pending
      {
        var word :| word in pending;
        domains := domains[variable := domains[variable] - {word}];
        pending := pending - {word};
      }
      assert words - pending == words;
      assert domains == old(domains)[variable := old(domains)[variable] - words];
    }

    /** `revise(x, y)`: remove from x's domain every word that no word of
        y's domain agrees with at their overlap; report whether any was
        removed. */
    method Revise(x: Variable, y: Variable) returns (revised: bool)
      requires Valid() && x in crossword.variables && y in crossword.variables && x != y
      modifies this
      ensures Valid()
      ensures domains == AfterRevise(crossword, old(domains), x, y)
      ensures revised <==> domains[x] != old(domains)[x]
    {
      revised := false;
      var overlap := crossword.Overlap(x, y);
      if overlap.None? {
        assert domains[x := domains[x]] == domains;
        return;
      }
      var ov := overlap.value;
      ghost var dx := domains[x];
      var dy := domains[y];
      // The source walks x's domain while removing from it; the model walks
      // a snapshot of it.
      var unchecked := domains[x];
      while unchecked != {}
        invariant unchecked <= dx && x in domains
        invariant domains == old(domains)[x := domains[x]]
        invariant domains[x] == set w | w in dx && (w in unchecked || Supported(w, dy, ov))
        invariant revised <==> domains[x] != dx
        decreases unchecked
      {
        var word :| word in unchecked;
        var optionExists := false;
        var others := dy;
        while others != {} && !optionExists
          invariant others <= dy
          invariant optionExists ==> Supported(word, dy, ov)
          invariant !optionExists ==> forall w2 :: w2 in dy - others ==> !Agree(word, w2, ov)
          decreases others
        {
          var otherWord :| otherWord in others;
          if Agree(word, otherWord, ov) {
            optionExists := true;
          }
          others := others - {otherWord};
        }
        if !optionExists {
          assert word in domains[x];
          domains := domains[x := domains[x] - {word}];
          revised := true;
        }
        unchecked := unchecked - {word};
      }
      assert domains[x] == Revised(dx, dy, overlap);
    }

    /** The initial queue `ac3` builds when given no arcs: every ordered pair
        of overlapping variables, in variable order. */
    method InitialArcs() returns (arcs: seq<Arc>)
      requires Valid()
      ensures forall a :: a in arcs <==> IsArc(crossword, a) && a in crossword.overlaps
    {
      arcs := [];
      var vars := crossword.variables;
      for n := 0 to |vars|
        invariant forall a :: a in arcs <==> a in crossword.overlaps && a.0 in vars[..n] && a.1 in vars && a.0 != a.1
      {
        var more := ArcsOf(vars[n]);
        arcs := arcs + more;
        assert vars[..n + 1] == vars[..n] + [vars[n]];
      }
      assert vars[..|vars|] == vars;
    }

    /** The arcs out of one variable, in variable order: the inner loop of
        `ac3`'s initial queue. */
    method ArcsOf(x: Variable) returns (arcs: seq<Arc>)
      ensures forall a :: a in arcs <==>
                a.0 == x && a.1 in crossword.variables && a.1 != x && a in crossword.overlaps
    {
      arcs := [];
      var vars := crossword.variables;
      for m := 0 to |vars|
        invariant forall a :: a in arcs <==>
                    a.0 == x && a.1 in vars[..m] && a.1 != x && a in crossword.overlaps
      {
        if x != vars[m] && (x, vars[m]) in crossword.overlaps {
          arcs := arcs + [(x, vars[m])];
        }
        assert vars[..m + 1] == vars[..m] + [vars[m]];
      }
      assert vars[..|vars|] == vars;
    }

    /** The tail of `ac3`'s loop body: queue (z, x) for every neighbour z of
        x other than y that is not queued already. */
    method Requeue(queue: seq<Arc>, x: Variable, y: Variable) returns (q: seq<Arc>)
      requires Valid() && x in crossword.variables
      requires forall a :: a in queue ==> IsArc(crossword, a)
      ensures queue <= q
      ensures forall a :: a in q ==> IsArc(crossword, a)
      ensures forall a :: a in q && a !in queue ==> a.1 == x && a.0 != y && a in crossword.overlaps
      ensures forall z :: z in crossword.variables && z != x && z != y && (z, x) in crossword.overlaps ==> (z, x) in q
    {
      q := queue;
      var vars := crossword.variables;
      for k := 0 to |vars|
        invariant queue <= q
        invariant forall a :: a in q ==> IsArc(crossword, a)
        invariant forall a :: a in q && a !in queue ==> a.1 == x && a.0 != y && a in crossword.overlaps
        invariant forall z :: z in vars[..k] && z != x && z != y && (z, x) in crossword.overlaps ==> (z, x) in q
      {
        var z := vars[k];
        if z != x && z != y && (z, x) in crossword.overlaps && (z, x) !in q {
          q := q + [(z, x)];
        }
        assert vars[..k + 1] == vars[..k] + [z];
      }
      assert vars[..|vars|] == vars;
    }

    /** `ac3(arcs)`: revise arcs taken from the front of a queue until it is
        empty, queueing (z, x) again for each other neighbour z of a
        variable x whose domain shrank; fail as soon as a domain empties.
        Starting from every arc when `arcs` is `None`, the domains end arc
        consistent; starting from a given list, they do when every arc left
        out of it was consistent to begin with. */
    method AC3(arcs: Option<seq<Arc>>) returns (ok: bool)
      requires Valid()
      requires arcs.Some? ==> forall a :: a in arcs.value ==> IsArc(crossword, a)
      modifies this
      ensures Valid()
      ensures Shrinks(old(domains), domains)
      ensures KeepsSolutions(crossword, old(domains), domains)
      ensures ok <==> forall v :: v in domains ==> domains[v] != {}
      ensures ok && (arcs.None? || forall a :: IsArc(crossword, a) && a !in arcs.value ==> ArcConsistentAt(crossword, old(domains), a))
              ==> ArcConsistent(crossword, domains)
    {
      var queue: seq<Arc>;
      if arcs.None? {
        queue := InitialArcs();
      } else {
        queue := arcs.value;
      }
      ghost var tracked := ConsistentOutside(crossword, domains, queue);
      while queue != []
        invariant Valid()
        invariant AC3Invariant(crossword, old(domains), domains, queue, tracked)
        decreases Pairs(domains), |queue|
      {
        var failed;
        queue, failed := ProcessArc(queue, old(domains), tracked);
        if failed {
          return false;
        }
      }
      // the documented result: False when any domain ends up empty
      ok := forall v | v in domains :: domains[v] != {};
      if ok && arcs.Some? && forall a :: IsArc(crossword, a) && a !in arcs.value ==> ArcConsistentAt(crossword, old(domains), a) {
        assert tracked;
      }
    }

    /** One round of `ac3`'s loop: revise the first arc (x, y) of the queue;
        when x's domain shrank, report failure if it emptied and otherwise
        queue the arcs into x again. */
    method ProcessArc(queue: seq<Arc>, ghost start: Domains, ghost tracked: bool) returns (q: seq<Arc>, failed: bool)
      requires Valid() && queue != []
      requires AC3Invariant(crossword, start, domains, queue, tracked)
      modifies this
      ensures Valid()
      ensures Shrinks(start, domains) && KeepsSolutions(crossword, start, domains)
      ensures failed ==> exists v :: v in domains && domains[v] == {}
      ensures !failed ==> AC3Invariant(crossword, start, domains, q, tracked)
      ensures !failed ==> Pairs(domains) < old(Pairs(domains)) || (domains == old(domains) && |q| < |queue|)
    {
      assert IsArc(crossword, queue[0]);
      var (x, y) := queue[0];
      ghost var before := domains;
      ghost var rest := queue[1..];
      assert queue == [(x, y)] + rest;
      q := queue[1..];
      var revised := Revise(x, y);
      ArcStepKeepsSolutions(crossword, start, before, x, y);
      failed := false;
      if revised {
        if domains[x] == {} {
          failed := true;
          return;
        }
        RemovalShrinksPairs(before, x, domains[x]);
        q := Requeue(q, x, y);
      } else {
        assert domains == before;
      }
      ArcStepKeepsInvariant(crossword, start, before, x, y, rest, q, tracked);
    }

    /** `order_domain_values(var, assignment)`: the words of `var`'s domain,
        each once, by ascending `RuledOut`. Words with equal keys come in an
        unspecified order, as the source's stable sort of a set leaves them. */
    method OrderDomainValues(variable: Variable, assignment: Assignment) returns (ordered: seq<string>)
      requires Valid() && variable in domains
      ensures forall w :: w in ordered <==> w in domains[variable]
      ensures forall n, m :: 0 <= n < m < |ordered| ==> ordered[n] != ordered[m]
      ensures forall n, m :: 0 <= n < m < |ordered| ==>
                RuledOut(crossword, domains, variable, ordered[n], assignment) <=
                RuledOut(crossword, domains, variable, ordered[m], assignment)
    {
      // the key of each word, computed once as the source's sort does
      var key := map w | w in domains[variable] :: RuledOut(crossword, domains, variable, w, assignment);
      ordered := SortByKey(key, domains[variable]);
    }

    /** `backtrack(assignment)`: depth-first search over the remaining
        domains. A result completes `assignment` with words from the domains
        and is a solution exactly when `assignment` is consistent; `None`
        means no such completion exists. */
    method Backtrack(assignment: Assignment) returns (result: Option<Assignment>)
      requires Valid()
      requires forall v :: v in assignment ==> v in crossword.variables
      ensures result.Some? ==> Extends(crossword, domains, assignment, result.value)
      ensures result.Some? ==> (Consistent(crossword, result.value) <==> Consistent(crossword, assignment))
      ensures result.None? ==> forall s :: !Completes(crossword, domains, assignment, s)
      decreases |Unassigned(crossword, assignment)|, 1
    {
      if AssignmentComplete(crossword, assignment) {
        return Some(assignment);
      }
      var variable := SelectUnassignedVariable(crossword, domains, assignment);
      var values := OrderDomainValues(variable, assignment);
      for k := 0 to |values|
        invariant forall s :: Completes(crossword, domains, assignment, s) ==> s[variable] !in values[..k]
      {
        var r := TryValue(assignment, variable, values[k]);
        if r.Some? {
          return r;
        }
        assert values[..k + 1] == values[..k] + [values[k]];
      }
      assert values[..|values|] == values;
      NoValueLeft(crossword, domains, assignment, variable, values);
      return None;
    }

    /** `consistent(assignment)`: for each assigned variable in turn, its
        word must not be one seen before and must have the variable's
        length, and then every assigned pair of neighbours must agree. */
    method IsConsistent(assignment: Assignment) returns (ok: bool)
      requires Valid()
      ensures ok == Consistent(crossword, assignment)
    {
      var seen: set<string> := {};
      var visited: set<Variable> := {};
      var keys := assignment.Keys;
      while keys != {}
        invariant keys <= assignment.Keys && visited == assignment.Keys - keys
        invariant seen == set u | u in visited :: assignment[u]
        invariant forall u, v :: u in visited && v in visited && u != v ==> assignment[u] != assignment[v]
        invariant forall v :: v in visited ==> |assignment[v]| == v.length
        invariant visited != {} ==> forall u, v :: u in assignment && v in assignment && (u, v) in crossword.overlaps ==>
                                      Agree(assignment[u], assignment[v], crossword.overlaps[(u, v)])
        decreases keys
      {
        var key :| key in keys;
        var value := assignment[key];
        if value in seen {
          var u :| u in visited && assignment[u] == value;
          assert u != key;
          return false;
        }
        seen := seen + {value};
        if |value| != key.length {
          return false;
        }
        var agree := AllNeighboursAgree(assignment);
        if !agree {
          return false;
        }
        keys := keys - {key};
        visited := visited + {key};
      }
      return true;
    }

    /** The inner loops of `consistent`: every assigned variable agrees with
        each of its assigned neighbours. */
    method AllNeighboursAgree(assignment: Assignment) returns (ok: bool)
      requires Valid()
      ensures ok <==> forall u, v :: u in assignment && v in assignment && (u, v) in crossword.overlaps ==>
                        Agree(assignment[u], assignment[v], crossword.overlaps[(u, v)])
    {
      var items := assignment.Keys;
      while items != {}
        invariant items <= assignment.Keys
        invariant forall u, v :: u in assignment - items && v in assignment && (u, v) in crossword.overlaps ==>
                    Agree(assignment[u], assignment[v], crossword.overlaps[(u, v)])
        decreases items
      {
        var key :| key in items;
        var agree := NeighboursAgree(assignment, key);
        if !agree {
          return false;
        }
        items := items - {key};
      }
      return true;
    }

    /** The neighbour loop of `consistent` for the assigned variable `key`. */
    method NeighboursAgree(assignment: Assignment, key: Variable) returns (ok: bool)
      requires Valid() && key in assignment
      ensures ok <==> forall v :: v in assignment && (key, v) in crossword.overlaps ==>
                        Agree(assignment[key], assignment[v], crossword.overlaps[(key, v)])
    {
      forall v | v in assignment ensures (key, v) in crossword.overlaps <==> v in crossword.Neighbors(key) {
        OverlapsAreNeighbors(crossword, key, v);
      }
      var neighbours := crossword.Neighbors(key);
      while neighbours != {}
        invariant neighbours <= crossword.Neighbors(key)
        invariant forall v :: v in crossword.Neighbors(key) - neighbours && v in assignment ==>
                    Agree(assignment[key], assignment[v], crossword.overlaps[(key, v)])
        decreases neighbours
      {
        var neighbour :| neighbour in neighbours;
        if neighbour in assignment {
          OverlapsAreNeighbors(crossword, key, neighbour);
          if !Agree(assignment[key], assignment[neighbour], crossword.overlaps[(key, neighbour)]) {
            return false;
          }
        }
        neighbours := neighbours - {neighbour};
      }
      return true;
    }

    /** One turn of `backtrack`'s loop: give the unassigned `variable` the
        word `value`; when the result is consistent, search on from it. */
    method TryValue(assignment: Assignment, variable: Variable, value: string) returns (result: Option<Assignment>)
      requires Valid()
      requires forall v :: v in assignment ==> v in crossword.variables
      requires variable in crossword.variables && variable !in assignment && value in domains[variable]
      ensures result.Some? ==> Extends(crossword, domains, assignment, result.value)
      ensures result.Some? ==> (Consistent(crossword, result.value) <==> Consistent(crossword, assignment))
      ensures result.None? ==> forall s :: Completes(crossword, domains, assignment, s) ==> s[variable] != value
      decreases |Unassigned(crossword, assignment)|, 0
    {
      var extended := assignment[variable := value];
      var consistent := IsConsistent(extended);
      if consistent {
        UnassignedShrinks(crossword, assignment, variable, value);
        result := Backtrack(extended);
        if result.Some? {
          CompletesStep(crossword, domains, assignment, variable, value, result.value);
          ConsistentSub(crossword, assignment, extended);
          return;
        }
      }
      RejectValue(crossword, domains, assignment, variable, value, extended);
      result := None;
    }

    /** `solve`: enforce node and arc consistency, then search from the
        empty assignment. The result is a solution using only words the
        domains held; `None` means the domains held no solution. */
    method Solve() returns (result: Option<Assignment>)
      requires Valid()
      modifies this
      ensures Valid()
      ensures result.Some? ==> IsSolution(crossword, result.value) && Within(result.value, old(domains))
      ensures result.None? ==> forall s :: IsSolution(crossword, s) ==> !Within(s, old(domains))
    {
      EnforceNodeConsistency();
      NodeFilterSound(crossword, old(domains), domains);
      ghost var filtered := domains;
      var arcConsistent := AC3(None);
      KeepsSolutionsTrans(crossword, old(domains), filtered, domains);
      ShrinksTrans(old(domains), filtered, domains);
      result := Backtrack(map[]);
      if result.None? {
        forall s | IsSolution(crossword, s) && Within(s, old(domains))
          ensures false
        {
          assert Completes(crossword, domains, map[], s);
        }
      }
    }
  }
}
