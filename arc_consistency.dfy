/**
  AC-3 as a function of the domain store and the arc queue: the loop of
  `ac3`, one popped arc per step. `Ac3Run` re-enqueues arcs the way the
  code does, (x, z) after x was pruned; `Ac3RunStandard` re-enqueues
  (z, x), the textbook rule, and is the one proved arc consistent.
 */
module ArcConsistency {
  import opened Puzzle
  import opened Assignments
  import opened Domains

  /** Every queued arc joins two distinct variables. */
  ghost predicate ValidArcs(cw: Crossword, q: seq<Arc>) {
    forall a :: a in q ==> cw.IsArc(a.0, a.1)
  }

  /** The arcs (x, n) for the listed n, in order. */
  function ArcsOf(x: Variable, ns: seq<Variable>): (r: seq<Arc>)
    ensures forall a :: a in r <==> a.0 == x && a.1 in ns
  {
    if ns == [] then [] else ArcsOf(x, ns[..|ns| - 1]) + [(x, ns[|ns| - 1])]
  }

  /** The arcs (v, n) for v in vs and n in neighbors(v), in iteration order. */
  function ArcsFrom(cw: Crossword, vs: seq<Variable>): (r: seq<Arc>)
    requires forall v :: v in vs ==> v in cw.neighbors
    ensures forall a :: a in r <==> a.0 in vs && a.1 in cw.neighbors[a.0]
  {
    if vs == [] then []
    else
      var v := vs[|vs| - 1];
      ArcsFrom(cw, vs[..|vs| - 1]) + ArcsOf(v, cw.neighbors[v])
  }

  /** The queue `ac3` starts from when it is given no arcs. */
  function AllArcs(cw: Crossword): (r: seq<Arc>)
    requires cw.Valid()
    ensures forall a :: a in r <==> a.0 in cw.variables && a.1 in cw.neighbors[a.0]
  {
    ArcsFrom(cw, cw.variables)
  }

  /** The default queue holds exactly the arcs of overlapping variables. */
  lemma {:induction false} AllArcsAreOverlaps(cw: Crossword)
    requires cw.Valid()
    ensures ValidArcs(cw, AllArcs(cw))
    ensures forall x, y :: cw.IsArc(x, y) ==> ((x, y) in AllArcs(cw) <==> cw.overlaps[(x, y)].Some?)
  {
    forall a | a in AllArcs(cw) ensures cw.IsArc(a.0, a.1) {
      NeighborIsArc(cw, a.0, a.1);
    }
  }

  /** What `ac3` appends after pruning x on arc (x, y): (x, z) for z in neighbors(x) - {y}. */
  function Requeue(x: Variable, ns: seq<Variable>, y: Variable): (r: seq<Arc>)
    ensures forall a :: a in r <==> a.0 == x && a.1 in ns && a.1 != y
  {
    if ns == [] then []
    else
      var z := ns[|ns| - 1];
      Requeue(x, ns[..|ns| - 1], y) + (if z != y then [(x, z)] else [])
  }

  /** The textbook rule: (z, x) for z in neighbors(x) - {y}. */
  function RequeueStandard(x: Variable, ns: seq<Variable>, y: Variable): (r: seq<Arc>)
    ensures forall a :: a in r <==> a.1 == x && a.0 in ns && a.0 != y
  {
    if ns == [] then []
    else
      var z := ns[|ns| - 1];
      RequeueStandard(x, ns[..|ns| - 1], y) + (if z != y then [(z, x)] else [])
  }

  /** The re-enqueued arcs join distinct variables. */
  lemma RequeueValid(cw: Crossword, q: seq<Arc>, x: Variable, y: Variable)
    requires cw.Valid() && x in cw.variables && ValidArcs(cw, q)
    ensures ValidArcs(cw, q + Requeue(x, cw.neighbors[x], y))
    ensures ValidArcs(cw, q + RequeueStandard(x, cw.neighbors[x], y))
  {
    forall z | z in cw.neighbors[x] ensures cw.IsArc(x, z) && cw.IsArc(z, x) {
      NeighborIsArc(cw, x, z);
    }
  }

  /**
    The `while` loop of `ac3` as written: pop the oldest arc, revise it,
    fail as soon as the revised domain is empty, otherwise re-enqueue
    (x, z) for the other neighbours z of x. The result is the returned
    flag and the store. Every step either strictly shrinks the store or
    shortens the queue.
   */
  function Ac3Run(cw: Crossword, d: Domains, q: seq<Arc>): (r: (bool, Domains))
    requires cw.Valid() && d.Keys == cw.VariableSet() && ValidArcs(cw, q)
    ensures r.1.Keys == d.Keys
    ensures forall v :: v in d ==> r.1[v] <= d[v]
    ensures !r.0 ==> exists x :: x in d && r.1[x] == {} && d[x] != {}
    decreases TotalSize(cw.variables, d), |q|
  {
    if q == [] then (true, d)
    else
      var (x, y) := q[0];
      var (revised, d') := ReviseStep(cw, d, x, y);
      if !revised then Ac3Run(cw, d', q[1..])
      else if d'[x] == {} then (false, d')
      else
        TotalSizeShrinks(cw.variables, d, d', x);
        RequeueValid(cw, q[1..], x, y);
        Ac3Run(cw, d', q[1..] + Requeue(x, cw.neighbors[x], y))
  }

  /** One step of `Ac3Run` on an arc that `revise` leaves alone. */
  lemma Ac3RunSkips(cw: Crossword, d: Domains, q: seq<Arc>)
    requires cw.Valid() && d.Keys == cw.VariableSet() && ValidArcs(cw, q) && q != []
    requires ReviseStep(cw, d, q[0].0, q[0].1) == (false, d)
    ensures ValidArcs(cw, q[1..])
    ensures Ac3Run(cw, d, q) == Ac3Run(cw, d, q[1..])
  {
  }

  /** One step of `Ac3Run` on an arc that prunes x without emptying it. */
  lemma Ac3RunPrunes(cw: Crossword, d: Domains, q: seq<Arc>, d': Domains)
    requires cw.Valid() && d.Keys == cw.VariableSet() && ValidArcs(cw, q) && q != []
    requires ReviseStep(cw, d, q[0].0, q[0].1) == (true, d') && d'[q[0].0] != {}
    ensures ValidArcs(cw, q[1..] + Requeue(q[0].0, cw.neighbors[q[0].0], q[0].1))
    ensures Ac3Run(cw, d, q) == Ac3Run(cw, d', q[1..] + Requeue(q[0].0, cw.neighbors[q[0].0], q[0].1))
  {
    RequeueValid(cw, q[1..], q[0].0, q[0].1);
  }

  /** One step of `Ac3Run` on an arc whose revision empties x: the loop stops with failure. */
  lemma Ac3RunEmpties(cw: Crossword, d: Domains, q: seq<Arc>, d': Domains)
    requires cw.Valid() && d.Keys == cw.VariableSet() && ValidArcs(cw, q) && q != []
    requires ReviseStep(cw, d, q[0].0, q[0].1) == (true, d') && d'[q[0].0] == {}
    ensures Ac3Run(cw, d, q) == (false, d')
  {
  }

  /** AC-3 with the textbook re-enqueueing rule; otherwise the same loop. */
  function Ac3RunStandard(cw: Crossword, d: Domains, q: seq<Arc>): (r: (bool, Domains))
    requires cw.Valid() && d.Keys == cw.VariableSet() && ValidArcs(cw, q)
    ensures r.1.Keys == d.Keys
    ensures forall v :: v in d ==> r.1[v] <= d[v]
    ensures !r.0 ==> exists x :: x in d && r.1[x] == {} && d[x] != {}
    decreases TotalSize(cw.variables, d), |q|
  {
    if q == [] then (true, d)
    else
      var (x, y) := q[0];
      var (revised, d') := ReviseStep(cw, d, x, y);
      if !revised then Ac3RunStandard(cw, d', q[1..])
      else if d'[x] == {} then (false, d')
      else
        TotalSizeShrinks(cw.variables, d, d', x);
        RequeueValid(cw, q[1..], x, y);
        Ac3RunStandard(cw, d', q[1..] + RequeueStandard(x, cw.neighbors[x], y))
  }

  /** On an arc consistent store, AC-3 as written changes nothing and succeeds. */
  lemma {:induction false} Ac3RunFixpoint(cw: Crossword, d: Domains, q: seq<Arc>)
    requires cw.Valid() && d.Keys == cw.VariableSet() && ValidArcs(cw, q) && ArcConsistent(cw, d)
    ensures Ac3Run(cw, d, q) == (true, d)
    decreases |q|
  {
    if q != [] {
      var (x, y) := q[0];
      assert cw.IsArc(x, y);
      ReviseOnSupported(cw, d, x, y);
      Ac3RunFixpoint(cw, d, q[1..]);
    }
  }

  /** s assigns every variable a word of its domain, with agreeing letters at every overlap. */
  ghost predicate SolutionWithin(cw: Crossword, s: Assignment, d: Domains)
    requires d.Keys == cw.VariableSet()
  {
    IsComplete(cw, s) && OverlapsAgree(cw, s) && forall v :: v in cw.variables ==> s.entries[v] in d[v]
  }

  /** `revise` never removes a word that belongs to a solution. */
  lemma ReviseKeepsSolution(cw: Crossword, d: Domains, x: Variable, y: Variable, s: Assignment)
    requires cw.Valid() && d.Keys == cw.VariableSet() && cw.IsArc(x, y) && SolutionWithin(cw, s, d)
    ensures SolutionWithin(cw, s, ReviseStep(cw, d, x, y).1)
  {
    if cw.overlaps[(x, y)].Some? {
      var (k, l) := cw.overlaps[(x, y)].value;
      assert Supports(s.entries[x], k, s.entries[y], l);
    }
  }

  /**
    AC-3 as written never prunes a solution away, so it succeeds whenever
    a solution lies within the store; a `False` from `ac3` therefore
    proves the puzzle unsolvable from that store.
   */
  lemma {:induction false} Ac3KeepsSolution(cw: Crossword, d: Domains, q: seq<Arc>, s: Assignment)
    requires cw.Valid() && d.Keys == cw.VariableSet() && ValidArcs(cw, q) && SolutionWithin(cw, s, d)
    ensures Ac3Run(cw, d, q).0 && SolutionWithin(cw, s, Ac3Run(cw, d, q).1)
    decreases TotalSize(cw.variables, d), |q|
  {
    if q != [] {
      var (x, y) := q[0];
      var (revised, d') := ReviseStep(cw, d, x, y);
      ReviseKeepsSolution(cw, d, x, y, s);
      assert s.entries[x] in d'[x];
      if !revised {
        Ac3KeepsSolution(cw, d', q[1..], s);
      } else {
        TotalSizeShrinks(cw.variables, d, d', x);
        RequeueValid(cw, q[1..], x, y);
        Ac3KeepsSolution(cw, d', q[1..] + Requeue(x, cw.neighbors[x], y), s);
      }
    }
  }

  /** The same for AC-3 with the textbook re-enqueueing rule. */
  lemma {:induction false} Ac3StandardKeepsSolution(cw: Crossword, d: Domains, q: seq<Arc>, s: Assignment)
    requires cw.Valid() && d.Keys == cw.VariableSet() && ValidArcs(cw, q) && SolutionWithin(cw, s, d)
    ensures Ac3RunStandard(cw, d, q).0 && SolutionWithin(cw, s, Ac3RunStandard(cw, d, q).1)
    decreases TotalSize(cw.variables, d), |q|
  {
    if q != [] {
      var (x, y) := q[0];
      var (revised, d') := ReviseStep(cw, d, x, y);
      ReviseKeepsSolution(cw, d, x, y, s);
      assert s.entries[x] in d'[x];
      if !revised {
        Ac3StandardKeepsSolution(cw, d', q[1..], s);
      } else {
        TotalSizeShrinks(cw.variables, d, d', x);
        RequeueValid(cw, q[1..], x, y);
        Ac3StandardKeepsSolution(cw, d', q[1..] + RequeueStandard(x, cw.neighbors[x], y), s);
      }
    }
  }

  /** Every arc that is not queued is supported. */
  ghost predicate QueueCovers(cw: Crossword, d: Domains, q: seq<Arc>)
    requires cw.Valid() && d.Keys == cw.VariableSet()
  {
    forall x, y :: cw.IsArc(x, y) && (x, y) !in q ==> ArcSupported(cw, d, x, y)
  }

  /** The default queue covers every store. */
  lemma AllArcsCover(cw: Crossword, d: Domains)
    requires cw.Valid() && d.Keys == cw.VariableSet()
    ensures QueueCovers(cw, d, AllArcs(cw))
  {
    AllArcsAreOverlaps(cw);
  }

  /** Shrinking the source domain of a supported arc, with its target unchanged, keeps it supported. */
  lemma SupportedAfterShrink(cw: Crossword, d: Domains, d': Domains, a: Variable, b: Variable)
    requires cw.Valid() && d.Keys == cw.VariableSet() && d'.Keys == d.Keys && cw.IsArc(a, b)
    requires ArcSupported(cw, d, a, b) && d'[a] <= d[a] && d'[b] == d[b]
    ensures ArcSupported(cw, d', a, b)
  {
  }

  /**
    Revising (x, y) keeps (y, x) supported: a word of x that supports a
    word of y is itself supported by it, because overlaps are symmetric.
   */
  lemma ReverseArcStaysSupported(cw: Crossword, d: Domains, x: Variable, y: Variable)
    requires cw.Valid() && d.Keys == cw.VariableSet() && cw.IsArc(x, y) && ArcSupported(cw, d, y, x)
    ensures ArcSupported(cw, ReviseStep(cw, d, x, y).1, y, x)
  {
    var d' := ReviseStep(cw, d, x, y).1;
    if cw.overlaps[(x, y)].Some? {
      var (k, l) := cw.overlaps[(x, y)].value;
      assert cw.overlaps[(y, x)] == Some((l, k));
      forall w | w in d'[y] ensures HasSupport(w, l, d'[x], k) {
        var w1 :| w1 in d[x] && Supports(w, l, w1, k);
        assert Supports(w1, k, w, l);
        assert w1 in d'[x];
      }
    }
  }

  /** A neighbour of x other than y that the textbook rule did not re-enqueue does not overlap x. */
  lemma NotRequeuedMeansNoOverlap(cw: Crossword, x: Variable, y: Variable, a: Variable)
    requires cw.Valid() && cw.IsArc(a, x) && a != y
    requires (a, x) !in RequeueStandard(x, cw.neighbors[x], y)
    ensures cw.overlaps[(a, x)].None?
  {
    assert a !in cw.neighbors[x];
    assert cw.overlaps[(x, a)].None?;
  }

  /**
    After revising the popped arc (x, y), an arc (a, b) that was supported
    and is not re-enqueued by the textbook rule stays supported.
   */
  lemma StandardStepKeepsArc(cw: Crossword, d: Domains, x: Variable, y: Variable, a: Variable, b: Variable)
    requires cw.Valid() && d.Keys == cw.VariableSet() && cw.IsArc(x, y) && cw.IsArc(a, b)
    requires ArcSupported(cw, d, a, b)
    requires ReviseStep(cw, d, x, y).0 ==> (a, b) !in RequeueStandard(x, cw.neighbors[x], y)
    ensures ArcSupported(cw, ReviseStep(cw, d, x, y).1, a, b)
  {
    var (revised, d') := ReviseStep(cw, d, x, y);
    if !revised {
    } else if b != x {
      SupportedAfterShrink(cw, d, d', a, b);
    } else if a == y {
      ReverseArcStaysSupported(cw, d, x, y);
    } else {
      NotRequeuedMeansNoOverlap(cw, x, y, a);
    }
  }

  /** An element that is neither the head nor in the tail is not in the sequence. */
  lemma NotInHeadOrTail<T>(q: seq<T>, e: T)
    requires q != [] && e != q[0] && e !in q[1..]
    ensures e !in q
  {
    assert q == [q[0]] + q[1..];
  }

  /** The queue after one step of the textbook loop from q. */
  function StandardNext(cw: Crossword, d: Domains, q: seq<Arc>): (q': seq<Arc>)
    requires cw.Valid() && d.Keys == cw.VariableSet() && ValidArcs(cw, q) && q != []
    ensures forall e :: e in q[1..] ==> e in q'
  {
    var (x, y) := q[0];
    if ReviseStep(cw, d, x, y).0 then q[1..] + RequeueStandard(x, cw.neighbors[x], y) else q[1..]
  }

  /** One step of the textbook loop keeps a given unqueued arc supported. */
  lemma StandardStepCoversArc(cw: Crossword, d: Domains, q: seq<Arc>, a: Variable, b: Variable)
    requires cw.Valid() && d.Keys == cw.VariableSet() && ValidArcs(cw, q) && q != []
    requires QueueCovers(cw, d, q) && cw.IsArc(a, b) && (a, b) !in StandardNext(cw, d, q)
    ensures ArcSupported(cw, ReviseStep(cw, d, q[0].0, q[0].1).1, a, b)
  {
    var (x, y) := q[0];
    assert cw.IsArc(x, y);
    if (a, b) == (x, y) {
      ReviseSupportsArc(cw, d, x, y);
    } else {
      NotInHeadOrTail(q, (a, b));
      StandardStepKeepsArc(cw, d, x, y, a, b);
    }
  }

  /** One step of the textbook loop keeps every unqueued arc supported. */
  lemma StandardStepCovers(cw: Crossword, d: Domains, q: seq<Arc>)
    requires cw.Valid() && d.Keys == cw.VariableSet() && ValidArcs(cw, q) && q != []
    requires QueueCovers(cw, d, q)
    ensures var (x, y) := q[0];
            var (revised, d') := ReviseStep(cw, d, x, y);
            QueueCovers(cw, d', if revised then q[1..] + RequeueStandard(x, cw.neighbors[x], y) else q[1..])
  {
    forall a, b | cw.IsArc(a, b) && (a, b) !in StandardNext(cw, d, q)
      ensures ArcSupported(cw, ReviseStep(cw, d, q[0].0, q[0].1).1, a, b)
    {
      StandardStepCoversArc(cw, d, q, a, b);
    }
  }

  /**
    The textbook loop is sound: when it reports success every arc is
    supported, provided the starting queue covers every arc that was not
    supported already.
   */
  lemma {:induction false} Ac3StandardSound(cw: Crossword, d: Domains, q: seq<Arc>)
    requires cw.Valid() && d.Keys == cw.VariableSet() && ValidArcs(cw, q) && QueueCovers(cw, d, q)
    ensures Ac3RunStandard(cw, d, q).0 ==> ArcConsistent(cw, Ac3RunStandard(cw, d, q).1)
    decreases TotalSize(cw.variables, d), |q|
  {
    if q != [] {
      var (x, y) := q[0];
      var (revised, d') := ReviseStep(cw, d, x, y);
      StandardStepCovers(cw, d, q);
      if !revised {
        Ac3StandardSound(cw, d', q[1..]);
      } else if d'[x] != {} {
        TotalSizeShrinks(cw.variables, d, d', x);
        RequeueValid(cw, q[1..], x, y);
        Ac3StandardSound(cw, d', q[1..] + RequeueStandard(x, cw.neighbors[x], y));
      }
    }
  }

  /**
    AC-3 as its docstring describes it: the textbook loop, answering False
    whenever a domain ends up empty, not only when the last revision
    emptied one.
   */
  function Ac3Checked(cw: Crossword, d: Domains, q: seq<Arc>): (r: (bool, Domains))
    requires cw.Valid() && d.Keys == cw.VariableSet() && ValidArcs(cw, q)
    ensures r.1 == Ac3RunStandard(cw, d, q).1
  {
    var (ok, d') := Ac3RunStandard(cw, d, q);
    (ok && forall x :: x in d' ==> d'[x] != {}, d')
  }

  /**
    The corrected answer is True exactly when no domain is empty, and then
    the store is arc consistent.
   */
  lemma Ac3CheckedAnswer(cw: Crossword, d: Domains, q: seq<Arc>)
    requires cw.Valid() && d.Keys == cw.VariableSet() && ValidArcs(cw, q) && QueueCovers(cw, d, q)
    ensures var (ok, d') := Ac3Checked(cw, d, q);
            (ok <==> forall x :: x in d' ==> d'[x] != {}) && (ok ==> ArcConsistent(cw, d'))
  {
    Ac3StandardSound(cw, d, q);
  }

  /** A solution inside the store keeps every domain non-empty, so the corrected AC-3 answers True. */
  lemma Ac3CheckedKeepsSolution(cw: Crossword, d: Domains, q: seq<Arc>, s: Assignment)
    requires cw.Valid() && d.Keys == cw.VariableSet() && ValidArcs(cw, q) && SolutionWithin(cw, s, d)
    ensures Ac3Checked(cw, d, q).0 && SolutionWithin(cw, s, Ac3Checked(cw, d, q).1)
  {
    Ac3StandardKeepsSolution(cw, d, q, s);
    var d' := Ac3RunStandard(cw, d, q).1;
    forall x | x in d' ensures d'[x] != {} {
      assert s.entries[x] in d'[x];
    }
  }

  /**
    A chain of three slots: A across and B down share their first cell,
    B's second cell is C's first.
   */
  const ChainA := Variable(0, 0, Across, 2)
  const ChainB := Variable(0, 0, Down, 2)
  const ChainC := Variable(1, 0, Across, 2)

  function ChainPuzzle(): Crossword {
    Crossword(2, 2, [ChainA, ChainB, ChainC], ["pq", "st", "pr", "su", "uv"],
              map[(ChainA, ChainB) := Some((0, 0)), (ChainB, ChainA) := Some((0, 0)),
                  (ChainB, ChainC) := Some((1, 0)), (ChainC, ChainB) := Some((0, 1)),
                  (ChainA, ChainC) := None, (ChainC, ChainA) := None],
              map[ChainA := [ChainB], ChainB := [ChainA, ChainC], ChainC := [ChainB]])
  }

  /** The store the counterexample starts from, and the one AC-3 leaves. */
  function ChainStart(): Domains {
    map[ChainA := {"pq", "st"}, ChainB := {"pr", "su"}, ChainC := {"uv"}]
  }

  function ChainEnd(): Domains {
    ChainStart()[ChainB := {"su"}]
  }

  lemma ChainOverlapKeys(cw: Crossword)
    requires cw == ChainPuzzle()
    ensures forall x, y :: (x, y) in cw.overlaps <==> cw.IsArc(x, y)
  {
    assert cw.overlaps.Keys == {(ChainA, ChainB), (ChainB, ChainA), (ChainB, ChainC),
                                (ChainC, ChainB), (ChainA, ChainC), (ChainC, ChainA)};
    forall x, y ensures (x, y) in cw.overlaps <==> cw.IsArc(x, y) {
      if cw.IsArc(x, y) {
        assert x == ChainA || x == ChainB || x == ChainC;
        assert y == ChainA || y == ChainB || y == ChainC;
      }
    }
  }

  lemma ChainOverlapsSymmetric(cw: Crossword)
    requires cw == ChainPuzzle()
    ensures forall x, y :: (x, y) in cw.overlaps && cw.overlaps[(x, y)].Some? ==>
              var (k, l) := cw.overlaps[(x, y)].value;
              (y, x) in cw.overlaps && cw.overlaps[(y, x)] == Some((l, k)) && k < x.length && l < y.length
  {
  }

  lemma ChainNeighbors(cw: Crossword)
    requires cw == ChainPuzzle() && forall x, y :: (x, y) in cw.overlaps <==> cw.IsArc(x, y)
    ensures forall x, y :: x in cw.variables && y in cw.neighbors[x] <==>
              cw.IsArc(x, y) && cw.overlaps[(x, y)].Some?
  {
    forall x, y
      ensures x in cw.variables && y in cw.neighbors[x] <==> cw.IsArc(x, y) && cw.overlaps[(x, y)].Some?
    {
      if cw.IsArc(x, y) {
        assert x == ChainA || x == ChainB || x == ChainC;
        assert y == ChainA || y == ChainB || y == ChainC;
      }
    }
  }

  lemma ChainDistinct(cw: Crossword)
    requires cw == ChainPuzzle()
    ensures Distinct(cw.variables) && Distinct(cw.words)
  {
  }

  lemma ChainValid(cw: Crossword)
    requires cw == ChainPuzzle()
    ensures cw.Valid()
  {
    ChainDistinct(cw);
    ChainOverlapKeys(cw);
    ChainOverlapsSymmetric(cw);
    ChainNeighbors(cw);
  }

  lemma ChainPuzzleValid(cw: Crossword, d0: Domains, d1: Domains)
    requires cw == ChainPuzzle() && d0 == ChainStart() && d1 == ChainEnd()
    ensures cw.Valid()
    ensures d0.Keys == cw.VariableSet() && d1.Keys == d0.Keys && d1[ChainB] == {"su"}
  {
    ChainValid(cw);
  }

  lemma ChainArcsOf()
    ensures ArcsOf(ChainA, [ChainB]) == [(ChainA, ChainB)]
    ensures ArcsOf(ChainB, [ChainA, ChainC]) == [(ChainB, ChainA), (ChainB, ChainC)]
    ensures ArcsOf(ChainC, [ChainB]) == [(ChainC, ChainB)]
  {
    assert [ChainB][..0] == [] && [ChainA, ChainC][..1] == [ChainA] && [ChainA][..0] == [];
    assert ArcsOf(ChainB, [ChainA]) == [(ChainB, ChainA)];
  }

  lemma TailThenOne<T>(q: seq<T>, e: T)
    requires |q| == 2
    ensures q[1..] + [e] == [q[1], e]
  {
  }

  lemma JoinFour<T>(p: T, q: T, r: T, s: T)
    ensures [p] + [q, r] + [s] == [p, q, r, s]
  {
  }

  /** The arcs from three variables, in the order the loop over them lists them. */
  lemma ArcsFromThree(cw: Crossword, vs: seq<Variable>)
    requires |vs| == 3 && forall v :: v in vs ==> v in cw.neighbors
    ensures ArcsFrom(cw, vs) ==
              ArcsOf(vs[0], cw.neighbors[vs[0]]) + ArcsOf(vs[1], cw.neighbors[vs[1]]) + ArcsOf(vs[2], cw.neighbors[vs[2]])
  {
    var n := cw.neighbors;
    assert vs[..2][..1][..0] == [];
    assert vs[..2][..1][0] == vs[0] && vs[..2][1] == vs[1];
    assert ArcsFrom(cw, vs[..2][..1]) == ArcsOf(vs[0], n[vs[0]]);
    assert ArcsFrom(cw, vs[..2]) == ArcsOf(vs[0], n[vs[0]]) + ArcsOf(vs[1], n[vs[1]]);
  }

  lemma ChainAllArcs(cw: Crossword)
    requires cw == ChainPuzzle()
    ensures ArcsFrom(cw, cw.variables) == [(ChainA, ChainB), (ChainB, ChainA), (ChainB, ChainC), (ChainC, ChainB)]
  {
    var vs, n := cw.variables, cw.neighbors;
    assert vs[0] == ChainA && vs[1] == ChainB && vs[2] == ChainC;
    assert n[ChainA] == [ChainB] && n[ChainB] == [ChainA, ChainC] && n[ChainC] == [ChainB];
    ChainArcsOf();
    ArcsFromThree(cw, vs);
    JoinFour((ChainA, ChainB), (ChainB, ChainA), (ChainB, ChainC), (ChainC, ChainB));
  }

  /** A revision that keeps every word of x reports nothing and leaves the store alone. */
  lemma ReviseStepKeeps(cw: Crossword, d: Domains, x: Variable, y: Variable, k: nat, l: nat)
    requires cw.Valid() && cw.IsArc(x, y) && x in d && y in d
    requires cw.overlaps[(x, y)] == Some((k, l)) && Revised(d[x], d[y], k, l) == d[x]
    ensures ReviseStep(cw, d, x, y) == (false, d)
  {
  }

  /** A revision that changes x's domain to kept reports it and stores kept. */
  lemma ReviseStepPrunes(cw: Crossword, d: Domains, x: Variable, y: Variable, k: nat, l: nat, kept: set<Word>)
    requires cw.Valid() && cw.IsArc(x, y) && x in d && y in d
    requires cw.overlaps[(x, y)] == Some((k, l)) && Revised(d[x], d[y], k, l) == kept != d[x]
    ensures ReviseStep(cw, d, x, y) == (true, d[x := kept])
  {
  }

  /** The domain filters behind the counterexample's revisions, one arc at a time. */
  lemma FilterAB()
    ensures Revised({"pq", "st"}, {"pr", "su"}, 0, 0) == {"pq", "st"}
  {
    assert Supports("pq", 0, "pr", 0) && Supports("st", 0, "su", 0);
  }

  lemma FilterBA()
    ensures Revised({"pr", "su"}, {"pq", "st"}, 0, 0) == {"pr", "su"}
  {
    assert Supports("pr", 0, "pq", 0) && Supports("su", 0, "st", 0);
  }

  lemma FilterBC()
    ensures Revised({"pr", "su"}, {"uv"}, 1, 0) == {"su"}
  {
    assert Supports("su", 1, "uv", 0) && !Supports("pr", 1, "uv", 0);
  }

  lemma FilterCB()
    ensures Revised({"uv"}, {"su"}, 0, 1) == {"uv"}
  {
    assert Supports("uv", 0, "su", 1);
  }

  lemma FilterBAEnd()
    ensures Revised({"su"}, {"pq", "st"}, 0, 0) == {"su"}
  {
    assert Supports("su", 0, "st", 0);
  }

  /** On the starting store the arcs (A, B) and (B, A) remove nothing; (B, C) drops "pr". */
  lemma ChainReviseAB(cw: Crossword, d0: Domains)
    requires cw == ChainPuzzle() && d0 == ChainStart() && cw.Valid()
    ensures ReviseStep(cw, d0, ChainA, ChainB) == (false, d0)
  {
    FilterAB();
    ReviseStepKeeps(cw, d0, ChainA, ChainB, 0, 0);
  }

  lemma ChainReviseBA(cw: Crossword, d0: Domains)
    requires cw == ChainPuzzle() && d0 == ChainStart() && cw.Valid()
    ensures ReviseStep(cw, d0, ChainB, ChainA) == (false, d0)
  {
    FilterBA();
    ReviseStepKeeps(cw, d0, ChainB, ChainA, 0, 0);
  }

  lemma ChainReviseBC(cw: Crossword, d0: Domains)
    requires cw == ChainPuzzle() && d0 == ChainStart() && cw.Valid()
    ensures ReviseStep(cw, d0, ChainB, ChainC) == (true, ChainEnd())
  {
    FilterBC();
    ReviseStepPrunes(cw, d0, ChainB, ChainC, 1, 0, {"su"});
  }

  /** On the pruned store the arcs (C, B) and (B, A) remove nothing. */
  lemma ChainReviseCB(cw: Crossword, d1: Domains)
    requires cw == ChainPuzzle() && d1 == ChainEnd() && cw.Valid()
    ensures ReviseStep(cw, d1, ChainC, ChainB) == (false, d1)
  {
    FilterCB();
    ReviseStepKeeps(cw, d1, ChainC, ChainB, 0, 1);
  }

  lemma ChainReviseBAEnd(cw: Crossword, d1: Domains)
    requires cw == ChainPuzzle() && d1 == ChainEnd() && cw.Valid()
    ensures ReviseStep(cw, d1, ChainB, ChainA) == (false, d1)
  {
    FilterBAEnd();
    ReviseStepKeeps(cw, d1, ChainB, ChainA, 0, 0);
  }

  /** After pruning B on (B, C) the code re-enqueues (B, A) only. */
  lemma ChainRequeue(cw: Crossword)
    requires cw == ChainPuzzle()
    ensures Requeue(ChainB, cw.neighbors[ChainB], ChainC) == [(ChainB, ChainA)]
  {
    assert cw.neighbors[ChainB] == [ChainA, ChainC];
    assert [ChainA, ChainC][..1] == [ChainA] && [ChainA][..0] == [];
    assert Requeue(ChainB, [ChainA], ChainC) == [(ChainB, ChainA)];
  }

  /** Two steps of `Ac3Run` on a queue of four arcs whose first two remove nothing. */
  lemma Ac3RunSkipsFront(cw: Crossword, d: Domains, q: seq<Arc>)
    requires cw.Valid() && d.Keys == cw.VariableSet() && ValidArcs(cw, q) && |q| == 4
    requires ReviseStep(cw, d, q[0].0, q[0].1) == (false, d)
    requires ReviseStep(cw, d, q[1].0, q[1].1) == (false, d)
    ensures ValidArcs(cw, [q[2], q[3]])
    ensures Ac3Run(cw, d, q) == Ac3Run(cw, d, [q[2], q[3]])
  {
    Ac3RunSkips(cw, d, q);
    assert q[1..][0] == q[1];
    Ac3RunSkips(cw, d, q[1..]);
    assert q[1..][1..] == [q[2], q[3]];
  }

  /** One step of `Ac3Run` on a queue of two arcs whose first prunes and re-enqueues the single arc e. */
  lemma Ac3RunPrunesPair(cw: Crossword, d: Domains, q: seq<Arc>, d': Domains, e: Arc)
    requires cw.Valid() && d.Keys == cw.VariableSet() && ValidArcs(cw, q) && |q| == 2
    requires ReviseStep(cw, d, q[0].0, q[0].1) == (true, d') && d'[q[0].0] != {}
    requires Requeue(q[0].0, cw.neighbors[q[0].0], q[0].1) == [e]
    ensures ValidArcs(cw, [q[1], e])
    ensures Ac3Run(cw, d, q) == Ac3Run(cw, d', [q[1], e])
  {
    TailThenOne(q, e);
    Ac3RunPrunes(cw, d, q, d');
  }

  /** The last two arcs find nothing to remove, and the loop ends with success. */
  lemma Ac3RunTwoSkips(cw: Crossword, d: Domains, q: seq<Arc>)
    requires cw.Valid() && d.Keys == cw.VariableSet() && ValidArcs(cw, q) && |q| == 2
    requires ReviseStep(cw, d, q[0].0, q[0].1) == (false, d)
    requires ReviseStep(cw, d, q[1].0, q[1].1) == (false, d)
    ensures Ac3Run(cw, d, q) == (true, d)
  {
    Ac3RunSkips(cw, d, q);
    assert q[1..][0] == q[1] && q[1..][1..] == [];
    Ac3RunSkips(cw, d, q[1..]);
  }

  /** The first two arcs of the counterexample remove nothing. */
  lemma ChainFirstTwo(cw: Crossword, d0: Domains, q: seq<Arc>)
    requires cw == ChainPuzzle() && d0 == ChainStart()
    requires cw.Valid() && d0.Keys == cw.VariableSet()
    requires q == [(ChainA, ChainB), (ChainB, ChainA), (ChainB, ChainC), (ChainC, ChainB)] && ValidArcs(cw, q)
    ensures ValidArcs(cw, [(ChainB, ChainC), (ChainC, ChainB)])
    ensures Ac3Run(cw, d0, q) == Ac3Run(cw, d0, [(ChainB, ChainC), (ChainC, ChainB)])
  {
    ChainReviseAB(cw, d0);
    ChainReviseBA(cw, d0);
    Ac3RunSkipsFront(cw, d0, q);
  }

  /** The third arc, (B, C), prunes B and re-enqueues (B, A) alone. */
  lemma ChainThird(cw: Crossword, d0: Domains, d1: Domains)
    requires cw == ChainPuzzle() && d0 == ChainStart() && d1 == ChainEnd()
    requires cw.Valid() && d0.Keys == cw.VariableSet() && d1[ChainB] == {"su"}
    requires ValidArcs(cw, [(ChainB, ChainC), (ChainC, ChainB)])
    ensures ValidArcs(cw, [(ChainC, ChainB), (ChainB, ChainA)])
    ensures Ac3Run(cw, d0, [(ChainB, ChainC), (ChainC, ChainB)]) == Ac3Run(cw, d1, [(ChainC, ChainB), (ChainB, ChainA)])
  {
    ChainReviseBC(cw, d0);
    ChainRequeue(cw);
    Ac3RunPrunesPair(cw, d0, [(ChainB, ChainC), (ChainC, ChainB)], d1, (ChainB, ChainA));
  }

  /** The last two arcs of the counterexample find nothing to remove. */
  lemma ChainLastTwo(cw: Crossword, d1: Domains)
    requires cw == ChainPuzzle() && d1 == ChainEnd()
    requires cw.Valid() && d1.Keys == cw.VariableSet()
    requires ValidArcs(cw, [(ChainC, ChainB), (ChainB, ChainA)])
    ensures Ac3Run(cw, d1, [(ChainC, ChainB), (ChainB, ChainA)]) == (true, d1)
  {
    ChainReviseCB(cw, d1);
    ChainReviseBAEnd(cw, d1);
    Ac3RunTwoSkips(cw, d1, [(ChainC, ChainB), (ChainB, ChainA)]);
  }

  /** "pq" is left in A's domain without a partner in B's. */
  lemma ChainEndNotArcConsistent(cw: Crossword, d1: Domains)
    requires cw == ChainPuzzle() && d1 == ChainEnd() && cw.Valid() && d1.Keys == cw.VariableSet()
    ensures !ArcConsistent(cw, d1)
  {
    assert !HasSupport("pq", 0, d1[ChainB], 0);
    assert !ArcSupported(cw, d1, ChainA, ChainB);
  }

  /** The run of `ac3()` on the counterexample ends with success and the pruned store. */
  lemma ChainRun(cw: Crossword, d0: Domains, d1: Domains, q: seq<Arc>)
    requires cw == ChainPuzzle() && d0 == ChainStart() && d1 == ChainEnd()
    requires cw.Valid() && d0.Keys == cw.VariableSet() && d1.Keys == d0.Keys && d1[ChainB] == {"su"}
    requires q == [(ChainA, ChainB), (ChainB, ChainA), (ChainB, ChainC), (ChainC, ChainB)] && ValidArcs(cw, q)
    ensures Ac3Run(cw, d0, q) == (true, d1)
  {
    ChainFirstTwo(cw, d0, q);
    ChainThird(cw, d0, d1);
    ChainLastTwo(cw, d1);
  }

  /**
    `ac3()` as written can report success on a store that is not arc
    consistent. From A = {pq, st}, B = {pr, su}, C = {uv}, revising (B, C)
    drops "pr" and re-enqueues only (B, A); nothing re-examines (A, B),
    so "pq" survives although no word of B starts with "p".
   */
  lemma Ac3TrueNotArcConsistent()
    ensures exists cw: Crossword, d: Domains, d': Domains ::
      && cw.Valid() && d.Keys == cw.VariableSet() && ValidArcs(cw, AllArcs(cw))
      && Ac3Run(cw, d, AllArcs(cw)) == (true, d') && d'.Keys == d.Keys
      && !ArcConsistent(cw, d')
  {
    var cw, d0, d1 := ChainPuzzle(), ChainStart(), ChainEnd();
    ChainPuzzleValid(cw, d0, d1);
    var q := AllArcs(cw);
    AllArcsAreOverlaps(cw);
    ChainAllArcs(cw);
    ChainRun(cw, d0, d1, q);
    ChainEndNotArcConsistent(cw, d1);
  }

  /**
    A slot that crosses nothing and whose length no word has: node
    consistency empties its domain, and AC-3 has no arc to revise.
   */
  const Solo := Variable(0, 0, Across, 2)

  function SoloPuzzle(): Crossword {
    Crossword(1, 2, [Solo], ["abc"], map[], map[Solo := []])
  }

  lemma SoloValid(cw: Crossword)
    requires cw == SoloPuzzle()
    ensures cw.Valid() && AllArcs(cw) == []
  {
    assert forall x, y :: !cw.IsArc(x, y);
    var r := AllArcs(cw);
    if r != [] {
      assert false;
    }
  }

  /**
    `ac3()` as written can report success although a domain is empty: it
    answers False only when the revision it has just made emptied a
    domain.
   */
  lemma Ac3TrueWithEmptyDomain()
    ensures exists cw: Crossword ::
      && cw.Valid() && ValidArcs(cw, AllArcs(cw))
      && var d := NodeConsistent(InitialDomains(cw));
         && d.Keys == cw.VariableSet()
         && Ac3Run(cw, d, AllArcs(cw)).0
         && exists x :: x in d && Ac3Run(cw, d, AllArcs(cw)).1[x] == {}
  {
    var cw := SoloPuzzle();
    SoloValid(cw);
    var d := NodeConsistent(InitialDomains(cw));
    assert d[Solo] == {} by {
      assert forall w :: w in d[Solo] ==> |w| == 2;
      assert InitialDomains(cw)[Solo] == {"abc"};
    }
    assert Ac3Run(cw, d, []) == (true, d);
  }
}
