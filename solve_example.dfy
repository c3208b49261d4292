/**
  A puzzle on which `solve()` itself, from the constructor's store, ends
  in the exception of `backtrack` although the puzzle has a solution.
  A is an across slot that crosses nothing; B (down) and C (across) share
  B's second cell and C's first. The vocabulary is "xb", "yq", "bz", all
  of length 2. AC-3 leaves B = {xb} and C = {bz}. The search gives A its
  first word "xb"; B's only word then repeats it and is pruned, the inner
  call returns None, and A's next value "yq" is written into None. Yet
  A = "yq", B = "xb", C = "bz" solves the puzzle.
 */
module SolveExample {
  import opened Puzzle
  import opened Assignments
  import opened Domains
  import opened ArcConsistency
  import opened Backtracking
  import opened Intended
  import opened Generator

  const TriA := Variable(0, 0, Across, 2)
  const TriB := Variable(0, 2, Down, 2)
  const TriC := Variable(1, 2, Across, 2)

  function TriPuzzle(): Crossword {
    Crossword(2, 4, [TriA, TriB, TriC], ["xb", "yq", "bz"],
              map[(TriA, TriB) := None, (TriB, TriA) := None,
                  (TriA, TriC) := None, (TriC, TriA) := None,
                  (TriB, TriC) := Some((1, 0)), (TriC, TriB) := Some((0, 1))],
              map[TriA := [], TriB := [TriC], TriC := [TriB]])
  }

  /** The store node consistency leaves: every word already has length 2. */
  function TriStart(): Domains {
    map[TriA := {"xb", "yq", "bz"}, TriB := {"xb", "yq", "bz"}, TriC := {"xb", "yq", "bz"}]
  }

  /** The store after revising (B, C). */
  function TriMid(): Domains {
    TriStart()[TriB := {"xb"}]
  }

  /** The store AC-3 leaves. */
  function TriPruned(): Domains {
    TriMid()[TriC := {"bz"}]
  }

  lemma TriOverlapKeys(cw: Crossword)
    requires cw == TriPuzzle()
    ensures forall x, y :: (x, y) in cw.overlaps <==> cw.IsArc(x, y)
  {
    assert cw.overlaps.Keys == {(TriA, TriB), (TriB, TriA), (TriA, TriC),
                                (TriC, TriA), (TriB, TriC), (TriC, TriB)};
    forall x, y ensures (x, y) in cw.overlaps <==> cw.IsArc(x, y) {
      if cw.IsArc(x, y) {
        assert x == TriA || x == TriB || x == TriC;
        assert y == TriA || y == TriB || y == TriC;
      }
    }
  }

  lemma TriOverlapsSymmetric(cw: Crossword)
    requires cw == TriPuzzle()
    ensures forall x, y :: (x, y) in cw.overlaps && cw.overlaps[(x, y)].Some? ==>
              var (k, l) := cw.overlaps[(x, y)].value;
              (y, x) in cw.overlaps && cw.overlaps[(y, x)] == Some((l, k)) && k < x.length && l < y.length
  {
  }

  lemma TriNeighbors(cw: Crossword)
    requires cw == TriPuzzle() && forall x, y :: (x, y) in cw.overlaps <==> cw.IsArc(x, y)
    ensures forall x, y :: x in cw.variables && y in cw.neighbors[x] <==>
              cw.IsArc(x, y) && cw.overlaps[(x, y)].Some?
  {
    forall x, y
      ensures x in cw.variables && y in cw.neighbors[x] <==> cw.IsArc(x, y) && cw.overlaps[(x, y)].Some?
    {
      if cw.IsArc(x, y) {
        assert x == TriA || x == TriB || x == TriC;
        assert y == TriA || y == TriB || y == TriC;
      }
    }
  }

  /** The three words differ. */
  lemma TriWordsDiffer()
    ensures "yq" != "xb" && "bz" != "xb" && "bz" != "yq"
  {
    assert "yq"[0] != "xb"[0] && "bz"[0] != "xb"[0] && "bz"[0] != "yq"[0];
  }

  /** Slots and words are listed without repeats. */
  lemma TriDistinct(cw: Crossword)
    requires cw.variables == [TriA, TriB, TriC] && cw.words == ["xb", "yq", "bz"]
    ensures Distinct(cw.variables) && Distinct(cw.words)
  {
    TriWordsDiffer();
  }

  lemma TriValid(cw: Crossword)
    requires cw == TriPuzzle()
    ensures cw.Valid()
  {
    TriDistinct(cw);
    TriOverlapKeys(cw);
    TriOverlapsSymmetric(cw);
    TriNeighbors(cw);
  }

  /** The vocabulary `__init__` gives every slot. */
  lemma TriVocabulary(cw: Crossword)
    requires cw.words == ["xb", "yq", "bz"]
    ensures cw.Vocabulary() == {"xb", "yq", "bz"}
  {
    assert cw.words[0] == "xb" && cw.words[1] == "yq" && cw.words[2] == "bz";
  }

  /** When every word fits every slot, node consistency changes nothing. */
  lemma NodeConsistentKeepsAll(d: Domains)
    requires forall x, w :: x in d && w in d[x] ==> |w| == x.length
    ensures NodeConsistent(d) == d
  {
    var r := NodeConsistent(d);
    forall x | x in d ensures r[x] == d[x] {
    }
  }

  /** Node consistency keeps the whole vocabulary for every slot. */
  lemma TriNodeConsistent(cw: Crossword)
    requires cw.variables == [TriA, TriB, TriC] && cw.words == ["xb", "yq", "bz"]
    ensures NodeConsistent(InitialDomains(cw)) == TriStart()
  {
    TriVocabulary(cw);
    var d := InitialDomains(cw);
    assert d.Keys == {TriA, TriB, TriC};
    assert forall x :: x in d ==> d[x] == {"xb", "yq", "bz"};
    NodeConsistentKeepsAll(d);
  }

  lemma TriArcsOf()
    ensures ArcsOf(TriA, []) == []
    ensures ArcsOf(TriB, [TriC]) == [(TriB, TriC)]
    ensures ArcsOf(TriC, [TriB]) == [(TriC, TriB)]
  {
    assert [TriC][..0] == [] && [TriB][..0] == [];
  }

  /** The initial queue: (B, C), then (C, B). */
  lemma TriAllArcs(cw: Crossword)
    requires cw.variables == [TriA, TriB, TriC] && cw.neighbors == map[TriA := [], TriB := [TriC], TriC := [TriB]]
    ensures ArcsFrom(cw, cw.variables) == [(TriB, TriC), (TriC, TriB)]
  {
    var vs, n := cw.variables, cw.neighbors;
    assert vs[0] == TriA && vs[1] == TriB && vs[2] == TriC;
    assert n[TriA] == [] && n[TriB] == [TriC] && n[TriC] == [TriB];
    TriArcsOf();
    ArcsFromThree(cw, vs);
  }

  /** Only "xb" ends in the first letter of some word. */
  lemma FilterB()
    ensures Revised({"xb", "yq", "bz"}, {"xb", "yq", "bz"}, 1, 0) == {"xb"}
  {
    assert Supports("xb", 1, "bz", 0);
    assert !Supports("yq", 1, "xb", 0) && !Supports("yq", 1, "yq", 0) && !Supports("yq", 1, "bz", 0);
    assert !Supports("bz", 1, "xb", 0) && !Supports("bz", 1, "yq", 0) && !Supports("bz", 1, "bz", 0);
  }

  /** Only "bz" starts with the last letter of "xb". */
  lemma FilterC()
    ensures Revised({"xb", "yq", "bz"}, {"xb"}, 0, 1) == {"bz"}
  {
    assert Supports("bz", 0, "xb", 1);
    assert !Supports("xb", 0, "xb", 1) && !Supports("yq", 0, "xb", 1);
  }

  /** Revising (B, C) leaves B = {xb}. */
  lemma TriReviseBC(cw: Crossword)
    requires cw.Valid() && cw.IsArc(TriB, TriC) && cw.overlaps[(TriB, TriC)] == Some((1, 0))
    ensures ReviseStep(cw, TriStart(), TriB, TriC) == (true, TriMid())
  {
    FilterB();
    ReviseStepPrunes(cw, TriStart(), TriB, TriC, 1, 0, {"xb"});
  }

  /** Revising (C, B) then leaves C = {bz}. */
  lemma TriReviseCB(cw: Crossword)
    requires cw.Valid() && cw.IsArc(TriC, TriB) && cw.overlaps[(TriC, TriB)] == Some((0, 1))
    ensures ReviseStep(cw, TriMid(), TriC, TriB) == (true, TriPruned())
  {
    FilterC();
    assert TriMid()[TriC] == {"xb", "yq", "bz"} && TriMid()[TriB] == {"xb"};
    ReviseStepPrunes(cw, TriMid(), TriC, TriB, 0, 1, {"bz"});
  }

  /** After pruning x on (x, y), with y x's only neighbour, the queue is (y, x) alone. */
  lemma Ac3FirstPrune(cw: Crossword, d0: Domains, d1: Domains, x: Variable, y: Variable)
    requires cw.Valid() && d0.Keys == cw.VariableSet() && cw.IsArc(x, y) && cw.neighbors[x] == [y]
    requires ReviseStep(cw, d0, x, y) == (true, d1) && d1[x] != {}
    ensures ValidArcs(cw, [(y, x)])
    ensures Ac3Run(cw, d0, [(x, y), (y, x)]) == Ac3Run(cw, d1, [(y, x)])
  {
    var q := [(x, y), (y, x)];
    assert [y][..0] == [];
    assert Requeue(x, [y], y) == [];
    Ac3RunPrunes(cw, d0, q, d1);
    assert q[1..] + [] == [(y, x)];
  }

  /** Pruning y on the last arc (y, x), with x y's only neighbour, ends the loop with True. */
  lemma Ac3LastPrune(cw: Crossword, d1: Domains, d2: Domains, x: Variable, y: Variable)
    requires cw.Valid() && d1.Keys == cw.VariableSet() && cw.IsArc(y, x) && cw.neighbors[y] == [x]
    requires ReviseStep(cw, d1, y, x) == (true, d2) && d2[y] != {}
    ensures Ac3Run(cw, d1, [(y, x)]) == (true, d2)
  {
    assert [x][..0] == [];
    assert Requeue(y, [x], x) == [];
    Ac3RunPrunes(cw, d1, [(y, x)], d2);
    assert [(y, x)][1..] + [] == [];
  }

  /** What `solve` searches from: the store AC-3 leaves. */
  lemma TriBeforeSearch(cw: Crossword)
    requires cw == TriPuzzle()
    ensures cw.Valid() && WellFormed(cw, InitialDomains(cw))
    ensures NodeThenArcConsistent(cw, InitialDomains(cw)) == (true, TriPruned())
  {
    TriValid(cw);
    TriNodeConsistent(cw);
    TriAllArcs(cw);
    TriReviseBC(cw);
    TriReviseCB(cw);
    Ac3FirstPrune(cw, TriStart(), TriMid(), TriB, TriC);
    Ac3LastPrune(cw, TriMid(), TriPruned(), TriB, TriC);
  }

  /** A domain holding every word lists the whole vocabulary, in order. */
  lemma {:induction false} OrderKeepsAll(words: seq<Word>, dom: set<Word>)
    requires forall w :: w in words ==> w in dom
    ensures InDomainOrder(words, dom) == words
  {
    if words != [] {
      var front := words[..|words| - 1];
      OrderKeepsAll(front, dom);
      assert front + [words[|words| - 1]] == words;
    }
  }

  /** Of three words, only the first in the domain: it alone is listed. */
  lemma OrderKeepsFirst(w0: Word, w1: Word, w2: Word, dom: set<Word>)
    requires dom == {w0} && w1 != w0 && w2 != w0
    ensures InDomainOrder([w0, w1, w2], dom) == [w0]
  {
    assert w1 !in dom && w2 !in dom;
    assert [w0, w1, w2][..2] == [w0, w1] && [w0, w1][..1] == [w0] && [w0][..0] == [];
    assert InDomainOrder([w0], dom) == [w0];
    assert InDomainOrder([w0, w1], dom) == [w0];
  }

  /** The first assignment: a dict with the one key x. */
  lemma EmptyPut(x: Variable, w: Word)
    ensures Empty.Put(x, w) == Assignment([x], map[x := w])
  {
    assert Empty.Put(x, w).order == [] + [x];
  }

  /** A dict with one key of the right length passes `consistent`. */
  lemma SingleConsistent(a: Assignment, x: Variable, w: Word)
    requires a == Assignment([x], map[x := w]) && |w| == x.length
    ensures a.Valid() && ConsistentAsWritten(a)
  {
    assert a.entries.Keys == {x};
    assert WordsDistinct(a) by {
      forall u, v | u in a.entries && v in a.entries ensures u == v {
      }
    }
  }

  /** Assigning x the word w first passes `consistent`. */
  lemma FirstPick(a: Assignment, x: Variable, w: Word)
    requires a == Empty.Put(x, w) && |w| == x.length
    ensures a.Valid() && a.order == [x] && a.entries == map[x := w] && ConsistentAsWritten(a)
  {
    EmptyPut(x, w);
    SingleConsistent(a, x, w);
  }

  /** Giving a second variable y the word x already holds fails `consistent`. */
  lemma RepeatFails(a: Assignment, x: Variable, y: Variable, w: Word)
    requires a.Valid() && a.entries == map[x := w] && x != y
    ensures !ConsistentAsWritten(a.Put(y, w))
  {
    assert a.Put(y, w).entries == map[x := w, y := w];
  }

  /** With only the first variable assigned, the second is the one tried next. */
  lemma SelectsSecond(cw: Crossword, a: Assignment)
    requires |cw.variables| >= 2 && cw.variables[0] != cw.variables[1] && a.entries.Keys == {cw.variables[0]}
    ensures exists v :: v in cw.variables && v !in a.entries
    ensures Selected(cw, a) == cw.variables[1]
  {
    assert cw.variables[1] !in a.entries;
    var k := FirstUnassigned(cw.variables, a);
    assert k != 0 by { assert cw.variables[0] in a.entries; }
    assert k < 2;
  }

  /**
    The inner call once the first variable x holds w: the second variable's
    only word is w again, so it is pruned and `None` comes back.
   */
  lemma InnerFails(cw: Crossword, d: Domains, x: Variable, w: Word)
    requires |cw.variables| == 3 && cw.variables[0] == x && x != cw.variables[1] && |w| == x.length
    requires SearchState(cw, d, Empty.Put(x, w)) && InDomainOrder(cw.words, d[cw.variables[1]]) == [w]
    ensures Search(cw, d, Empty.Put(x, w)).0 == NoSolution
  {
    var a, y := Empty.Put(x, w), cw.variables[1];
    FirstPick(a, x, w);
    RepeatFails(a, x, y, w);
    SelectsSecond(cw, a);
    SearchSelects(cw, d, a);
    TryRejects(cw, d, a, y, [w]);
    assert [w][1..] == [];
  }

  /**
    The top-level call: the first variable x takes its first word w0, the
    inner call returns `None`, and the next word w1 crashes the loop.
   */
  lemma OuterCrashes(cw: Crossword, d: Domains, x: Variable, w0: Word, w1: Word, w2: Word)
    requires |cw.variables| == 3 && cw.variables[0] == x && x != cw.variables[1] && |w0| == x.length
    requires SearchState(cw, d, Empty)
    requires InDomainOrder(cw.words, d[x]) == [w0, w1, w2] && InDomainOrder(cw.words, d[cw.variables[1]]) == [w0]
    ensures Search(cw, d, Empty).0 == Crash
  {
    SearchSelects(cw, d, Empty);
    assert Selected(cw, Empty) == x;
    var a := Empty.Put(x, w0);
    FirstPick(a, x, w0);
    assert SearchState(cw, d, a);
    InnerFails(cw, d, x, w0);
    TryRecursionFails(cw, d, Empty, x, [w0, w1, w2]);
    assert [w0, w1, w2][1..] == [w1, w2];
    TryCrashes(cw, Search(cw, d, a).1, Empty, x, [w1, w2]);
  }

  /** A's pruned domain, the whole vocabulary, in vocabulary order. */
  lemma TriOrderA(cw: Crossword)
    requires cw.words == ["xb", "yq", "bz"]
    ensures InDomainOrder(cw.words, TriPruned()[TriA]) == ["xb", "yq", "bz"]
  {
    var ws, dom := cw.words, TriPruned()[TriA];
    assert dom == {"xb", "yq", "bz"};
    assert forall w :: w in ws ==> w in dom by {
      assert ws[0] in dom && ws[1] in dom && ws[2] in dom;
    }
    OrderKeepsAll(ws, dom);
  }

  /** B's pruned domain {xb}, in vocabulary order. */
  lemma TriOrderB(cw: Crossword)
    requires cw.words == ["xb", "yq", "bz"]
    ensures InDomainOrder(cw.words, TriPruned()[TriB]) == ["xb"]
  {
    TriWordsDiffer();
    OrderKeepsFirst("xb", "yq", "bz", TriPruned()[TriB]);
  }

  /** The search from the pruned store crashes. */
  lemma TriCrashes(cw: Crossword)
    requires cw.variables == [TriA, TriB, TriC] && cw.words == ["xb", "yq", "bz"]
    ensures SearchState(cw, TriPruned(), Empty) && Search(cw, TriPruned(), Empty).0 == Crash
  {
    TriDistinct(cw);
    TriOrderA(cw);
    TriOrderB(cw);
    OuterCrashes(cw, TriPruned(), TriA, "xb", "yq", "bz");
  }

  /** The letters of B = "xb" and C = "bz" agree where they cross, and A crosses nothing. */
  lemma TriAgree(cw: Crossword, s: Assignment)
    requires cw == TriPuzzle()
    requires s == Assignment([TriA, TriB, TriC], map[TriA := "yq", TriB := "xb", TriC := "bz"])
    ensures OverlapsAgree(cw, s)
  {
    assert Supports("xb", 1, "bz", 0) && Supports("bz", 0, "xb", 1);
  }

  /** The three slots hold three different words of the right length. */
  lemma TriSolutionDistinct(s: Assignment)
    requires s == Assignment([TriA, TriB, TriC], map[TriA := "yq", TriB := "xb", TriC := "bz"])
    ensures s.Valid() && WordsDistinct(s) && LengthsMatch(s)
  {
    TriWordsDiffer();
  }

  /** A = "yq", B = "xb", C = "bz" solves the puzzle. */
  lemma TriSolution(cw: Crossword, s: Assignment)
    requires cw == TriPuzzle()
    requires s == Assignment([TriA, TriB, TriC], map[TriA := "yq", TriB := "xb", TriC := "bz"])
    ensures IsSolution(cw, s)
  {
    assert s.entries.Keys == {TriA, TriB, TriC};
    TriSolutionDistinct(s);
    TriVocabulary(cw);
    TriAgree(cw, s);
  }

  /** Everything the counterexample below claims, for the puzzle above. */
  lemma TriFacts(cw: Crossword, s: Assignment)
    requires cw == TriPuzzle()
    requires s == Assignment([TriA, TriB, TriC], map[TriA := "yq", TriB := "xb", TriC := "bz"])
    ensures cw.Valid() && WellFormed(cw, InitialDomains(cw))
    ensures SolveRun(cw, InitialDomains(cw)).0 == Crash
    ensures IsSolution(cw, s) && SolveIntended(cw).Some?
  {
    TriBeforeSearch(cw);
    TriCrashes(cw);
    TriSolution(cw, s);
    SolveIntendedComplete(cw, s);
  }

  /**
    `solve()` on a freshly constructed generator can end in the exception
    of `backtrack` on a puzzle that has a solution, which the corrected
    solver finds.
   */
  lemma SolveCrashesOnSolvable()
    ensures exists cw: Crossword, s: Assignment ::
      && cw.Valid() && WellFormed(cw, InitialDomains(cw))
      && SolveRun(cw, InitialDomains(cw)).0 == Crash
      && IsSolution(cw, s) && SolveIntended(cw).Some?
  {
    var cw := TriPuzzle();
    var s := Assignment([TriA, TriB, TriC], map[TriA := "yq", TriB := "xb", TriC := "bz"]);
    TriFacts(cw, s);
  }
}
