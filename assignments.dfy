/**
  Assignments: the Python dict from variables to words that the search
  builds. A dict remembers insertion order, and letter_grid depends on it,
  so an assignment is the order of its keys together with its contents.
 */
module Assignments {
  import opened Puzzle

  datatype Assignment = Assignment(order: seq<Variable>, entries: map<Variable, Word>)
  {
    /** Every key listed once, in insertion order. */
    predicate Valid() {
      Distinct(order) && entries.Keys == set v | v in order
    }

    /** `assignment[v] = w`: a new key goes to the end, an existing key keeps its place. */
    function Put(v: Variable, w: Word): (r: Assignment)
      requires Valid()
      ensures r.Valid() && r.entries == entries[v := w]
      ensures |r.order| == if v in entries then |order| else |order| + 1
    {
      if v in entries then Assignment(order, entries[v := w])
      else Assignment(order + [v], entries[v := w])
    }

    /** The keys as a set (assignment.keys()). */
    function Keys(): set<Variable> {
      entries.Keys
    }
  }

  const Empty: Assignment := Assignment([], map[])

  /** Every key of the assignment is a variable of the puzzle. */
  predicate OverVariables(cw: Crossword, a: Assignment) {
    forall v :: v in a.entries ==> v in cw.variables
  }

  /** b is a grown from a by adding keys at the end, without changing a's entries. */
  predicate Extends(b: Assignment, a: Assignment) {
    && |a.order| <= |b.order|
    && b.order[..|a.order|] == a.order
    && forall v :: v in a.entries ==> v in b.entries && b.entries[v] == a.entries[v]
  }

  /** Every variable of the puzzle has a word (words are never None here). */
  predicate IsComplete(cw: Crossword, a: Assignment) {
    forall v :: v in cw.variables ==> v in a.entries
  }

  /** No two variables hold the same word. */
  predicate WordsDistinct(a: Assignment) {
    forall u, v :: u in a.entries && v in a.entries && u != v ==> a.entries[u] != a.entries[v]
  }

  /** Every word is as long as its variable. */
  predicate LengthsMatch(a: Assignment) {
    forall v :: v in a.entries ==> |a.entries[v]| == v.length
  }

  /** Two assigned variables that overlap have the same letter in the shared cell. */
  predicate OverlapsAgree(cw: Crossword, a: Assignment) {
    forall u, v :: u in a.entries && v in a.entries && (u, v) in cw.overlaps && cw.overlaps[(u, v)].Some? ==>
      var (k, l) := cw.overlaps[(u, v)].value;
      Supports(a.entries[u], k, a.entries[v], l)
  }

  /** What `consistent` decides, as the code is written: the letter check never runs. */
  predicate ConsistentAsWritten(a: Assignment) {
    WordsDistinct(a) && LengthsMatch(a)
  }

  /** Consistency as the docstring of `consistent` describes it: distinct words, right lengths, agreeing letters. */
  predicate FullyConsistent(cw: Crossword, a: Assignment) {
    WordsDistinct(a) && LengthsMatch(a) && OverlapsAgree(cw, a)
  }

  /**
    A key of a Python dict, which may be any hashable value. `consistent`
    asks whether an overlap pair of ints is a key of the assignment, whose
    keys are all variables.
   */
  datatype Key = VarKey(v: Variable) | PairKey(p: (nat, nat))

  function DictKeys(a: Assignment): (ks: set<Key>)
    ensures forall p :: PairKey(p) !in ks
  {
    set v | v in a.entries :: VarKey(v)
  }

  /** Position of the first variable, in iteration order, that the assignment lacks. */
  function FirstUnassigned(vars: seq<Variable>, a: Assignment): (k: nat)
    requires exists v :: v in vars && v !in a.entries
    ensures k < |vars| && vars[k] !in a.entries
    ensures forall l :: 0 <= l < k ==> vars[l] in a.entries
  {
    if vars[0] !in a.entries then 0
    else
      assert exists v :: v in vars[1..] && v !in a.entries by {
        var v :| v in vars && v !in a.entries;
        assert v != vars[0];
        assert v in vars[1..];
      }
      1 + FirstUnassigned(vars[1..], a)
  }

  /**
    As long as fewer keys than variables are present, some variable is
    unassigned: what makes backtrack's `[0]` safe.
   */
  lemma {:induction false} UnassignedExists(cw: Crossword, a: Assignment)
    requires Distinct(cw.variables) && a.Valid() && OverVariables(cw, a)
    ensures |a.order| <= |cw.variables|
    ensures |a.order| < |cw.variables| ==> exists v :: v in cw.variables && v !in a.entries
    ensures |a.order| == |cw.variables| ==> IsComplete(cw, a)
  {
    var keys := set v | v in a.order;
    var vars := cw.VariableSet();
    DistinctCardinality(a.order);
    DistinctCardinality(cw.variables);
    assert keys <= vars;
    SubsetCardinality(keys, vars);
    if v :| v in cw.variables && v !in a.entries {
      assert v in vars - keys;
      assert keys < vars;
    } else {
      assert keys == vars;
    }
  }

  /** Slots A (across) and B (down) start in the same cell, so A's first letter is B's first letter. */
  const TwinA := Variable(0, 0, Across, 2)
  const TwinB := Variable(0, 0, Down, 2)

  function TwinPuzzle(): Crossword {
    Crossword(2, 2, [TwinA, TwinB], ["ab", "cd"],
              map[(TwinA, TwinB) := Some((0, 0)), (TwinB, TwinA) := Some((0, 0))],
              map[TwinA := [TwinB], TwinB := [TwinA]])
  }

  /** "ab" across and "cd" down: the shared cell would hold both 'a' and 'c'. */
  function TwinClash(): Assignment {
    Assignment([TwinA, TwinB], map[TwinA := "ab", TwinB := "cd"])
  }

  lemma TwinValid(cw: Crossword)
    requires cw == TwinPuzzle()
    ensures cw.Valid()
  {
    forall x, y ensures (x, y) in cw.overlaps <==> cw.IsArc(x, y) {
      if cw.IsArc(x, y) {
        assert x == TwinA || x == TwinB;
        assert y == TwinA || y == TwinB;
      }
    }
  }

  lemma TwinClashFacts(cw: Crossword, a: Assignment)
    requires cw == TwinPuzzle() && a == TwinClash()
    ensures a.Valid() && OverVariables(cw, a) && IsComplete(cw, a)
    ensures ConsistentAsWritten(a) && !OverlapsAgree(cw, a)
  {
    assert a.entries[TwinA][0] != a.entries[TwinB][0];
  }

  /**
    The letter check of `consistent` is dead: an assignment whose crossing
    letters clash still passes it.
   */
  lemma ConsistentIgnoresOverlaps()
    ensures exists cw: Crossword, a: Assignment ::
      cw.Valid() && a.Valid() && OverVariables(cw, a) && IsComplete(cw, a) &&
      ConsistentAsWritten(a) && !OverlapsAgree(cw, a)
  {
    var cw, a := TwinPuzzle(), TwinClash();
    TwinValid(cw);
    TwinClashFacts(cw, a);
  }
}
