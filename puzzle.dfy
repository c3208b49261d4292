/**
  The puzzle the generator is handed: its slots ("variables"), its
  vocabulary, the letter overlaps between slots and each slot's neighbours.
  The generator only reads it. Python sets are modelled by sequences that
  fix their iteration order, which the language leaves unspecified.
 */
module Puzzle {

  datatype Option<T> = None | Some(value: T)

  datatype Direction = Across | Down

  /** A slot: the row and column of its first cell, its direction and its length. */
  datatype Variable = Variable(i: nat, j: nat, direction: Direction, length: nat)

  type Word = string

  /** An ordered pair of variables: an AC-3 arc, or a key of the overlap table. */
  type Arc = (Variable, Variable)

  predicate Distinct<T(==)>(s: seq<T>) {
    forall k, l :: 0 <= k < l < |s| ==> s[k] != s[l]
  }

  /** w1's k-th letter equals w2's l-th letter; false when either word is too short. */
  predicate Supports(w1: Word, k: nat, w2: Word, l: nat) {
    k < |w1| && l < |w2| && w1[k] == w2[l]
  }

  /** Dropping the head of a duplicate-free sequence leaves one without the head. */
  lemma DistinctTail<T>(s: seq<T>)
    requires Distinct(s) && s != []
    ensures Distinct(s[1..]) && s[0] !in s[1..]
  {
  }

  /** A duplicate-free sequence has as many elements as the set it enumerates. */
  lemma {:induction false} DistinctCardinality<T>(s: seq<T>)
    requires Distinct(s)
    ensures |set x | x in s| == |s|
  {
    if s != [] {
      DistinctCardinality(s[1..]);
      assert (set x | x in s) == (set x | x in s[1..]) + {s[0]};
      assert s[0] !in (set x | x in s[1..]);
    }
  }

  /** A subset is no larger than its superset, and a proper subset is smaller. */
  lemma SubsetCardinality<T>(a: set<T>, b: set<T>)
    requires a <= b
    ensures |a| <= |b|
    ensures a < b ==> |a| < |b|
  {
    assert b == a + (b - a);
    if a < b {
      var x :| x in b - a;
      assert |b - a| >= 1 by { assert {x} <= b - a; }
    }
  }

  /**
    The crossword. `variables` and `words` list the variable set and the
    vocabulary in iteration order; `overlaps[(x, y)]` is the pair (k, l) of
    positions at which x's k-th letter shares a cell with y's l-th letter,
    or None; `neighbors[x]` lists the set neighbors(x) in iteration order.
    `height` and `width` give the grid size.
   */
  datatype Crossword = Crossword(
    height: nat,
    width: nat,
    variables: seq<Variable>,
    words: seq<Word>,
    overlaps: map<Arc, Option<(nat, nat)>>,
    neighbors: map<Variable, seq<Variable>>)
  {
    function VariableSet(): set<Variable> {
      set v | v in variables
    }

    function Vocabulary(): set<Word> {
      set w | w in words
    }

    /** x and y are distinct variables, so overlaps[(x, y)] is defined. */
    predicate IsArc(x: Variable, y: Variable) {
      x in variables && y in variables && x != y
    }

    /**
      What the generator assumes of the puzzle: no slot or word listed
      twice; an overlap entry for every pair of distinct variables and for
      no other pair (so no self-overlap); overlaps symmetric and within the
      slots' lengths; neighbors(x) the variables that overlap x.
     */
    ghost predicate Valid() {
      && Distinct(variables)
      && Distinct(words)
      && (forall x, y :: (x, y) in overlaps <==> IsArc(x, y))
      && (forall x, y :: (x, y) in overlaps && overlaps[(x, y)].Some? ==>
            var (k, l) := overlaps[(x, y)].value;
            (y, x) in overlaps && overlaps[(y, x)] == Some((l, k)) && k < x.length && l < y.length)
      && (forall x :: x in variables ==> x in neighbors && Distinct(neighbors[x]))
      && (forall x, y :: x in variables && y in neighbors[x] <==>
                         IsArc(x, y) && overlaps[(x, y)].Some?)
    }
  }

  /** No variable is its own neighbour, and every neighbour is a variable. */
  lemma NeighborIsArc(cw: Crossword, x: Variable, y: Variable)
    requires cw.Valid() && x in cw.variables && y in cw.neighbors[x]
    ensures cw.IsArc(x, y) && cw.overlaps[(x, y)].Some?
  {
  }

  /** Overlap is symmetric: if x is a neighbour of y then y is one of x. */
  lemma NeighborsSymmetric(cw: Crossword, x: Variable, y: Variable)
    requires cw.Valid() && x in cw.variables && y in cw.neighbors[x]
    ensures y in cw.variables && x in cw.neighbors[y]
  {
    var (k, l) := cw.overlaps[(x, y)].value;
    assert cw.overlaps[(y, x)] == Some((l, k));
  }
}
