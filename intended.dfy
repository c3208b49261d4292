/**
  The backtracking search and the solver as their docstrings describe them:
  the search checks letters at every overlap, goes on with the next value
  when a recursive call finds nothing, and reports "no solution" only
  after every value failed; the solver stops when AC-3 (with the
  textbook re-enqueueing rule) leaves a domain empty. Both are proved sound and
  complete.

  The corrected search leaves the domains alone. `backtrack` removes a
  value for good when it clashes with the current partial assignment,
  but under a different choice at an earlier variable the same value may
  be needed, so a search that resumed after a failure could not keep
  those removals and stay complete.
 */
module Intended {
  import opened Puzzle
  import opened Assignments
  import opened Domains
  import opened ArcConsistency
  import opened Backtracking

  /** The search from a with the store d, trying each word and resuming after failures. */
  function SearchIntended(cw: Crossword, d: Domains, a: Assignment): Option<Assignment>
    requires SearchState(cw, d, a)
    decreases cw.VariableSet() - a.entries.Keys, 1, 0
  {
    UnassignedExists(cw, a);
    if |a.order| == |cw.variables| then Some(a)
    else
      var sv := Selected(cw, a);
      TryIntended(cw, d, a, sv, InDomainOrder(cw.words, d[sv]))
  }

  /** The value loop of the corrected search. */
  function TryIntended(cw: Crossword, d: Domains, a: Assignment, sv: Variable, vals: seq<Word>): Option<Assignment>
    requires SearchState(cw, d, a) && sv in cw.variables && sv !in a.entries
    decreases cw.VariableSet() - a.entries.Keys, 0, |vals|
  {
    if vals == [] then None
    else
      var a' := a.Put(sv, vals[0]);
      assert a'.entries.Keys == a.entries.Keys + {sv};
      if FullyConsistent(cw, a') && SearchIntended(cw, d, a').Some? then SearchIntended(cw, d, a')
      else TryIntended(cw, d, a, sv, vals[1..])
  }

  /**
    s solves the puzzle from a within d: it extends a's entries, meets
    every constraint, and gives each variable a lacks a word of its domain.
   */
  ghost predicate SolutionOf(cw: Crossword, d: Domains, a: Assignment, s: Assignment)
    requires d.Keys == cw.VariableSet()
  {
    && s.Valid() && IsComplete(cw, s) && OverVariables(cw, s) && FullyConsistent(cw, s)
    && (forall v :: v in a.entries ==> v in s.entries && s.entries[v] == a.entries[v])
    && (forall v :: v in cw.variables && v !in a.entries ==> s.entries[v] in d[v])
  }

  /** Consistency is inherited by every part of a consistent assignment. */
  lemma ConsistentPart(cw: Crossword, a: Assignment, s: Assignment)
    requires FullyConsistent(cw, s)
    requires forall v :: v in a.entries ==> v in s.entries && s.entries[v] == a.entries[v]
    ensures FullyConsistent(cw, a)
  {
  }

  /** s still agrees with a once a is given s's word for sv. */
  lemma PutAgrees(a: Assignment, sv: Variable, s: Assignment)
    requires a.Valid() && sv in s.entries
    requires forall v :: v in a.entries ==> v in s.entries && s.entries[v] == a.entries[v]
    ensures forall v :: v in a.Put(sv, s.entries[sv]).entries ==>
              v in s.entries && s.entries[v] == a.Put(sv, s.entries[sv]).entries[v]
  {
  }

  /** Adding to a the word s gives sv keeps s a solution from the larger dict. */
  lemma SolutionOfPut(cw: Crossword, d: Domains, a: Assignment, sv: Variable, s: Assignment)
    requires SearchState(cw, d, a) && sv in cw.variables && sv !in a.entries
    requires SolutionOf(cw, d, a, s)
    ensures SearchState(cw, d, a.Put(sv, s.entries[sv]))
    ensures a.Put(sv, s.entries[sv]).entries.Keys == a.entries.Keys + {sv}
    ensures FullyConsistent(cw, a.Put(sv, s.entries[sv]))
    ensures SolutionOf(cw, d, a.Put(sv, s.entries[sv]), s)
  {
    var b := a.Put(sv, s.entries[sv]);
    PutAgrees(a, sv, s);
    ConsistentPart(cw, b, s);
  }

  /**
    What the corrected search returns is a solution from a within d, or a
    itself when a was already full.
   */
  lemma {:induction false} SearchIntendedSound(cw: Crossword, d: Domains, a: Assignment)
    requires SearchState(cw, d, a)
    ensures var r := SearchIntended(cw, d, a);
            r.Some? ==> FoundFrom(cw, r.value, a, d) && (r.value == a || FullyConsistent(cw, r.value))
    decreases cw.VariableSet() - a.entries.Keys, 1, 0
  {
    UnassignedExists(cw, a);
    if |a.order| != |cw.variables| {
      var sv := Selected(cw, a);
      TryIntendedSound(cw, d, a, sv, InDomainOrder(cw.words, d[sv]));
    }
  }

  lemma {:induction false} TryIntendedSound(cw: Crossword, d: Domains, a: Assignment, sv: Variable, vals: seq<Word>)
    requires SearchState(cw, d, a) && sv in cw.variables && sv !in a.entries
    requires forall w :: w in vals ==> w in d[sv]
    ensures var r := TryIntended(cw, d, a, sv, vals);
            r.Some? ==> FoundFrom(cw, r.value, a, d) && FullyConsistent(cw, r.value)
    decreases cw.VariableSet() - a.entries.Keys, 0, |vals|
  {
    if vals != [] {
      var a' := a.Put(sv, vals[0]);
      assert a'.entries.Keys == a.entries.Keys + {sv};
      if FullyConsistent(cw, a') {
        SearchIntendedSound(cw, d, a');
        var r := SearchIntended(cw, d, a');
        if r.Some? {
          FoundFromPut(cw, d, a, sv, vals[0], r.value);
        } else {
          TryIntendedSound(cw, d, a, sv, vals[1..]);
        }
      } else {
        TryIntendedSound(cw, d, a, sv, vals[1..]);
      }
    }
  }

  /**
    The corrected search is complete: when a solution from a within d
    exists, it finds one.
   */
  lemma {:induction false} SearchIntendedComplete(cw: Crossword, d: Domains, a: Assignment, s: Assignment)
    requires SearchState(cw, d, a) && WellFormed(cw, d) && SolutionOf(cw, d, a, s)
    ensures SearchIntended(cw, d, a).Some?
    decreases cw.VariableSet() - a.entries.Keys, 1, 0, 0
  {
    UnassignedExists(cw, a);
    if |a.order| != |cw.variables| {
      var sv := Selected(cw, a);
      assert s.entries[sv] in d[sv];
      TryIntendedComplete(cw, d, a, sv, InDomainOrder(cw.words, d[sv]), s);
    }
  }

  lemma {:induction false} TryIntendedComplete(cw: Crossword, d: Domains, a: Assignment, sv: Variable, vals: seq<Word>, s: Assignment)
    requires SearchState(cw, d, a) && WellFormed(cw, d) && sv in cw.variables && sv !in a.entries
    requires SolutionOf(cw, d, a, s) && s.entries[sv] in vals
    ensures TryIntended(cw, d, a, sv, vals).Some?
    decreases cw.VariableSet() - a.entries.Keys, 0, |vals|, 1
  {
    if vals[0] == s.entries[sv] {
      TryIntendedHits(cw, d, a, sv, vals, s);
    } else {
      assert s.entries[sv] in vals[1..];
      var a' := a.Put(sv, vals[0]);
      assert a'.entries.Keys == a.entries.Keys + {sv};
      if !(FullyConsistent(cw, a') && SearchIntended(cw, d, a').Some?) {
        TryIntendedComplete(cw, d, a, sv, vals[1..], s);
      }
    }
  }

  /** The value the solution gives sv is accepted, and the search from it succeeds. */
  lemma {:induction false} TryIntendedHits(cw: Crossword, d: Domains, a: Assignment, sv: Variable, vals: seq<Word>, s: Assignment)
    requires SearchState(cw, d, a) && WellFormed(cw, d) && sv in cw.variables && sv !in a.entries
    requires SolutionOf(cw, d, a, s) && vals != [] && vals[0] == s.entries[sv]
    ensures TryIntended(cw, d, a, sv, vals).Some?
    decreases cw.VariableSet() - a.entries.Keys, 0, |vals|, 0
  {
    SolutionOfPut(cw, d, a, sv, s);
    SearchIntendedComplete(cw, d, a.Put(sv, s.entries[sv]), s);
  }

  /** A solution of the puzzle: every variable gets a vocabulary word and every constraint holds. */
  ghost predicate IsSolution(cw: Crossword, s: Assignment) {
    && s.Valid() && IsComplete(cw, s) && OverVariables(cw, s) && FullyConsistent(cw, s)
    && forall v :: v in s.entries ==> s.entries[v] in cw.Vocabulary()
  }

  /**
    `solve` as its docstring describes it: node consistency, then AC-3 from
    every arc with the textbook rule, giving up when a domain is left
    empty, then the corrected search.
   */
  function SolveIntended(cw: Crossword): Option<Assignment>
    requires cw.Valid()
  {
    var d1 := NodeConsistent(InitialDomains(cw));
    NodeConsistentFilters(InitialDomains(cw));
    AllArcsAreOverlaps(cw);
    var (ok, d2) := Ac3Checked(cw, d1, AllArcs(cw));
    if !ok then None else SearchIntended(cw, d2, Empty)
  }

  /** The stores of the corrected solver stay inside the vocabulary. */
  lemma SolveStoresWellFormed(cw: Crossword)
    requires cw.Valid()
    ensures var d1 := NodeConsistent(InitialDomains(cw));
            WellFormed(cw, d1) && ValidArcs(cw, AllArcs(cw)) &&
            WellFormed(cw, Ac3RunStandard(cw, d1, AllArcs(cw)).1)
  {
    NodeConsistentFilters(InitialDomains(cw));
    AllArcsAreOverlaps(cw);
  }

  /** A full extension of the empty dict with words of the store's domains is a solution. */
  lemma FoundIsSolution(cw: Crossword, d: Domains, s: Assignment)
    requires WellFormed(cw, d) && FoundFrom(cw, s, Empty, d) && FullyConsistent(cw, s)
    ensures IsSolution(cw, s)
  {
  }

  /** Whatever the corrected solver returns is a solution. */
  lemma SolveIntendedSound(cw: Crossword)
    requires cw.Valid()
    ensures SolveIntended(cw).Some? ==> IsSolution(cw, SolveIntended(cw).value)
  {
    SolveStoresWellFormed(cw);
    var d1 := NodeConsistent(InitialDomains(cw));
    var (ok, d2) := Ac3Checked(cw, d1, AllArcs(cw));
    if ok {
      assert SolveIntended(cw) == SearchIntended(cw, d2, Empty);
      SearchIntendedSound(cw, d2, Empty);
      var r := SearchIntended(cw, d2, Empty);
      if r.Some? {
        FoundIsSolution(cw, d2, r.value);
      }
    }
  }

  /** A solution of the puzzle survives node consistency. */
  lemma SolutionWithinNodeConsistent(cw: Crossword, s: Assignment)
    requires cw.Valid() && IsSolution(cw, s)
    ensures var d1 := NodeConsistent(InitialDomains(cw));
            d1.Keys == cw.VariableSet() && SolutionWithin(cw, s, d1)
  {
    NodeConsistentFilters(InitialDomains(cw));
  }

  /** A solution inside every domain of a store is a solution from the empty dict within it. */
  lemma WithinIsSolutionOf(cw: Crossword, d: Domains, s: Assignment)
    requires WellFormed(cw, d) && IsSolution(cw, s) && SolutionWithin(cw, s, d)
    ensures SolutionOf(cw, d, Empty, s)
  {
  }

  /** The corrected solver finds a solution whenever the puzzle has one. */
  lemma SolveIntendedComplete(cw: Crossword, s: Assignment)
    requires cw.Valid() && IsSolution(cw, s)
    ensures SolveIntended(cw).Some?
  {
    SolveStoresWellFormed(cw);
    var d1 := NodeConsistent(InitialDomains(cw));
    SolutionWithinNodeConsistent(cw, s);
    Ac3CheckedKeepsSolution(cw, d1, AllArcs(cw), s);
    var d2 := Ac3Checked(cw, d1, AllArcs(cw)).1;
    WithinIsSolutionOf(cw, d2, s);
    SearchIntendedComplete(cw, d2, Empty, s);
    assert SolveIntended(cw) == SearchIntended(cw, d2, Empty);
  }
}
