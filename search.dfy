/**
  The backtracking search of `backtrack` as a function of the domain store
  and the assignment. `Search` is one call of `backtrack`; `TryValues` is
  its `for` loop over the ordered domain values of the selected variable.

  The code rebinds `assignment` to the result of the recursive call. When
  that result is `None` and another value is left, the next write
  `assignment[selected_variable] = val` is a write into `None`, which
  raises; the model returns `Crash` there. The `failed` flag of
  `TryValues` records that `assignment` has become `None`.
 */
module Backtracking {
  import opened Puzzle
  import opened Assignments
  import opened Domains

  /** What a call of `backtrack` ends with: a dict, `None`, or an exception. */
  datatype Outcome = Solution(assignment: Assignment) | NoSolution | Crash

  /**
    What every call of `backtrack` may assume of its arguments (of the
    puzzle's well-formedness, the search needs only that no slot and no
    word is listed twice).
   */
  ghost predicate SearchState(cw: Crossword, d: Domains, a: Assignment) {
    Distinct(cw.variables) && Distinct(cw.words) && d.Keys == cw.VariableSet() && a.Valid() && OverVariables(cw, a)
  }

  /** The variable `select_unassigned_variable` picks: the first one, in iteration order, not yet assigned. */
  function Selected(cw: Crossword, a: Assignment): (v: Variable)
    requires exists v :: v in cw.variables && v !in a.entries
    ensures v in cw.variables && v !in a.entries
  {
    cw.variables[FirstUnassigned(cw.variables, a)]
  }

  /**
    One call `backtrack(a)` with the store d: the outcome and the store
    afterwards. A full dict is returned as it is; otherwise the first
    unassigned variable is tried with the words of its domain in order.
   */
  function Search(cw: Crossword, d: Domains, a: Assignment): (r: (Outcome, Domains))
    requires SearchState(cw, d, a)
    ensures r.1.Keys == d.Keys
    ensures forall v :: v in d ==> r.1[v] <= d[v]
    ensures forall v :: v in a.entries ==> r.1[v] == d[v]
    decreases cw.VariableSet() - a.entries.Keys, 1, 0
  {
    UnassignedExists(cw, a);
    if |a.order| == |cw.variables| then (Solution(a), d)
    else
      var sv := Selected(cw, a);
      TryValues(cw, d, a, sv, InDomainOrder(cw.words, d[sv]), false)
  }

  /**
    The `for` loop of `backtrack` over the values `vals` still to be tried
    for `sv`. A value that makes the assignment inconsistent is removed
    from `sv`'s domain; a consistent one is searched from; after a
    recursive `None`, the next value crashes the loop.
   */
  function TryValues(cw: Crossword, d: Domains, a: Assignment, sv: Variable, vals: seq<Word>, failed: bool): (r: (Outcome, Domains))
    requires SearchState(cw, d, a) && sv in cw.variables && sv !in a.entries
    requires Distinct(vals) && forall w :: w in vals ==> w in d[sv]
    ensures r.1.Keys == d.Keys
    ensures forall v :: v in d ==> r.1[v] <= d[v]
    ensures forall v :: v in a.entries ==> r.1[v] == d[v]
    decreases cw.VariableSet() - a.entries.Keys, 0, |vals|
  {
    if vals == [] then (NoSolution, d)
    else if failed then (Crash, d)
    else
      var w := vals[0];
      var a' := a.Put(sv, w);
      assert a'.entries.Keys == a.entries.Keys + {sv};
      if ConsistentAsWritten(a') then
        var (o, d') := Search(cw, d, a');
        if o.Solution? then (o, d')
        else if o.Crash? then (Crash, d')
        else TryValues(cw, d', a, sv, vals[1..], true)
      else
        DistinctTail(vals);
        TryValues(cw, d[sv := d[sv] - {w}], a, sv, vals[1..], false)
  }

  /** Adding a new key appends it and keeps every earlier entry. */
  lemma PutExtends(a: Assignment, v: Variable, w: Word)
    requires a.Valid() && v !in a.entries
    ensures Extends(a.Put(v, w), a)
    ensures a.Put(v, w).order == a.order + [v]
  {
  }

  /** Extension is transitive. */
  lemma ExtendsTransitive(c: Assignment, b: Assignment, a: Assignment)
    requires Extends(c, b) && Extends(b, a)
    ensures Extends(c, a)
  {
    assert c.order[..|a.order|] == c.order[..|b.order|][..|a.order|];
  }

  /** A full assignment comes back from `backtrack` unchanged, with the store untouched. */
  lemma SearchReturnsFull(cw: Crossword, d: Domains, a: Assignment)
    requires SearchState(cw, d, a) && |a.order| == |cw.variables|
    ensures Search(cw, d, a) == (Solution(a), d)
  {
  }

  /** What `backtrack` promises of a dict it returns, relative to the dict it was given. */
  ghost predicate FoundFrom(cw: Crossword, s: Assignment, a: Assignment, d: Domains)
    requires d.Keys == cw.VariableSet()
  {
    && s.Valid() && IsComplete(cw, s) && OverVariables(cw, s) && Extends(s, a)
    && forall v :: v in s.entries && v !in a.entries ==> s.entries[v] in d[v]
  }

  /** A solution found after adding sv = w, with w in sv's domain, is a solution found from a. */
  lemma FoundFromPut(cw: Crossword, d: Domains, a: Assignment, sv: Variable, w: Word, s: Assignment)
    requires d.Keys == cw.VariableSet() && a.Valid() && sv !in a.entries && sv in d && w in d[sv]
    requires FoundFrom(cw, s, a.Put(sv, w), d)
    ensures FoundFrom(cw, s, a, d)
  {
    PutExtends(a, sv, w);
    ExtendsTransitive(s, a.Put(sv, w), a);
  }

  /**
    A dict returned by `backtrack` has every variable, extends the dict it
    was given, gives each newly assigned variable a word that is still in
    that variable's domain afterwards, and, unless it is the given dict
    itself, passed `consistent` when its last entry was added.
   */
  lemma {:induction false} SearchSound(cw: Crossword, d: Domains, a: Assignment)
    requires SearchState(cw, d, a)
    ensures var r := Search(cw, d, a);
            r.0.Solution? ==> FoundFrom(cw, r.0.assignment, a, r.1) &&
                              (r.0.assignment == a || ConsistentAsWritten(r.0.assignment))
    decreases cw.VariableSet() - a.entries.Keys, 1, 0
  {
    UnassignedExists(cw, a);
    if |a.order| != |cw.variables| {
      var sv := Selected(cw, a);
      TryValuesSound(cw, d, a, sv, InDomainOrder(cw.words, d[sv]), false);
    }
  }

  /** The same for the value loop; here the result always passed `consistent`. */
  lemma {:induction false} TryValuesSound(cw: Crossword, d: Domains, a: Assignment, sv: Variable, vals: seq<Word>, failed: bool)
    requires SearchState(cw, d, a) && sv in cw.variables && sv !in a.entries
    requires Distinct(vals) && forall w :: w in vals ==> w in d[sv]
    ensures var r := TryValues(cw, d, a, sv, vals, failed);
            r.0.Solution? ==> FoundFrom(cw, r.0.assignment, a, r.1) && ConsistentAsWritten(r.0.assignment)
    decreases cw.VariableSet() - a.entries.Keys, 0, |vals|
  {
    if vals != [] && !failed {
      var w := vals[0];
      var a' := a.Put(sv, w);
      assert a'.entries.Keys == a.entries.Keys + {sv};
      if ConsistentAsWritten(a') {
        var (o, d') := Search(cw, d, a');
        SearchSound(cw, d, a');
        if o.Solution? {
          FoundFromPut(cw, d', a, sv, w, o.assignment);
        } else if o.NoSolution? {
          TryValuesSound(cw, d', a, sv, vals[1..], true);
        }
      } else {
        DistinctTail(vals);
        TryValuesSound(cw, d[sv := d[sv] - {w}], a, sv, vals[1..], false);
      }
    }
  }

  /** A complete assignment over the puzzle's variables has one key per variable. */
  lemma CompleteSize(cw: Crossword, t: Assignment)
    requires Distinct(cw.variables) && t.Valid() && IsComplete(cw, t) && OverVariables(cw, t)
    ensures |t.order| == |cw.variables|
  {
    DistinctCardinality(t.order);
    DistinctCardinality(cw.variables);
    assert (set v | v in t.order) == t.entries.Keys == cw.VariableSet();
  }

  /** A found assignment has one entry per variable. */
  lemma SolutionSize(cw: Crossword, d: Domains, a: Assignment)
    requires SearchState(cw, d, a)
    ensures Search(cw, d, a).0.Solution? ==> |Search(cw, d, a).0.assignment.order| == |cw.variables|
  {
    var r := Search(cw, d, a);
    SearchSound(cw, d, a);
    if r.0.Solution? {
      CompleteSize(cw, r.0.assignment);
    }
  }

  /** Each word of before missing from after is one of vals that `consistent` rejects next to a. */
  predicate PrunedOnly(a: Assignment, sv: Variable, vals: seq<Word>, before: set<Word>, after: set<Word>)
    requires a.Valid()
  {
    forall w :: w in before && w !in after ==> w in vals && !ConsistentAsWritten(a.Put(sv, w))
  }

  /** Pruning during the rest of the loop, after keeping or rejecting its first value. */
  lemma PrunedOnlyStep(a: Assignment, sv: Variable, vals: seq<Word>, before: set<Word>, mid: set<Word>, after: set<Word>)
    requires a.Valid() && vals != [] && PrunedOnly(a, sv, vals[1..], mid, after)
    requires mid == before || (mid == before - {vals[0]} && !ConsistentAsWritten(a.Put(sv, vals[0])))
    ensures PrunedOnly(a, sv, vals, before, after)
  {
    forall w | w in before && w !in after
      ensures w in vals && !ConsistentAsWritten(a.Put(sv, w))
    {
      if w !in mid {
        assert w == vals[0];
      }
    }
  }

  /**
    The value loop removes from `sv`'s domain only values it tried, and
    only those for which `consistent` returned False.
   */
  lemma {:induction false} TryValuesPrunesFailures(cw: Crossword, d: Domains, a: Assignment, sv: Variable, vals: seq<Word>, failed: bool)
    requires SearchState(cw, d, a) && sv in cw.variables && sv !in a.entries
    requires Distinct(vals) && forall w :: w in vals ==> w in d[sv]
    ensures PrunedOnly(a, sv, vals, d[sv], TryValues(cw, d, a, sv, vals, failed).1[sv])
    decreases |vals|
  {
    if vals != [] && !failed {
      var w := vals[0];
      if ConsistentAsWritten(a.Put(sv, w)) {
        TryAcceptedKeepsDomain(cw, d, a, sv, vals);
      } else {
        TryRejects(cw, d, a, sv, vals);
        TryValuesPrunesFailures(cw, d[sv := d[sv] - {w}], a, sv, vals[1..], false);
        PrunedOnlyStep(a, sv, vals, d[sv], d[sv] - {w}, TryValues(cw, d, a, sv, vals, failed).1[sv]);
      }
    }
  }

  /** When the first value passes `consistent`, the loop ends with sv's domain as it was. */
  lemma TryAcceptedKeepsDomain(cw: Crossword, d: Domains, a: Assignment, sv: Variable, vals: seq<Word>)
    requires SearchState(cw, d, a) && sv in cw.variables && sv !in a.entries
    requires Distinct(vals) && (forall w :: w in vals ==> w in d[sv]) && vals != []
    requires ConsistentAsWritten(a.Put(sv, vals[0]))
    ensures TryValues(cw, d, a, sv, vals, false).1[sv] == d[sv]
  {
    TryAccepts(cw, d, a, sv, vals);
    var (o, d') := Search(cw, d, a.Put(sv, vals[0]));
    if o.NoSolution? {
      TryRecursionFails(cw, d, a, sv, vals);
      if vals[1..] != [] {
        TryCrashes(cw, d', a, sv, vals[1..]);
      }
    }
  }

  /**
    The only words removed from a domain during the whole search are
    words of variables that were unassigned at the call.
   */
  lemma SearchPrunesUnassignedOnly(cw: Crossword, d: Domains, a: Assignment, v: Variable, w: Word)
    requires SearchState(cw, d, a) && v in d && w in d[v] && w !in Search(cw, d, a).1[v]
    ensures v !in a.entries
  {
  }

  /**
    `backtrack` as written is not a backtracking search: two one-letter
    slots A and B that do not cross, domains A = {a, b} and B = {a}. A
    takes "a", then B's only word repeats it, the inner call returns
    `None`, and the loop crashes on A's next value "b", although
    A = "b", B = "a" solves the puzzle.
   */
  const LoneA := Variable(0, 0, Across, 1)
  const LoneB := Variable(2, 0, Across, 1)

  function LonePuzzle(): Crossword {
    Crossword(3, 1, [LoneA, LoneB], ["a", "b"],
              map[(LoneA, LoneB) := None, (LoneB, LoneA) := None],
              map[LoneA := [], LoneB := []])
  }

  function LoneStart(): Domains {
    map[LoneA := {"a", "b"}, LoneB := {"a"}]
  }

  lemma LonePuzzleValid(cw: Crossword, d: Domains)
    requires cw == LonePuzzle() && d == LoneStart()
    ensures cw.Valid() && d.Keys == cw.VariableSet()
  {
    assert cw.VariableSet() == {LoneA, LoneB};
    forall x, y ensures (x, y) in cw.overlaps <==> cw.IsArc(x, y) {
      if cw.IsArc(x, y) {
        assert x == LoneA || x == LoneB;
        assert y == LoneA || y == LoneB;
      }
    }
  }

  /** A call on a dict that is not full tries the selected variable's words in order. */
  lemma SearchSelects(cw: Crossword, d: Domains, a: Assignment)
    requires SearchState(cw, d, a) && |a.order| < |cw.variables|
    ensures exists v :: v in cw.variables && v !in a.entries
    ensures var sv := Selected(cw, a);
            Search(cw, d, a) == TryValues(cw, d, a, sv, InDomainOrder(cw.words, d[sv]), false)
  {
    UnassignedExists(cw, a);
  }

  /** A value that fails `consistent` is removed, and the loop goes on. */
  lemma TryRejects(cw: Crossword, d: Domains, a: Assignment, sv: Variable, vals: seq<Word>)
    requires SearchState(cw, d, a) && sv in cw.variables && sv !in a.entries
    requires Distinct(vals) && (forall w :: w in vals ==> w in d[sv]) && vals != []
    requires !ConsistentAsWritten(a.Put(sv, vals[0]))
    ensures forall w :: w in vals[1..] ==> w in d[sv := d[sv] - {vals[0]}][sv]
    ensures TryValues(cw, d, a, sv, vals, false) ==
            TryValues(cw, d[sv := d[sv] - {vals[0]}], a, sv, vals[1..], false)
  {
    DistinctTail(vals);
  }

  /** A value that passes `consistent`: a solution or a crash of the recursive call ends the loop. */
  lemma TryAccepts(cw: Crossword, d: Domains, a: Assignment, sv: Variable, vals: seq<Word>)
    requires SearchState(cw, d, a) && sv in cw.variables && sv !in a.entries
    requires Distinct(vals) && (forall w :: w in vals ==> w in d[sv]) && vals != []
    requires ConsistentAsWritten(a.Put(sv, vals[0]))
    ensures SearchState(cw, d, a.Put(sv, vals[0]))
    ensures var (o, d') := Search(cw, d, a.Put(sv, vals[0]));
            && (o.Solution? ==> TryValues(cw, d, a, sv, vals, false) == (o, d'))
            && (o.Crash? ==> TryValues(cw, d, a, sv, vals, false) == (Crash, d'))
  {
    assert a.Put(sv, vals[0]).entries.Keys == a.entries.Keys + {sv};
  }

  /** Once `assignment` is None, the next value crashes the loop. */
  lemma TryCrashes(cw: Crossword, d: Domains, a: Assignment, sv: Variable, vals: seq<Word>)
    requires SearchState(cw, d, a) && sv in cw.variables && sv !in a.entries
    requires Distinct(vals) && (forall w :: w in vals ==> w in d[sv]) && vals != []
    ensures TryValues(cw, d, a, sv, vals, true) == (Crash, d)
  {
  }

  /** A value whose recursive call returns `None`: the loop goes on with `assignment` = None. */
  lemma TryRecursionFails(cw: Crossword, d: Domains, a: Assignment, sv: Variable, vals: seq<Word>)
    requires SearchState(cw, d, a) && sv in cw.variables && sv !in a.entries
    requires Distinct(vals) && (forall w :: w in vals ==> w in d[sv]) && vals != []
    requires ConsistentAsWritten(a.Put(sv, vals[0]))
    requires SearchState(cw, d, a.Put(sv, vals[0])) && Search(cw, d, a.Put(sv, vals[0])).0 == NoSolution
    ensures var d' := Search(cw, d, a.Put(sv, vals[0])).1;
            d'.Keys == d.Keys && (forall w :: w in vals[1..] ==> w in d'[sv]) &&
            TryValues(cw, d, a, sv, vals, false) == TryValues(cw, d', a, sv, vals[1..], true)
  {
    assert a.Put(sv, vals[0]).entries.Keys == a.entries.Keys + {sv};
  }

  /** B's domain {a}, in vocabulary order. */
  lemma LoneOrderB(cw: Crossword)
    requires cw == LonePuzzle()
    ensures InDomainOrder(cw.words, {"a"}) == ["a"]
  {
    assert cw.words[..1] == ["a"] && cw.words[..1][..0] == [];
    assert "b" != "a" by { assert "b"[0] != "a"[0]; }
    assert InDomainOrder(cw.words, {"a"}) == InDomainOrder(["a"], {"a"});
  }

  /** A's domain {a, b}, in vocabulary order. */
  lemma LoneOrderA(cw: Crossword)
    requires cw == LonePuzzle()
    ensures InDomainOrder(cw.words, {"a", "b"}) == ["a", "b"]
  {
    assert cw.words[..1] == ["a"] && cw.words[..1][..0] == [];
    assert InDomainOrder(cw.words, {"a", "b"}) == InDomainOrder(["a"], {"a", "b"}) + ["b"];
  }

  /** A = "a" passes `consistent`. */
  lemma LoneFirstPick(a: Assignment)
    requires a == Empty.Put(LoneA, "a")
    ensures a == Assignment([LoneA], map[LoneA := "a"])
    ensures a.Valid() && a.order == [LoneA] && ConsistentAsWritten(a)
  {
    assert a.order == [] + [LoneA] == [LoneA];
    assert a.entries == map[LoneA := "a"];
    assert forall v :: v in a.entries ==> v == LoneA;
  }

  /** Adding B = "a" to A = "a" repeats the word. */
  lemma LoneSecondPick(a: Assignment)
    requires a == Assignment([LoneA], map[LoneA := "a"])
    ensures a.Valid() && !ConsistentAsWritten(a.Put(LoneB, "a"))
  {
    assert LoneA != LoneB;
    assert a.Put(LoneB, "a").entries == map[LoneA := "a", LoneB := "a"];
  }

  /** The inner call: B's only word repeats A's, so it is pruned and `None` comes back. */
  lemma LoneInner(cw: Crossword, d: Domains, a: Assignment)
    requires cw == LonePuzzle() && d == LoneStart() && cw.Valid() && d.Keys == cw.VariableSet()
    requires a == Empty.Put(LoneA, "a")
    ensures SearchState(cw, d, a) && Search(cw, d, a).0 == NoSolution
  {
    LoneFirstPick(a);
    LoneSecondPick(a);
    LoneOrderB(cw);
    SearchSelects(cw, d, a);
    assert Selected(cw, a) == LoneB;
    TryRejects(cw, d, a, LoneB, ["a"]);
    assert ["a"][1..] == [];
  }

  /** The outer call crashes on A's second value. */
  lemma LoneOuter(cw: Crossword, d: Domains)
    requires cw == LonePuzzle() && d == LoneStart() && cw.Valid() && d.Keys == cw.VariableSet()
    ensures SearchState(cw, d, Empty) && Search(cw, d, Empty).0 == Crash
  {
    LoneOrderA(cw);
    SearchSelects(cw, d, Empty);
    assert Selected(cw, Empty) == LoneA;
    var a := Empty.Put(LoneA, "a");
    LoneFirstPick(a);
    LoneInner(cw, d, a);
    TryRecursionFails(cw, d, Empty, LoneA, ["a", "b"]);
    assert ["a", "b"][1..] == ["b"];
  }

  /** A = "b", B = "a" meets every constraint within the domains. */
  lemma LoneSolution(cw: Crossword, d: Domains, s: Assignment)
    requires cw == LonePuzzle() && d == LoneStart()
    requires s == Assignment([LoneA, LoneB], map[LoneA := "b", LoneB := "a"])
    ensures s.Valid() && IsComplete(cw, s) && FullyConsistent(cw, s)
    ensures forall v :: v in cw.variables ==> s.entries[v] in d[v]
  {
    assert s.entries[LoneA] != s.entries[LoneB];
  }

  /**
    A puzzle in which `backtrack(dict())` crashes although an assignment
    exists that gives every variable a word of its domain and meets every
    constraint.
   */
  lemma BacktrackCrashesOnSolvable()
    ensures exists cw: Crossword, d: Domains, s: Assignment ::
      && SearchState(cw, d, Empty) && Search(cw, d, Empty).0 == Crash
      && s.Valid() && IsComplete(cw, s) && FullyConsistent(cw, s)
      && forall v :: v in cw.variables ==> s.entries[v] in d[v]
  {
    var cw, d := LonePuzzle(), LoneStart();
    var s := Assignment([LoneA, LoneB], map[LoneA := "b", LoneB := "a"]);
    LonePuzzleValid(cw, d);
    LoneOuter(cw, d);
    LoneSolution(cw, d, s);
  }
}
