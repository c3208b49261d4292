/**
  The crossword generator: an object holding the puzzle and the domain
  store, with node consistency, `revise`, AC-3, the helpers of the search,
  the backtracking search itself, `solve` and `letter_grid`. Each
  operation that changes the store is proved equal to the function of the
  store that specifies it; the properties are proved about those functions.
 */
module Generator {
  import opened Puzzle
  import opened Assignments
  import opened Domains
  import opened ArcConsistency
  import opened Backtracking
  import opened Grid

  /** The first two steps of `solve`: node consistency, then AC-3 over every arc. */
  function NodeThenArcConsistent(cw: Crossword, d: Domains): (r: (bool, Domains))
    requires cw.Valid() && WellFormed(cw, d)
    ensures r.1.Keys == d.Keys && LengthsFit(r.1)
    ensures forall v :: v in d ==> r.1[v] <= d[v]
  {
    NodeConsistentFilters(d);
    AllArcsAreOverlaps(cw);
    Ac3Run(cw, NodeConsistent(d), AllArcs(cw))
  }

  /**
    What `solve` computes from a store d: node consistency and AC-3, whose
    answer is ignored, then `backtrack` from the empty dict.
   */
  function SolveRun(cw: Crossword, d: Domains): (r: (Outcome, Domains))
    requires cw.Valid() && WellFormed(cw, d)
    ensures r.1.Keys == d.Keys
  {
    Search(cw, NodeThenArcConsistent(cw, d).1, Empty)
  }

  /** Listing the arcs of one more variable extends the list by that variable's arcs. */
  lemma ArcsFromStep(cw: Crossword, vs: seq<Variable>, n: nat)
    requires n < |vs| && forall v :: v in vs ==> v in cw.neighbors
    ensures ArcsFrom(cw, vs[..n + 1]) == ArcsFrom(cw, vs[..n]) + ArcsOf(vs[n], cw.neighbors[vs[n]])
  {
    assert vs[..n + 1][..n] == vs[..n];
  }

  /** Scanning one more neighbour appends (x, z) to the re-enqueued arcs unless z is y. */
  lemma RequeueStep(x: Variable, ns: seq<Variable>, y: Variable, k: nat)
    requires k < |ns|
    ensures Requeue(x, ns[..k + 1], y) == Requeue(x, ns[..k], y) + (if ns[k] != y then [(x, ns[k])] else [])
  {
    assert ns[..k + 1][..k] == ns[..k];
  }

  /** The two letters of an overlap agree; false when either word is missing or too short. */
  predicate LettersAgree(a: Assignment, u: Variable, v: Variable, k: nat, l: nat) {
    u in a.entries && v in a.entries && Supports(a.entries[u], k, a.entries[v], l)
  }

  /** The first n entries hold distinct words of the right lengths. */
  predicate PrefixWellSized(a: Assignment, n: nat)
    requires n <= |a.order| && a.Valid()
  {
    && (forall k, l :: 0 <= k < l < n ==> a.entries[a.order[k]] != a.entries[a.order[l]])
    && (forall k :: 0 <= k < n ==> |a.entries[a.order[k]]| == a.order[k].length)
  }

  /** v and its neighbour u have the same letter in the cell they share. */
  predicate NeighbourAgrees(cw: Crossword, a: Assignment, v: Variable, u: Variable) {
    (v, u) in cw.overlaps && cw.overlaps[(v, u)].Some? &&
    LettersAgree(a, v, u, cw.overlaps[(v, u)].value.0, cw.overlaps[(v, u)].value.1)
  }

  /** Each of the first n entries agrees with every assigned neighbour. */
  predicate PrefixAgrees(cw: Crossword, a: Assignment, n: nat)
    requires n <= |a.order|
  {
    forall k, u :: 0 <= k < n && a.order[k] in cw.neighbors && u in cw.neighbors[a.order[k]] && u in a.entries ==>
      NeighbourAgrees(cw, a, a.order[k], u)
  }

  /** A word met earlier in the loop repeats, so the words are not distinct. */
  lemma RepeatedWord(a: Assignment, n: nat, words: seq<Word>)
    requires a.Valid() && n < |a.order|
    requires |words| == n && forall k :: 0 <= k < n ==> words[k] == a.entries[a.order[k]]
    requires a.entries[a.order[n]] in words
    ensures !WordsDistinct(a)
  {
    var k :| 0 <= k < n && words[k] == a.entries[a.order[n]];
    assert a.order[k] != a.order[n];
  }

  /** Appending entry n's word keeps the list of the words met so far. */
  lemma WordsSoFarStep(a: Assignment, n: nat, words: seq<Word>)
    requires a.Valid() && n < |a.order|
    requires |words| == n && forall k :: 0 <= k < n ==> words[k] == a.entries[a.order[k]]
    ensures forall k :: 0 <= k < n + 1 ==> (words + [a.entries[a.order[n]]])[k] == a.entries[a.order[k]]
  {
  }

  /** Entry n, distinct from the earlier words and of the right length, extends the prefix. */
  lemma PrefixStep(a: Assignment, n: nat)
    requires a.Valid() && n < |a.order| && PrefixWellSized(a, n)
    requires forall k :: 0 <= k < n ==> a.entries[a.order[k]] != a.entries[a.order[n]]
    requires |a.entries[a.order[n]]| == a.order[n].length
    ensures PrefixWellSized(a, n + 1)
  {
  }

  /** Entry n, agreeing with its assigned neighbours, extends the agreeing prefix. */
  lemma PrefixAgreesStep(cw: Crossword, a: Assignment, n: nat)
    requires n < |a.order| && PrefixAgrees(cw, a, n) && a.order[n] in cw.neighbors
    requires forall u :: u in cw.neighbors[a.order[n]] && u in a.entries ==> NeighbourAgrees(cw, a, a.order[n], u)
    ensures PrefixAgrees(cw, a, n + 1)
  {
  }

  /** The whole dict checked: distinct words, each of the right length. */
  lemma PrefixWhole(a: Assignment)
    requires a.Valid() && PrefixWellSized(a, |a.order|)
    ensures ConsistentAsWritten(a)
  {
    forall u, v | u in a.entries && v in a.entries && u != v
      ensures a.entries[u] != a.entries[v]
    {
      var k :| 0 <= k < |a.order| && a.order[k] == u;
      var l :| 0 <= l < |a.order| && a.order[l] == v;
      assert k != l;
    }
    forall v | v in a.entries ensures |a.entries[v]| == v.length {
      var k :| 0 <= k < |a.order| && a.order[k] == v;
    }
  }

  /** The whole dict checked: every overlap of two assigned variables agrees. */
  lemma PrefixAgreesWhole(cw: Crossword, a: Assignment)
    requires cw.Valid() && a.Valid() && OverVariables(cw, a) && PrefixAgrees(cw, a, |a.order|)
    ensures OverlapsAgree(cw, a)
  {
    forall u, v | u in a.entries && v in a.entries && (u, v) in cw.overlaps && cw.overlaps[(u, v)].Some?
      ensures var (k, l) := cw.overlaps[(u, v)].value;
              k < |a.entries[u]| && l < |a.entries[v]| && a.entries[u][k] == a.entries[v][l]
    {
      var k :| 0 <= k < |a.order| && a.order[k] == u;
      assert v in cw.neighbors[u];
      assert NeighbourAgrees(cw, a, u, v);
    }
  }

  class CrosswordCreator {
    const crossword: Crossword
    var domains: Domains

    /** The puzzle is well formed and every variable has a domain of vocabulary words. */
    ghost predicate Valid()
      reads this
    {
      crossword.Valid() && WellFormed(crossword, domains)
    }

    /** Every variable starts with the whole vocabulary. */
    constructor (cw: Crossword)
      requires cw.Valid()
      ensures crossword == cw && domains == InitialDomains(cw) && Valid()
    {
      crossword := cw;
      domains := map v | v in cw.variables :: cw.Vocabulary();
    }

    /** Cuts every domain down to the words of its variable's length. */
    method EnforceNodeConsistency()
      requires Valid()
      modifies this
      ensures Valid() && domains == NodeConsistent(old(domains)) && LengthsFit(domains)
    {
      NodeConsistentFilters(domains);
      NodeConsistentOnEnds(domains, crossword.variables);
      var vars := crossword.variables;
      var n := 0;
      while n < |vars|
        invariant 0 <= n <= |vars|
        invariant domains == NodeConsistentOn(old(domains), vars[..n])
      {
        var x := vars[n];
        NodeConsistentOnStep(old(domains), vars, n);
        var testSet := WordsOfLength(x, domains[x]);
        domains := domains[x := testSet];
        n := n + 1;
      }
      assert vars[..n] == vars;
    }

    /** The inner loop of `enforce_node_consistency`: a copy of words without those of the wrong length. */
    method WordsOfLength(x: Variable, words: set<Word>) returns (testSet: set<Word>)
      ensures testSet == set w | w in words && |w| == x.length
    {
      testSet := words;
      var rest := words;
      while rest != {}
        invariant rest <= words && testSet <= words
        invariant forall u :: u in words ==> (u in testSet <==> u in rest || |u| == x.length)
        decreases rest
      {
        var word :| word in rest;
        if |word| != x.length {
          testSet := testSet - {word};
        }
        rest := rest - {word};
      }
    }

    /**
      `revise(x, y)`: drops from x's domain every word whose letter at the
      overlap no word of y's domain shares, and reports whether it dropped one.
     */
    method Revise(x: Variable, y: Variable) returns (revised: bool)
      requires Valid() && crossword.IsArc(x, y) && FitsOverlaps(crossword, domains)
      modifies this
      ensures Valid() && FitsOverlaps(crossword, domains)
      ensures (revised, domains) == ReviseStep(crossword, old(domains), x, y)
    {
      revised := false;
      match crossword.overlaps[(x, y)]
      case None =>
      case Some((i, j)) =>
        var ys := domains[y];
        assert crossword.overlaps[(y, x)] == Some((j, i));
        var copy := domains[x];
        var rest := copy;
        assert old(domains)[x := copy] == old(domains);
        while rest != {}
          invariant rest <= copy && x in domains
          invariant domains == old(domains)[x := domains[x]]
          invariant domains[x] == set w | w in copy && (w in rest || HasSupport(w, i, ys, j))
          invariant revised <==> domains[x] != copy
          decreases rest
        {
          var word1 :| word1 in rest;
          var hasOption := false;
          var others := ys;
          while others != {}
            invariant others <= ys
            invariant hasOption ==> HasSupport(word1, i, ys, j)
            invariant !hasOption ==> forall w2 :: w2 in ys - others ==> !Supports(word1, i, w2, j)
            decreases others
          {
            var word2 :| word2 in others;
            if word1[i] == word2[j] {
              hasOption := true;
              break;
            }
            others := others - {word2};
          }
          ghost var kept := domains[x];
          if !hasOption {
            assert !HasSupport(word1, i, ys, j);
            domains := domains[x := domains[x] - {word1}];
            revised := true;
          }
          rest := rest - {word1};
          assert domains[x] == if hasOption then kept else kept - {word1};
        }
        assert domains[x] == Revised(copy, ys, i, j);
    }

    /** The arcs (v, n) for every variable v and each of its neighbours n, in iteration order. */
    method AllArcsList() returns (arcs: seq<Arc>)
      requires Valid()
      ensures arcs == AllArcs(crossword)
    {
      var vars := crossword.variables;
      arcs := [];
      var n := 0;
      while n < |vars|
        invariant 0 <= n <= |vars|
        invariant arcs == ArcsFrom(crossword, vars[..n])
      {
        var arcsOfV := NeighbourArcs(vars[n]);
        arcs := arcs + arcsOfV;
        ArcsFromStep(crossword, vars, n);
        n := n + 1;
      }
      assert vars[..n] == vars;
    }

    /** The inner loop of the arc listing: the arcs (v, n) for each neighbour n of v. */
    method NeighbourArcs(v: Variable) returns (arcs: seq<Arc>)
      requires v in crossword.neighbors
      ensures arcs == ArcsOf(v, crossword.neighbors[v])
    {
      var neighs := crossword.neighbors[v];
      arcs := [];
      var m := 0;
      while m < |neighs|
        invariant 0 <= m <= |neighs|
        invariant arcs == ArcsOf(v, neighs[..m])
      {
        assert neighs[..m + 1][..m] == neighs[..m];
        arcs := arcs + [(v, neighs[m])];
        m := m + 1;
      }
      assert neighs[..m] == neighs;
    }

    /**
      `ac3(arcs)`: revises the queued arcs first in, first out; after a
      revision that leaves x's domain non-empty, queues (x, z) for every
      neighbour z of x other than y; reports False as soon as a domain is
      emptied. With no arcs given it starts from every arc of the puzzle.
     */
    method AC3(arcs: Option<seq<Arc>>) returns (ok: bool)
      requires Valid() && FitsOverlaps(crossword, domains)
      requires arcs.Some? ==> ValidArcs(crossword, arcs.value)
      modifies this
      ensures Valid() && FitsOverlaps(crossword, domains)
      ensures ValidArcs(crossword, AllArcs(crossword))
      ensures (ok, domains) == Ac3Run(crossword, old(domains), if arcs.None? then AllArcs(crossword) else arcs.value)
    {
      AllArcsAreOverlaps(crossword);
      var q: seq<Arc>;
      if arcs.None? {
        q := AllArcsList();
      } else {
        q := arcs.value;
      }
      ghost var q0 := q;
      while q != []
        invariant Valid() && FitsOverlaps(crossword, domains) && ValidArcs(crossword, q)
        invariant Ac3Run(crossword, domains, q) == Ac3Run(crossword, old(domains), q0)
        decreases TotalSize(crossword.variables, domains), |q|
      {
        ghost var before, queued := domains, q;
        var (x, y) := q[0];
        q := q[1..];
        var revised := Revise(x, y);
        if revised {
          if |domains[x]| == 0 {
            Ac3RunEmpties(crossword, before, queued, domains);
            return false;
          }
          Ac3RunPrunes(crossword, before, queued, domains);
          ReviseLowersTotal(crossword, before, x, y);
          q := EnqueueNeighbors(q, x, y);
        } else {
          Ac3RunSkips(crossword, before, queued);
        }
      }
      return true;
    }

    /** The loop of `ac3` that appends (x, z) for every neighbour z of x other than y. */
    method EnqueueNeighbors(q: seq<Arc>, x: Variable, y: Variable) returns (q': seq<Arc>)
      requires x in crossword.neighbors
      ensures q' == q + Requeue(x, crossword.neighbors[x], y)
    {
      var neighs := crossword.neighbors[x];
      q' := q;
      var k := 0;
      while k < |neighs|
        invariant 0 <= k <= |neighs|
        invariant q' == q + Requeue(x, neighs[..k], y)
      {
        RequeueStep(x, neighs, y, k);
        if neighs[k] != y {
          q' := q' + [(x, neighs[k])];
        }
        k := k + 1;
      }
      assert neighs[..k] == neighs;
    }

    /** `assignment_complete`: every variable has a word (words are never None here). */
    method AssignmentComplete(a: Assignment) returns (flag: bool)
      ensures flag <==> IsComplete(crossword, a)
    {
      flag := true;
      var vars := crossword.variables;
      var n := 0;
      while n < |vars|
        invariant 0 <= n <= |vars|
        invariant flag <==> forall l :: 0 <= l < n ==> vars[l] in a.entries
      {
        if vars[n] !in a.entries {
          flag := false;
        }
        n := n + 1;
      }
    }

    /**
      `consistent`, as written: the first repeated word or wrongly sized
      word makes it False. The letter check at the overlaps asks whether the
      overlap pair is a key of the dict, which it never is, so it never runs.
     */
    method Consistent(a: Assignment) returns (flag: bool)
      requires Valid() && a.Valid() && OverVariables(crossword, a)
      ensures flag <==> ConsistentAsWritten(a)
    {
      flag := true;
      var words: seq<Word> := [];
      var n := 0;
      while n < |a.order|
        invariant 0 <= n <= |a.order| && flag
        invariant |words| == n && forall k :: 0 <= k < n ==> words[k] == a.entries[a.order[k]]
        invariant PrefixWellSized(a, n)
      {
        var v := a.order[n];
        var w := a.entries[v];
        if w in words {
          RepeatedWord(a, n, words);
          flag := false;
          break;
        }
        WordsSoFarStep(a, n, words);
        words := words + [w];
        if |w| != v.length {
          flag := false;
          break;
        }
        var neighs := crossword.neighbors[v];
        var m := 0;
        while m < |neighs|
          invariant 0 <= m <= |neighs| && flag
        {
          var neigh := neighs[m];
          NeighborIsArc(crossword, v, neigh);
          match crossword.overlaps[(v, neigh)]
          case None =>
          case Some(p) =>
            if PairKey(p) in DictKeys(a) {
              var (i, j) := p;
              if !LettersAgree(a, v, neigh, i, j) {
                flag := false;
              }
            }
          m := m + 1;
        }
        PrefixStep(a, n);
        n := n + 1;
      }
      if flag {
        PrefixWhole(a);
      }
    }

    /**
      `consistent` as its documentation describes it: the letter check runs
      for every assigned neighbour, so the result is exact consistency.
     */
    method ConsistentIntended(a: Assignment) returns (flag: bool)
      requires Valid() && a.Valid() && OverVariables(crossword, a)
      ensures flag <==> FullyConsistent(crossword, a)
    {
      flag := true;
      var words: seq<Word> := [];
      var n := 0;
      while n < |a.order|
        invariant 0 <= n <= |a.order|
        invariant !flag ==> !FullyConsistent(crossword, a)
        invariant |words| == n && forall k :: 0 <= k < n ==> words[k] == a.entries[a.order[k]]
        invariant flag ==> PrefixWellSized(a, n) && PrefixAgrees(crossword, a, n)
      {
        var v := a.order[n];
        var w := a.entries[v];
        if w in words {
          RepeatedWord(a, n, words);
          flag := false;
          break;
        }
        WordsSoFarStep(a, n, words);
        words := words + [w];
        if |w| != v.length {
          assert !LengthsMatch(a);
          flag := false;
          break;
        }
        var agree := NeighboursAgree(a, v);
        if !agree {
          flag := false;
        } else if flag {
          PrefixStep(a, n);
          PrefixAgreesStep(crossword, a, n);
        }
        n := n + 1;
      }
      if flag {
        PrefixWhole(a);
        PrefixAgreesWhole(crossword, a);
      }
    }

    /** The inner loop of the corrected `consistent`: v agrees with every assigned neighbour. */
    method NeighboursAgree(a: Assignment, v: Variable) returns (agree: bool)
      requires Valid() && v in a.entries && OverVariables(crossword, a)
      ensures v in crossword.neighbors
      ensures agree <==> forall u :: u in crossword.neighbors[v] && u in a.entries ==> NeighbourAgrees(crossword, a, v, u)
      ensures !agree ==> !FullyConsistent(crossword, a)
    {
      agree := true;
      var neighs := crossword.neighbors[v];
      var m := 0;
      while m < |neighs|
        invariant 0 <= m <= |neighs|
        invariant agree <==> forall u :: u in neighs[..m] && u in a.entries ==> NeighbourAgrees(crossword, a, v, u)
        invariant !agree ==> !OverlapsAgree(crossword, a)
      {
        var neigh := neighs[m];
        NeighborIsArc(crossword, v, neigh);
        var (i, j) := crossword.overlaps[(v, neigh)].value;
        if neigh in a.entries && !LettersAgree(a, v, neigh, i, j) {
          agree := false;
        }
        assert neighs[..m + 1] == neighs[..m] + [neigh];
        m := m + 1;
      }
      assert neighs[..m] == neighs;
    }

    /** `order_domain_values`: the words of var's domain, in iteration order. */
    method OrderDomainValues(v: Variable, a: Assignment) returns (values: seq<Word>)
      requires Valid() && v in crossword.variables
      ensures values == InDomainOrder(crossword.words, domains[v])
      ensures Distinct(values) && (set w | w in values) == domains[v] && |values| == |domains[v]|
    {
      DomainOrderEnumerates(crossword.words, domains[v]);
      var words := crossword.words;
      var dom := domains[v];
      values := [];
      var n := 0;
      while n < |words|
        invariant 0 <= n <= |words|
        invariant values == InDomainOrder(words[..n], dom)
      {
        assert words[..n + 1][..n] == words[..n];
        if words[n] in dom {
          values := values + [words[n]];
        }
        n := n + 1;
      }
      assert words[..n] == words;
    }

    /** `select_unassigned_variable`: the first variable, in iteration order, the dict lacks. */
    method SelectUnassignedVariable(a: Assignment) returns (v: Variable)
      requires exists u :: u in crossword.variables && u !in a.entries
      ensures v == Selected(crossword, a)
      ensures v in crossword.variables && v !in a.entries
    {
      var vars := crossword.variables;
      var k := FirstUnassigned(vars, a);
      var notYetAssigned: seq<Variable> := [];
      var n := 0;
      while n < |vars|
        invariant 0 <= n <= |vars|
        invariant notYetAssigned == [] ==> forall l :: 0 <= l < n ==> vars[l] in a.entries
        invariant notYetAssigned != [] ==> notYetAssigned[0] == vars[k]
        invariant n > k ==> notYetAssigned != []
      {
        if vars[n] !in a.entries {
          notYetAssigned := notYetAssigned + [vars[n]];
        }
        n := n + 1;
      }
      v := notYetAssigned[0];
    }

    /**
      `backtrack(assignment)`: returns a full dict as it is; otherwise tries
      the selected variable's words in order, removing from its domain each
      word `consistent` rejects and searching on from each word it accepts.
      After a recursive None the next word is written into None and crashes.
     */
    method Backtrack(a: Assignment) returns (r: Outcome)
      requires Valid() && a.Valid() && OverVariables(crossword, a)
      modifies this
      ensures Valid() && (r, domains) == Search(crossword, old(domains), a)
      decreases crossword.VariableSet() - a.entries.Keys, 1
    {
      UnassignedExists(crossword, a);
      if |a.order| == |crossword.variables| {
        return Solution(a);
      }
      SearchSelects(crossword, domains, a);
      var sv := SelectUnassignedVariable(a);
      var values := OrderDomainValues(sv, a);
      var failed := false;
      var n := 0;
      while n < |values|
        invariant 0 <= n <= |values|
        invariant Valid() && Distinct(values[n..]) && forall w :: w in values[n..] ==> w in domains[sv]
        invariant Search(crossword, old(domains), a) == TryValues(crossword, domains, a, sv, values[n..], failed)
      {
        if failed {
          TryCrashes(crossword, domains, a, sv, values[n..]);
          return Crash;
        }
        var accepted, o := AttemptValue(a, sv, values[n], values[n..]);
        if !o.NoSolution? {
          return o;
        }
        assert values[n..][1..] == values[n + 1..];
        failed := accepted;
        n := n + 1;
      }
      return NoSolution;
    }

    /**
      One pass of the `for` loop of `backtrack`: writes w, the first of the
      values vals still to try, into the dict; searches on when `consistent`
      accepts it and removes it from the domain otherwise. A `NoSolution`
      outcome means the loop goes on, with `assignment` lost when the
      value was accepted.
     */
    method AttemptValue(a: Assignment, sv: Variable, w: Word, ghost vals: seq<Word>) returns (accepted: bool, o: Outcome)
      requires Valid() && a.Valid() && OverVariables(crossword, a) && sv in crossword.variables && sv !in a.entries
      requires vals != [] && w == vals[0] && Distinct(vals) && forall u :: u in vals ==> u in domains[sv]
      modifies this
      ensures Valid() && Distinct(vals[1..]) && forall u :: u in vals[1..] ==> u in domains[sv]
      ensures !o.NoSolution? ==> TryValues(crossword, old(domains), a, sv, vals, false) == (o, domains)
      ensures o.NoSolution? ==>
                TryValues(crossword, old(domains), a, sv, vals, false) == TryValues(crossword, domains, a, sv, vals[1..], accepted)
      decreases crossword.VariableSet() - a.entries.Keys, 0
    {
      var a' := a.Put(sv, w);
      assert a'.entries.Keys == a.entries.Keys + {sv};
      accepted := Consistent(a');
      if accepted {
        TryAccepts(crossword, domains, a, sv, vals);
        o := Backtrack(a');
        if o.NoSolution? {
          TryRecursionFails(crossword, old(domains), a, sv, vals);
        }
      } else {
        TryRejects(crossword, domains, a, sv, vals);
        RemoveKeepsWellFormed(crossword, domains, sv, w);
        domains := domains[sv := domains[sv] - {w}];
        o := NoSolution;
      }
    }

    /** `solve`: node consistency, AC-3 (its answer ignored), then the search from the empty dict. */
    method Solve() returns (r: Outcome)
      requires Valid()
      modifies this
      ensures Valid() && (r, domains) == SolveRun(crossword, old(domains))
    {
      EnforceNodeConsistency();
      LengthsFitOverlaps(crossword, domains);
      var _ := AC3(None);
      r := Backtrack(Empty);
    }

    /**
      `letter_grid`: a height x width grid, empty where no word is, with
      the words of the dict written in insertion order.
     */
    method LetterGrid(a: Assignment) returns (letters: array2<Option<char>>)
      requires a.Valid() && FitsGrid(crossword.height, crossword.width, a)
      ensures fresh(letters)
      ensures letters.Length0 == crossword.height && letters.Length1 == crossword.width
      ensures forall r, c :: 0 <= r < letters.Length0 && 0 <= c < letters.Length1 ==>
                letters[r, c] == CellOf(a.order, a.entries, r, c)
    {
      letters := new Option<char>[crossword.height, crossword.width]((_, _) => None);
      var n := 0;
      while n < |a.order|
        invariant 0 <= n <= |a.order|
        invariant forall r, c :: 0 <= r < letters.Length0 && 0 <= c < letters.Length1 ==>
                    letters[r, c] == CellOf(a.order[..n], a.entries, r, c)
      {
        var v := a.order[n];
        assert a.order[..n + 1][..n] == a.order[..n];
        WriteWord(letters, v, a.entries[v]);
        n := n + 1;
      }
      assert a.order[..n] == a.order;
    }

    /** The inner loop of `letter_grid`: the letters of one word written into the cells of its slot. */
    static method WriteWord(letters: array2<Option<char>>, v: Variable, word: Word)
      requires forall k :: 0 <= k < |word| ==> Row(v, k) < letters.Length0 && Col(v, k) < letters.Length1
      modifies letters
      ensures forall r, c :: 0 <= r < letters.Length0 && 0 <= c < letters.Length1 ==>
                letters[r, c] == if Covers(v, |word|, r, c) then Some(word[Offset(v, |word|, r, c)]) else old(letters[r, c])
    {
      var k := 0;
      while k < |word|
        invariant 0 <= k <= |word|
        invariant forall r, c :: 0 <= r < letters.Length0 && 0 <= c < letters.Length1 ==>
                    letters[r, c] == if Covers(v, k, r, c) then Some(word[Offset(v, k, r, c)]) else old(letters[r, c])
      {
        var i := v.i + (if v.direction == Down then k else 0);
        var j := v.j + (if v.direction == Across then k else 0);
        assert i == Row(v, k) && j == Col(v, k);
        letters[i, j] := Some(word[k]);
        forall r, c | 0 <= r < letters.Length0 && 0 <= c < letters.Length1 {
          CoversStep(v, k, r, c);
        }
        k := k + 1;
      }
    }
  }

  /**
    `solve` ignores what AC-3 reports: when AC-3 empties a domain the
    search still runs, and it can then find no solution.
   */
  lemma SolveAfterAc3FailureFindsNothing(cw: Crossword, d: Domains)
    requires cw.Valid() && WellFormed(cw, d) && !NodeThenArcConsistent(cw, d).0
    ensures !SolveRun(cw, d).0.Solution?
  {
    SolveWithEmptyDomainFindsNothing(cw, d);
  }

  /**
    Whether or not AC-3 noticed it, a domain left empty before the search
    means `solve` finds no solution: the search cannot give that variable
    a word.
   */
  lemma SolveWithEmptyDomainFindsNothing(cw: Crossword, d: Domains)
    requires cw.Valid() && WellFormed(cw, d)
    requires exists x :: x in d && NodeThenArcConsistent(cw, d).1[x] == {}
    ensures !SolveRun(cw, d).0.Solution?
  {
    var d2 := NodeThenArcConsistent(cw, d).1;
    var x :| x in d && d2[x] == {};
    SearchSound(cw, d2, Empty);
  }

  /**
    A dict `solve` returns gives every variable a word of its starting
    domain, and passed `consistent`: the words are distinct and of the
    right lengths.
   */
  lemma SolveRunSound(cw: Crossword, d: Domains)
    requires cw.Valid() && WellFormed(cw, d)
    ensures var o := SolveRun(cw, d).0;
            o.Solution? ==>
              && o.assignment.Valid() && IsComplete(cw, o.assignment) && OverVariables(cw, o.assignment)
              && ConsistentAsWritten(o.assignment)
              && forall v :: v in cw.variables ==> o.assignment.entries[v] in d[v]
  {
    var d2 := NodeThenArcConsistent(cw, d).1;
    SearchSound(cw, d2, Empty);
  }
}
