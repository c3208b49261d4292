/**
  The domain store: for each variable, the set of words still possible for
  it, together with the two pruning steps on it, node consistency and
  `revise`, given here as functions of the store.
 */
module Domains {
  import opened Puzzle

  type Domains = map<Variable, set<Word>>

  /** Every variable has a domain, and domains hold vocabulary words only. */
  ghost predicate WellFormed(cw: Crossword, d: Domains) {
    d.Keys == cw.VariableSet() && forall v :: v in d ==> d[v] <= cw.Vocabulary()
  }

  /** Removing a word from one domain keeps the store well formed. */
  lemma RemoveKeepsWellFormed(cw: Crossword, d: Domains, x: Variable, w: Word)
    requires WellFormed(cw, d) && x in d
    ensures WellFormed(cw, d[x := d[x] - {w}])
  {
  }

  /** The store as `__init__` seeds it: the whole vocabulary for every variable. */
  function InitialDomains(cw: Crossword): (d: Domains)
    ensures WellFormed(cw, d)
  {
    map v | v in cw.variables :: cw.Vocabulary()
  }

  /** Node consistency: every domain cut down to the words of its variable's length. */
  function NodeConsistent(d: Domains): (r: Domains)
    ensures r.Keys == d.Keys && LengthsFit(r)
    ensures forall x :: x in d ==> r[x] <= d[x]
  {
    map x | x in d :: set w | w in d[x] && |w| == x.length
  }

  /** Node consistency applied to the listed variables only: the store part way through the loop. */
  function NodeConsistentOn(d: Domains, vs: seq<Variable>): Domains {
    map x | x in d :: if x in vs then set w | w in d[x] && |w| == x.length else d[x]
  }

  /** Filtering one more variable updates that variable's domain alone. */
  lemma NodeConsistentOnStep(d: Domains, vs: seq<Variable>, n: nat)
    requires n < |vs| && vs[n] in d
    ensures NodeConsistentOn(d, vs[..n + 1]) ==
            NodeConsistentOn(d, vs[..n])[vs[n] := set w | w in d[vs[n]] && |w| == vs[n].length]
  {
    assert vs[..n + 1] == vs[..n] + [vs[n]];
  }

  /** Filtering no variable changes nothing; filtering every key is node consistency. */
  lemma NodeConsistentOnEnds(d: Domains, vs: seq<Variable>)
    ensures NodeConsistentOn(d, []) == d
    ensures (forall x :: x in d ==> x in vs) ==> NodeConsistentOn(d, vs) == NodeConsistent(d)
  {
  }

  /** Every remaining word has its variable's length. */
  ghost predicate LengthsFit(d: Domains) {
    forall x, w :: x in d && w in d[x] ==> |w| == x.length
  }

  /**
    Each word of x's domain is long enough to be indexed at x's side of
    every overlap of x: what `revise` needs to index `word_1[i]` and
    `word_2[j]`.
   */
  ghost predicate FitsOverlaps(cw: Crossword, d: Domains) {
    forall x, y, w :: (x, y) in cw.overlaps && cw.overlaps[(x, y)].Some? && x in d && w in d[x] ==>
      cw.overlaps[(x, y)].value.0 < |w|
  }

  /** Node consistency keeps the keys and keeps exactly the words of the right length. */
  lemma NodeConsistentFilters(d: Domains)
    ensures NodeConsistent(d).Keys == d.Keys
    ensures forall x, w :: x in d ==> (w in NodeConsistent(d)[x] <==> w in d[x] && |w| == x.length)
    ensures LengthsFit(NodeConsistent(d))
  {
  }

  /** Once every word has its variable's length, every overlap index is in range. */
  lemma {:induction false} LengthsFitOverlaps(cw: Crossword, d: Domains)
    requires cw.Valid() && LengthsFit(d)
    ensures FitsOverlaps(cw, d)
  {
    forall x, y, w | (x, y) in cw.overlaps && cw.overlaps[(x, y)].Some? && x in d && w in d[x]
      ensures cw.overlaps[(x, y)].value.0 < |w|
    {
      var (k, l) := cw.overlaps[(x, y)].value;
      assert k < x.length;
    }
  }

  /** Some word of ys agrees with w1 at the overlap (k, l). */
  predicate HasSupport(w1: Word, k: nat, ys: set<Word>, l: nat) {
    exists w2 :: w2 in ys && Supports(w1, k, w2, l)
  }

  /** xs without the words that no word of ys agrees with at (k, l). */
  function Revised(xs: set<Word>, ys: set<Word>, k: nat, l: nat): (r: set<Word>)
    ensures r <= xs
    ensures ys == {} ==> r == {}
  {
    set w1 | w1 in xs && HasSupport(w1, k, ys, l)
  }

  /** Every word of x's domain has a partner in y's domain, or x and y do not overlap. */
  ghost predicate ArcSupported(cw: Crossword, d: Domains, x: Variable, y: Variable)
    requires cw.IsArc(x, y) && cw.Valid() && x in d && y in d
  {
    match cw.overlaps[(x, y)]
    case None => true
    case Some((k, l)) => forall w :: w in d[x] ==> HasSupport(w, k, d[y], l)
  }

  /** Every arc of the puzzle is supported: the store is arc consistent. */
  ghost predicate ArcConsistent(cw: Crossword, d: Domains)
    requires cw.Valid() && d.Keys == cw.VariableSet()
  {
    forall x, y :: cw.IsArc(x, y) ==> ArcSupported(cw, d, x, y)
  }

  /**
    `revise(x, y)` as a function of the store: whether it reported a
    revision, and the store afterwards.
   */
  function ReviseStep(cw: Crossword, d: Domains, x: Variable, y: Variable): (r: (bool, Domains))
    requires cw.Valid() && cw.IsArc(x, y) && x in d && y in d
    ensures r.1.Keys == d.Keys && r.1[x] <= d[x]
    ensures forall v :: v in d && v != x ==> r.1[v] == d[v]
    ensures !r.0 ==> r.1 == d
    ensures r.0 ==> r.1[x] < d[x]
  {
    assert d[x := d[x]] == d;
    match cw.overlaps[(x, y)]
    case None => (false, d)
    case Some((k, l)) =>
      var kept := Revised(d[x], d[y], k, l);
      (kept != d[x], d[x := kept])
  }

  /** Without an overlap `revise` reports nothing and changes nothing. */
  lemma ReviseWithoutOverlap(cw: Crossword, d: Domains, x: Variable, y: Variable)
    requires cw.Valid() && cw.IsArc(x, y) && x in d && y in d
    requires cw.overlaps[(x, y)].None?
    ensures ReviseStep(cw, d, x, y) == (false, d)
  {
  }

  /**
    With an overlap (k, l), x keeps exactly the words that some word of y
    agrees with, and `revise` reports a revision exactly when x lost a word.
   */
  lemma ReviseKeepsSupported(cw: Crossword, d: Domains, x: Variable, y: Variable)
    requires cw.Valid() && cw.IsArc(x, y) && x in d && y in d
    requires cw.overlaps[(x, y)].Some?
    ensures var (k, l) := cw.overlaps[(x, y)].value;
            forall w :: w in ReviseStep(cw, d, x, y).1[x] <==> w in d[x] && HasSupport(w, k, d[y], l)
    ensures ReviseStep(cw, d, x, y).0 <==> |ReviseStep(cw, d, x, y).1[x]| < |d[x]|
  {
    var r := ReviseStep(cw, d, x, y);
    SubsetCardinality(r.1[x], d[x]);
  }

  /** On an arc that is already supported `revise` removes nothing. */
  lemma ReviseOnSupported(cw: Crossword, d: Domains, x: Variable, y: Variable)
    requires cw.Valid() && cw.IsArc(x, y) && x in d && y in d && ArcSupported(cw, d, x, y)
    ensures ReviseStep(cw, d, x, y) == (false, d)
  {
    if cw.overlaps[(x, y)].Some? {
      var (k, l) := cw.overlaps[(x, y)].value;
      assert Revised(d[x], d[y], k, l) == d[x];
    }
  }

  /** After `revise(x, y)` the arc (x, y) is supported. */
  lemma ReviseSupportsArc(cw: Crossword, d: Domains, x: Variable, y: Variable)
    requires cw.Valid() && d.Keys == cw.VariableSet() && cw.IsArc(x, y)
    ensures ArcSupported(cw, ReviseStep(cw, d, x, y).1, x, y)
  {
  }

  /** A second `revise(x, y)` right after the first finds nothing more to remove. */
  lemma ReviseIdempotent(cw: Crossword, d: Domains, x: Variable, y: Variable)
    requires cw.Valid() && cw.IsArc(x, y) && x in d && y in d
    ensures var d1 := ReviseStep(cw, d, x, y).1;
            ReviseStep(cw, d1, x, y) == (false, d1)
  {
    var d1 := ReviseStep(cw, d, x, y).1;
    if cw.overlaps[(x, y)].Some? {
      var (k, l) := cw.overlaps[(x, y)].value;
      assert Revised(d1[x], d1[y], k, l) == d1[x];
      assert d1[x := d1[x]] == d1;
    }
  }

  /** The sum of the domain sizes of the listed variables. */
  function TotalSize(vs: seq<Variable>, d: Domains): nat
    requires forall v :: v in vs ==> v in d
  {
    if vs == [] then 0 else |d[vs[0]]| + TotalSize(vs[1..], d)
  }

  /**
    Shrinking domains never raises the total, and strictly shrinking a
    listed one lowers it: the measure behind AC-3's termination.
   */
  lemma {:induction false} TotalSizeShrinks(vs: seq<Variable>, d: Domains, d': Domains, x: Variable)
    requires forall v :: v in vs ==> v in d && v in d' && d'[v] <= d[v]
    ensures TotalSize(vs, d') <= TotalSize(vs, d)
    ensures x in vs && d'[x] < d[x] ==> TotalSize(vs, d') < TotalSize(vs, d)
  {
    if vs != [] {
      TotalSizeShrinks(vs[1..], d, d', x);
      SubsetCardinality(d'[vs[0]], d[vs[0]]);
    }
  }

  /** A `revise` that reports a revision lowers the total domain size. */
  lemma ReviseLowersTotal(cw: Crossword, d: Domains, x: Variable, y: Variable)
    requires cw.Valid() && d.Keys == cw.VariableSet() && cw.IsArc(x, y) && ReviseStep(cw, d, x, y).0
    ensures TotalSize(cw.variables, ReviseStep(cw, d, x, y).1) < TotalSize(cw.variables, d)
  {
    var d' := ReviseStep(cw, d, x, y).1;
    assert forall v :: v in cw.variables ==> v in cw.VariableSet();
    TotalSizeShrinks(cw.variables, d, d', x);
  }

  /** The words of a domain, in vocabulary order: how `order_domain_values` lists them. */
  function InDomainOrder(words: seq<Word>, dom: set<Word>): (r: seq<Word>)
    ensures forall w :: w in r <==> w in words && w in dom
    ensures Distinct(words) ==> Distinct(r)
  {
    if words == [] then []
    else
      var w := words[|words| - 1];
      var front := InDomainOrder(words[..|words| - 1], dom);
      assert Distinct(words) ==> w !in words[..|words| - 1];
      if w in dom then front + [w] else front
  }

  /** With the domain inside the vocabulary, each word of it is listed exactly once. */
  lemma DomainOrderEnumerates(words: seq<Word>, dom: set<Word>)
    requires Distinct(words) && dom <= set w | w in words
    ensures var r := InDomainOrder(words, dom);
            Distinct(r) && (set w | w in r) == dom && |r| == |dom|
  {
    var r := InDomainOrder(words, dom);
    DistinctCardinality(r);
    assert (set w | w in r) == dom;
  }
}
