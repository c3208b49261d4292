/**
  The letter grid of an assignment: every assigned word written into the
  cells of its slot, one letter per cell, in the dict's insertion order.
  A cell no word covers stays empty; where two words cover a cell, the one
  written last decides its letter.
 */
module Grid {
  import opened Puzzle
  import opened Assignments

  /** The row of a slot's k-th cell. */
  function Row(v: Variable, k: nat): nat {
    v.i + (if v.direction == Down then k else 0)
  }

  /** The column of a slot's k-th cell. */
  function Col(v: Variable, k: nat): nat {
    v.j + (if v.direction == Across then k else 0)
  }

  /** A word of length len written into slot v covers the cell (r, c). */
  predicate Covers(v: Variable, len: nat, r: nat, c: nat) {
    if v.direction == Down then c == v.j && v.i <= r < v.i + len
    else r == v.i && v.j <= c < v.j + len
  }

  /** The position in v's word of a cell the word covers. */
  function Offset(v: Variable, len: nat, r: nat, c: nat): (k: nat)
    requires Covers(v, len, r, c)
    ensures k < len && Row(v, k) == r && Col(v, k) == c
  {
    if v.direction == Down then r - v.i else c - v.j
  }

  /** The k-th cell of a slot is covered by its word exactly when k is within the word. */
  lemma CoversOwnCell(v: Variable, len: nat, k: nat)
    ensures Covers(v, len, Row(v, k), Col(v, k)) <==> k < len
    ensures k < len ==> Offset(v, len, Row(v, k), Col(v, k)) == k
  {
  }

  /** Writing one more letter of a word covers exactly one more cell, the k-th. */
  lemma CoversStep(v: Variable, k: nat, r: nat, c: nat)
    ensures Covers(v, k + 1, r, c) <==> Covers(v, k, r, c) || (r == Row(v, k) && c == Col(v, k))
    ensures Covers(v, k, r, c) ==> Offset(v, k + 1, r, c) == Offset(v, k, r, c)
    ensures r == Row(v, k) && c == Col(v, k) ==> Offset(v, k + 1, r, c) == k
  {
  }

  /**
    The letter in (r, c) once the words of the listed variables have been
    written in order: the letter of the last of them that covers the cell.
   */
  function CellOf(order: seq<Variable>, entries: map<Variable, Word>, r: nat, c: nat): (cell: Option<char>)
    requires forall v :: v in order ==> v in entries
    ensures cell.Some? ==> exists v :: v in order && Covers(v, |entries[v]|, r, c) &&
                                       cell.value == entries[v][Offset(v, |entries[v]|, r, c)]
  {
    if order == [] then None
    else
      var v := order[|order| - 1];
      var w := entries[v];
      if Covers(v, |w|, r, c) then Some(w[Offset(v, |w|, r, c)])
      else
        var front := order[..|order| - 1];
        assert forall u :: u in front ==> u in order;
        CellOf(front, entries, r, c)
  }

  /** Every letter of every word lands inside the height x width grid. */
  predicate FitsGrid(height: nat, width: nat, a: Assignment) {
    forall v: Variable, k: nat :: v in a.entries && k < |a.entries[v]| ==> Row(v, k) < height && Col(v, k) < width
  }

  /** A cell is empty exactly when none of the written words covers it. */
  lemma {:induction false} CellEmptyIffUncovered(order: seq<Variable>, entries: map<Variable, Word>, r: nat, c: nat)
    requires forall v :: v in order ==> v in entries
    ensures CellOf(order, entries, r, c).None? <==> forall v :: v in order ==> !Covers(v, |entries[v]|, r, c)
  {
    if order != [] {
      var front := order[..|order| - 1];
      CellEmptyIffUncovered(front, entries, r, c);
      assert order == front + [order[|order| - 1]];
    }
  }

  /**
    The geometry behind the overlap table: when two distinct slots share a
    cell, the overlap entry of the pair names the two positions of that cell.
   */
  ghost predicate OverlapsMatchCells(cw: Crossword) {
    forall u: Variable, v: Variable, k: nat, l: nat ::
      u in cw.variables && v in cw.variables && u != v && k < u.length && l < v.length &&
      Row(u, k) == Row(v, l) && Col(u, k) == Col(v, l) ==>
        (u, v) in cw.overlaps && cw.overlaps[(u, v)] == Some((k, l))
  }

  /**
    Writing the first n entries of a: a consistent assignment shows the
    k-th letter of v's word in v's k-th cell, whichever of the words that
    cover that cell is written last.
   */
  lemma {:induction false} CellShowsLetter(cw: Crossword, a: Assignment, n: nat, v: Variable, k: nat)
    requires a.Valid() && OverVariables(cw, a) && LengthsMatch(a) && OverlapsAgree(cw, a) && OverlapsMatchCells(cw)
    requires n <= |a.order| && v in a.order[..n] && k < |a.entries[v]|
    ensures CellOf(a.order[..n], a.entries, Row(v, k), Col(v, k)) == Some(a.entries[v][k])
  {
    var order := a.order[..n];
    var u := order[n - 1];
    var wu := a.entries[u];
    assert order[..n - 1] == a.order[..n - 1];
    if u == v {
      CoversOwnCell(v, |wu|, k);
    } else if Covers(u, |wu|, Row(v, k), Col(v, k)) {
      var l := Offset(u, |wu|, Row(v, k), Col(v, k));
      assert a.entries[v][k] == wu[l];
    } else {
      assert v in a.order[..n - 1];
      CellShowsLetter(cw, a, n - 1, v, k);
    }
  }

  /** The grid of a consistent assignment shows every assigned word in its slot. */
  lemma GridShowsEveryWord(cw: Crossword, a: Assignment)
    requires a.Valid() && OverVariables(cw, a) && LengthsMatch(a) && OverlapsAgree(cw, a) && OverlapsMatchCells(cw)
    ensures forall v: Variable, k: nat :: v in a.entries && k < |a.entries[v]| ==>
              CellOf(a.order, a.entries, Row(v, k), Col(v, k)) == Some(a.entries[v][k])
  {
    forall v: Variable, k: nat | v in a.entries && k < |a.entries[v]|
      ensures CellOf(a.order, a.entries, Row(v, k), Col(v, k)) == Some(a.entries[v][k])
    {
      assert a.order[..|a.order|] == a.order;
      CellShowsLetter(cw, a, |a.order|, v, k);
    }
  }
}
