/**
  Backtracking search for the crossword: the completeness and consistency
  tests, the minimum-remaining-values and least-constraining-value
  heuristics, the recursive search and the top-level `solve`.
 */
module CrosswordSearch {
  import opened Wrappers
  import opened Sets
  import opened CrosswordPuzzle
  import opened CrosswordArcs

  /** True once every slot from position `k` on holds a word. */
  function AssignedFrom(cw: Crossword, a: Assignment, k: nat): (r: bool)
    requires k <= |cw.variables|
    ensures r <==> forall i :: k <= i < |cw.variables| ==> cw.variables[i] in a
    decreases |cw.variables| - k
  {
    if k == |cw.variables| then true
    else if cw.variables[k] !in a then false
    else AssignedFrom(cw, a, k + 1)
  }

  /** The assignment gives a word to every slot of the puzzle. */
  function AssignmentComplete(cw: Crossword, a: Assignment): (r: bool)
    ensures r <==> Slots(cw) <= a.Keys
  {
    AssignedFrom(cw, a, 0)
  }

  /** How many slots hold the word `w` (the count of `w` among the assignment's values). */
  function Occurrences(a: Assignment, w: Word): nat {
    |set v | v in a && a[v] == w|
  }

  /**
    The checks made for one entry `x` of the assignment: its word has the
    slot's length, occurs only once among the assigned words, and agrees with
    the word of every assigned slot crossing it.
   */
  predicate EntryConsistent(cw: Crossword, a: Assignment, x: Variable)
    requires x in a
  {
    && |a[x]| == x.length
    && Occurrences(a, a[x]) <= 1
    && forall y :: y in Neighbors(cw, x) && y in a && (x, y) in cw.overlaps ==>
         Agree(cw.overlaps[(x, y)], a[x], a[y])
  }

  /** A word held by exactly one slot occurs once; a shared word occurs at least twice. */
  lemma OccurrencesOfEntry(a: Assignment, x: Variable)
    requires x in a
    ensures Occurrences(a, a[x]) <= 1 <==> forall u :: u in a && u != x ==> a[u] != a[x]
  {
    var s := set v | v in a && a[v] == a[x];
    if forall u :: u in a && u != x ==> a[u] != a[x] {
      assert s == {x};
    } else {
      var u :| u in a && u != x && a[u] == a[x];
      assert {x, u} <= s;
      SubsetCard({x, u}, s);
    }
  }

  /** The per-entry checks, made for every entry, amount to validity. */
  lemma EntriesConsistentIffValid(cw: Crossword, a: Assignment)
    requires OverlapsSymmetric(cw)
    ensures (forall x :: x in a ==> EntryConsistent(cw, a, x)) <==> Valid(cw, a)
  {
    if forall x :: x in a ==> EntryConsistent(cw, a, x) {
      forall v, u | v in a && u in a && v != u ensures a[v] != a[u] {
        OccurrencesOfEntry(a, v);
      }
      forall p | p in cw.overlaps && p.0 in a && p.1 in a
        ensures Agree(cw.overlaps[p], a[p.0], a[p.1])
      {
        assert p.1 in Neighbors(cw, p.0);
        assert EntryConsistent(cw, a, p.0);
      }
    }
    if Valid(cw, a) {
      forall x | x in a ensures EntryConsistent(cw, a, x) {
        OccurrencesOfEntry(a, x);
      }
    }
  }

  /**
    Whether the words fit the puzzle without conflict: right lengths, no word
    used twice, and agreement at every crossing of two assigned slots.
   */
  function Consistent(cw: Crossword, a: Assignment): (r: bool)
    requires OverlapsSymmetric(cw)
    ensures r <==> Valid(cw, a)
  {
    EntriesConsistentIffValid(cw, a);
    forall x :: x in a ==> EntryConsistent(cw, a, x)
  }

  /**
    The selection scan over the slots from position `k` on. `best` is the
    slot chosen so far, with its domain size `minSize` and degree `highest`.
   */
  function SelectFrom(cw: Crossword, d: Domains, a: Assignment, k: nat,
                      best: Option<Variable>, minSize: int, highest: int): Option<Variable>
    requires Covers(cw, d) && k <= |cw.variables|
    decreases |cw.variables| - k
  {
    if k == |cw.variables| then best
    else
      var v := cw.variables[k];
      if v in a then SelectFrom(cw, d, a, k + 1, best, minSize, highest)
      else if |d[v]| < minSize || (|d[v]| == minSize && Degree(cw, v) > highest) then
        SelectFrom(cw, d, a, k + 1, Some(v), |d[v]|, Degree(cw, v))
      else SelectFrom(cw, d, a, k + 1, best, minSize, highest)
  }

  /** `v` is an unassigned slot that `best` beats: a smaller domain, or as small and no lower degree. */
  predicate NoBetter(cw: Crossword, d: Domains, best: Variable, v: Variable)
    requires best in d && v in d
  {
    |d[best]| <= |d[v]| && (|d[v]| == |d[best]| ==> Degree(cw, v) <= Degree(cw, best))
  }

  /** What the scan knows after the slots before position `k`. */
  predicate SelectInvariant(cw: Crossword, d: Domains, a: Assignment, k: nat,
                            best: Option<Variable>, minSize: int, highest: int)
    requires Covers(cw, d) && k <= |cw.variables|
  {
    match best
    case None =>
      minSize == |cw.words| + 1 && highest == 0 &&
      forall i :: 0 <= i < k ==> cw.variables[i] in a
    case Some(b) =>
      b in Slots(cw) && b !in a && minSize == |d[b]| && highest == Degree(cw, b) &&
      forall i :: 0 <= i < k && cw.variables[i] !in a ==> NoBetter(cw, d, b, cw.variables[i])
  }

  /** The scan ends on an unassigned slot no other unassigned slot beats, or on none when all are assigned. */
  lemma {:induction false} SelectFromCorrect(cw: Crossword, d: Domains, a: Assignment, k: nat,
                                             best: Option<Variable>, minSize: int, highest: int)
    requires Covers(cw, d) && WithinWords(cw, d) && k <= |cw.variables|
    requires SelectInvariant(cw, d, a, k, best, minSize, highest)
    ensures var r := SelectFrom(cw, d, a, k, best, minSize, highest);
      && (r.None? ==> forall i :: 0 <= i < |cw.variables| ==> cw.variables[i] in a)
      && (r.Some? ==> r.value in Slots(cw) && r.value !in a)
      && (r.Some? ==>
            forall i :: 0 <= i < |cw.variables| && cw.variables[i] !in a ==> NoBetter(cw, d, r.value, cw.variables[i]))
    decreases |cw.variables| - k
  {
    if k < |cw.variables| {
      var v := cw.variables[k];
      if v in a {
        SelectFromCorrect(cw, d, a, k + 1, best, minSize, highest);
      } else if |d[v]| < minSize || (|d[v]| == minSize && Degree(cw, v) > highest) {
        SelectFromCorrect(cw, d, a, k + 1, Some(v), |d[v]|, Degree(cw, v));
      } else if best.None? {
        // the first unassigned slot always wins: no domain exceeds the vocabulary
        SubsetCard(d[v], cw.words);
        assert false;
      } else {
        SelectFromCorrect(cw, d, a, k + 1, best, minSize, highest);
      }
    }
  }
  /**
    The unassigned slot with the fewest remaining words, the highest degree
    breaking ties; none only when every slot holds a word.
   */
  function SelectUnassignedVariable(cw: Crossword, d: Domains, a: Assignment): (r: Option<Variable>)
    requires Covers(cw, d) && WithinWords(cw, d)
    ensures r.None? <==> Slots(cw) <= a.Keys
    ensures r.Some? ==> r.value in Slots(cw) && r.value !in a
    ensures r.Some? ==> forall v :: v in Slots(cw) && v !in a ==> |d[r.value]| <= |d[v]|
    ensures r.Some? ==> forall v :: v in Slots(cw) && v !in a && |d[v]| == |d[r.value]| ==>
      Degree(cw, v) <= Degree(cw, r.value)
  {
    SelectFromCorrect(cw, d, a, 0, None, |cw.words| + 1, 0);
    var r := SelectFrom(cw, d, a, 0, None, |cw.words| + 1, 0);
    assert r.Some? ==> forall v :: v in Slots(cw) && v !in a ==> NoBetter(cw, d, r.value, v) by {
      if r.Some? {
        forall v | v in Slots(cw) && v !in a ensures NoBetter(cw, d, r.value, v) {
          var i :| 0 <= i < |cw.variables| && cw.variables[i] == v;
        }
      }
    }
    r
  }

  /**
    The number of unassigned slots crossing `x` whose domain also holds the
    word `w`: the count by which the values of `x` are ordered.
   */
  function RuledOut(cw: Crossword, d: Domains, a: Assignment, x: Variable, w: Word): nat {
    |set y | y in Neighbors(cw, x) && y !in a && y in d && w in d[y]|
  }

  /**
    A word rules out at most one value per crossing slot, and rules out none
    exactly when no unassigned crossing slot still offers it.
   */
  lemma RuledOutMeaning(cw: Crossword, d: Domains, a: Assignment, x: Variable, w: Word)
    ensures RuledOut(cw, d, a, x, w) <= Degree(cw, x)
    ensures RuledOut(cw, d, a, x, w) == 0 <==>
      forall y :: y in Neighbors(cw, x) && y !in a && y in d ==> w !in d[y]
  {
    var s := set y | y in Neighbors(cw, x) && y !in a && y in d && w in d[y];
    assert RuledOut(cw, d, a, x, w) == |s|;
    SubsetCard(s, Neighbors(cw, x));
    if s != {} {
      var y :| y in s;
      assert |s| >= 1;
    } else {
      forall y | y in Neighbors(cw, x) && y !in a && y in d ensures w !in d[y] {
        assert y !in s;
      }
    }
  }

  /** A finite non-empty set of words has one with the largest count. */
  lemma {:induction false} MostRuledOutExists(cw: Crossword, d: Domains, a: Assignment, x: Variable, s: set<Word>)
    requires s != {}
    ensures exists w :: w in s && forall u :: u in s ==> RuledOut(cw, d, a, x, u) <= RuledOut(cw, d, a, x, w)
  {
    var e :| e in s;
    if s != {e} {
      MostRuledOutExists(cw, d, a, x, s - {e});
      var m :| m in s - {e} && forall u :: u in s - {e} ==> RuledOut(cw, d, a, x, u) <= RuledOut(cw, d, a, x, m);
      if RuledOut(cw, d, a, x, e) <= RuledOut(cw, d, a, x, m) {
        assert forall u :: u in s ==> RuledOut(cw, d, a, x, u) <= RuledOut(cw, d, a, x, m);
      } else {
        assert forall u :: u in s ==> RuledOut(cw, d, a, x, u) <= RuledOut(cw, d, a, x, e);
      }
    } else {
      assert forall u :: u in s ==> RuledOut(cw, d, a, x, u) <= RuledOut(cw, d, a, x, e);
    }
  }

  /**
    The words of `x`'s domain, each once, in non-increasing order of the
    count above. Words with equal counts come in either order.
   */
  method OrderDomainValues(cw: Crossword, d: Domains, a: Assignment, x: Variable) returns (values: seq<Word>)
    requires x in d
    ensures forall w :: w in values <==> w in d[x]
    ensures forall i, j :: 0 <= i < j < |values| ==> values[i] != values[j]
    ensures forall i, j :: 0 <= i < j < |values| ==>
      RuledOut(cw, d, a, x, values[j]) <= RuledOut(cw, d, a, x, values[i])
  {
    var remaining := d[x];
    values := [];
    while remaining != {}
      invariant remaining <= d[x]
      invariant forall w :: w in values <==> w in d[x] && w !in remaining
      invariant forall i, j :: 0 <= i < j < |values| ==> values[i] != values[j]
      invariant forall i, j :: 0 <= i < j < |values| ==>
        RuledOut(cw, d, a, x, values[j]) <= RuledOut(cw, d, a, x, values[i])
      invariant forall i, u :: 0 <= i < |values| && u in remaining ==>
        RuledOut(cw, d, a, x, u) <= RuledOut(cw, d, a, x, values[i])
      decreases |remaining|
    {
      MostRuledOutExists(cw, d, a, x, remaining);
      var w :| w in remaining && forall u :: u in remaining ==> RuledOut(cw, d, a, x, u) <= RuledOut(cw, d, a, x, w);
      values := values + [w];
      remaining := remaining - {w};
    }
  }

  /**
    `s` fills every slot validly, keeps the words of `a`, and takes every
    other word from the slot's domain.
   */
  predicate Completes(cw: Crossword, d: Domains, a: Assignment, s: Assignment) {
    && Extends(a, s)
    && s.Keys == Slots(cw)
    && Valid(cw, s)
    && forall v :: v in s && v !in a ==> v in d && s[v] in d[v]
  }

  /**
    `r` is an answer the search may give for `a`: it fills every slot, keeps
    the words of `a`, takes every other word from the slot's domain, and is
    valid unless it is `a` itself.
   */
  predicate Answers(cw: Crossword, d: Domains, a: Assignment, r: Assignment) {
    && r.Keys == Slots(cw)
    && Extends(a, r)
    && (forall v :: v in r && v !in a ==> v in d && r[v] in d[v])
    && (Valid(cw, r) || r == a)
  }

  /** An answer for `a` with a word put in `x`, that extension being valid, is an answer for `a`. */
  lemma AnswersLift(cw: Crossword, d: Domains, a: Assignment, x: Variable, w: Word, r: Assignment)
    requires x !in a && x in d && w in d[x] && Valid(cw, a[x := w])
    requires Answers(cw, d, a[x := w], r)
    ensures Answers(cw, d, a, r) && Valid(cw, r)
  {
  }

  /**
    If no completion of `a` puts `values[i]` in `x` (the extension is invalid
    or has no completion), then the excluded prefix of `values` grows by one.
   */
  lemma ExcludeValue(cw: Crossword, d: Domains, a: Assignment, x: Variable, values: seq<Word>, i: nat, b: Assignment)
    requires x in Slots(cw) && x !in a && i < |values| && b == a[x := values[i]]
    requires forall s :: Completes(cw, d, a, s) ==> s[x] !in values[..i]
    requires !Valid(cw, b) || forall s :: !Completes(cw, d, b, s)
    ensures forall s :: Completes(cw, d, a, s) ==> s[x] !in values[..i + 1]
  {
    forall s | Completes(cw, d, a, s) ensures s[x] !in values[..i + 1] {
      assert values[..i + 1] == values[..i] + [values[i]];
      if s[x] == values[i] {
        ValidDownward(cw, b, s);
        assert Completes(cw, d, b, s);
      }
    }
  }

  /** A completion gives each unassigned slot a word of its domain. */
  lemma CompletionUsesDomain(cw: Crossword, d: Domains, a: Assignment, x: Variable, s: Assignment)
    requires Completes(cw, d, a, s) && x in Slots(cw) && x !in a
    ensures x in s && x in d && s[x] in d[x]
  {
  }

  /**
    Backtracking search from the partial assignment `a`: a complete
    assignment as soon as one is reached, otherwise the search continues
    with the words of the selected slot in heuristic order. It fails only
    when no completion of `a` exists.
   */
  method Backtrack(cw: Crossword, d: Domains, a: Assignment) returns (r: Option<Assignment>)
    requires OverlapsSymmetric(cw) && Covers(cw, d) && WithinWords(cw, d) && a.Keys <= Slots(cw)
    ensures r.Some? ==> Answers(cw, d, a, r.value)
    ensures r.None? ==> forall s :: !Completes(cw, d, a, s)
    decreases |Slots(cw) - a.Keys|, 1
  {
    if AssignmentComplete(cw, a) {
      return Some(a);
    }
    var next := SelectUnassignedVariable(cw, d, a);
    var x := next.value;
    var values := OrderDomainValues(cw, d, a, x);
    r := TryValues(cw, d, a, x, values);
    if r.None? {
      forall s | Completes(cw, d, a, s) ensures false {
        CompletionUsesDomain(cw, d, a, x, s);
      }
    }
  }

  /**
    The loop of the search over the words `values` for the unassigned slot
    `x`: the first word that keeps the assignment consistent and from which
    the search succeeds gives the answer. It fails only when no completion
    of `a` puts one of `values` in `x`.
   */
  method TryValues(cw: Crossword, d: Domains, a: Assignment, x: Variable, values: seq<Word>)
    returns (r: Option<Assignment>)
    requires OverlapsSymmetric(cw) && Covers(cw, d) && WithinWords(cw, d) && a.Keys <= Slots(cw)
    requires x in Slots(cw) && x !in a && forall w :: w in values ==> w in d[x]
    ensures r.Some? ==> Answers(cw, d, a, r.value)
    ensures r.None? ==> forall s :: Completes(cw, d, a, s) ==> s[x] !in values
    decreases |Slots(cw) - a.Keys|, 0
  {
    var i := 0;
    while i < |values|
      invariant 0 <= i <= |values|
      invariant forall s :: Completes(cw, d, a, s) ==> s[x] !in values[..i]
    {
      var b := a[x := values[i]];
      var solution := None;
      if Consistent(cw, b) {
        assert Slots(cw) - b.Keys == (Slots(cw) - a.Keys) - {x};
        solution := Backtrack(cw, d, b);
        if solution.Some? {
          AnswersLift(cw, d, a, x, values[i], solution.value);
          return solution;
        }
      }
      ExcludeValue(cw, d, a, x, values, i, b);
      i := i + 1;
    }
    assert values[..i] == values;
    return None;
  }

  /** Node consistency followed by arc consistency keeps every word of every solution. */
  lemma PruningKeepsSolutions(cw: Crossword, s: Assignment)
    requires IsSolution(cw, s)
    ensures WithinDomains(Ac3(cw, EnforceNodeConsistency(cw, InitialDomains(cw)), None, Incoming).1, s)
  {
    var d0 := InitialDomains(cw);
    EnforceNodeConsistencyKeepsSolutions(cw, d0, s);
    Ac3LoopKeepsSolutions(cw, EnforceNodeConsistency(cw, d0), AllArcs(cw, 0), Incoming, s);
  }

  /** The pruned domains still give every slot a set of vocabulary words. */
  lemma PruningKeepsShape(cw: Crossword)
    ensures Covers(cw, Ac3(cw, EnforceNodeConsistency(cw, InitialDomains(cw)), None, Incoming).1)
    ensures WithinWords(cw, Ac3(cw, EnforceNodeConsistency(cw, InitialDomains(cw)), None, Incoming).1)
  {
  }

  /** Every solution of the puzzle is a completion of the empty assignment within the pruned domains. */
  lemma PruningKeepsCompletions(cw: Crossword)
    ensures forall s :: IsSolution(cw, s) ==>
      Completes(cw, Ac3(cw, EnforceNodeConsistency(cw, InitialDomains(cw)), None, Incoming).1, map[], s)
  {
    forall s | IsSolution(cw, s)
      ensures Completes(cw, Ac3(cw, EnforceNodeConsistency(cw, InitialDomains(cw)), None, Incoming).1, map[], s)
    {
      PruningKeepsSolutions(cw, s);
    }
  }

  /**
    Node consistency, then arc consistency (its verdict is not consulted),
    then backtracking search from the empty assignment.
   */
  method Solve(cw: Crossword) returns (r: Option<Assignment>)
    requires OverlapsSymmetric(cw)
    ensures r.Some? ==> IsSolution(cw, r.value)
    ensures r.None? ==> forall s :: !IsSolution(cw, s)
  {
    var d0 := InitialDomains(cw);
    var d1 := EnforceNodeConsistency(cw, d0);
    var arcs := Ac3(cw, d1, None, Incoming);
    var d2 := arcs.1;
    PruningKeepsShape(cw);
    PruningKeepsCompletions(cw);
    r := Backtrack(cw, d2, map[]);
  }
}
