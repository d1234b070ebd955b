/**
  Domain pruning for the crossword solver: the starting domains, node
  consistency (word length), the `revise` step on one arc and the AC-3
  worklist loop.
 */
module CrosswordArcs {
  import opened Wrappers
  import opened CrosswordPuzzle

  /** Every slot starts with the whole vocabulary. */
  function InitialDomains(cw: Crossword): (d: Domains)
    ensures Covers(cw, d) && WithinWords(cw, d)
    ensures forall v :: v in Slots(cw) ==> d[v] == cw.words
    ensures forall a :: IsSolution(cw, a) ==> WithinDomains(d, a)
  {
    map v | v in Slots(cw) :: cw.words
  }

  /** Drops from every domain the words whose length differs from the slot's. */
  function EnforceNodeConsistency(cw: Crossword, d: Domains): (r: Domains)
    requires Covers(cw, d)
    ensures NodeConsistent(cw, r)
    ensures Shrinks(d, r)
    ensures forall v, w :: v in d && w in d[v] && |w| == v.length ==> w in r[v]
  {
    map v | v in d :: set w | w in d[v] && |w| == v.length
  }

  /** Node consistency is idempotent. */
  lemma EnforceNodeConsistencyIdempotent(cw: Crossword, d: Domains)
    requires Covers(cw, d)
    ensures EnforceNodeConsistency(cw, EnforceNodeConsistency(cw, d)) == EnforceNodeConsistency(cw, d)
  {
    var r := EnforceNodeConsistency(cw, d);
    var r2 := EnforceNodeConsistency(cw, r);
    forall v | v in r ensures r2[v] == r[v] {
    }
  }

  /** Node consistency loses no solution: a word that fits its slot stays. */
  lemma EnforceNodeConsistencyKeepsSolutions(cw: Crossword, d: Domains, a: Assignment)
    requires Covers(cw, d) && WithinDomains(d, a) && LengthsFit(a)
    ensures WithinDomains(EnforceNodeConsistency(cw, d), a)
  {
  }

  /**
    Makes `x` arc consistent with `y`: removes from `x`'s domain every word
    that no word of `y`'s domain agrees with at the crossing. Reports whether
    a word was removed. Slots that do not cross leave everything unchanged.
    The words are indexed at the crossing, so domains must already be node
    consistent.
   */
  function Revise(cw: Crossword, d: Domains, x: Variable, y: Variable): (r: (bool, Domains))
    requires NodeConsistent(cw, d)
    requires x in d && y in d
    ensures (x, y) !in cw.overlaps ==> r == (false, d)
    ensures Shrinks(d, r.1) && NodeConsistent(cw, r.1)
    ensures forall v :: v in d && v != x ==> r.1[v] == d[v]
    ensures (x, y) in cw.overlaps ==>
      forall w :: w in r.1[x] <==> w in d[x] && Supported(cw.overlaps[(x, y)], w, d[y])
    ensures r.0 <==> r.1[x] < d[x]
    ensures !r.0 ==> r.1 == d
  {
    if (x, y) !in cw.overlaps then (false, d)
    else
      var o := cw.overlaps[(x, y)];
      var kept := set w | w in d[x] && Supported(o, w, d[y]);
      var removed := exists w :: w in d[x] && !Supported(o, w, d[y]);
      if removed then
        (true, d[x := kept])
      else
        assert kept == d[x];
        (false, d)
  }

  /** Revising an arc never drops a word that a valid complete fill within the domains uses. */
  lemma ReviseKeepsSolutions(cw: Crossword, d: Domains, x: Variable, y: Variable, a: Assignment)
    requires NodeConsistent(cw, d)
    requires x in d && y in d
    requires CrossingsAgree(cw, a) && a.Keys == d.Keys && WithinDomains(d, a)
    ensures WithinDomains(Revise(cw, d, x, y).1, a)
  {
    if (x, y) in cw.overlaps {
      assert Agree(cw.overlaps[(x, y)], a[x], a[y]);
    }
  }

  /** The (slot, word) pairs still possible; AC-3 removes pairs until it stops. */
  ghost function Pairs(d: Domains): set<(Variable, Word)> {
    set v, w | v in d && w in d[v] :: (v, w)
  }

  /** Shrinking one domain strictly, and no other, removes some pair. */
  lemma StrictShrinkPairs(d: Domains, d': Domains, x: Variable)
    requires Shrinks(d, d') && x in d && d'[x] < d[x]
    ensures Pairs(d') < Pairs(d)
  {
    var w :| w in d[x] && w !in d'[x];
    assert (x, w) in Pairs(d) - Pairs(d');
    forall p | p in Pairs(d') ensures p in Pairs(d) {
      var v, u :| v in d' && u in d'[v] && p == (v, u);
    }
  }

  /** Every arc of the worklist relates two slots of the puzzle. */
  predicate ArcsOf(cw: Crossword, q: seq<Arc>) {
    forall k :: 0 <= k < |q| ==> q[k].0 in Slots(cw) && q[k].1 in Slots(cw)
  }

  /** Dropping the head of a worklist and appending arcs of the puzzle keeps it within the puzzle. */
  lemma ArcsOfRequeue(cw: Crossword, queue: seq<Arc>, q: seq<Arc>)
    requires ArcsOf(cw, queue) && queue != [] && ArcsOf(cw, q)
    ensures ArcsOf(cw, queue[1..] + q)
  {
    var r := queue[1..] + q;
    forall k | 0 <= k < |r| ensures r[k].0 in Slots(cw) && r[k].1 in Slots(cw) {
      if k < |queue| - 1 {
        assert r[k] == queue[k + 1];
      } else {
        assert r[k] == q[k - |queue| + 1];
      }
    }
  }

  /** The slots crossing `x`, in iteration order from position `k` on. */
  function NeighborsFrom(cw: Crossword, x: Variable, k: nat): (ns: seq<Variable>)
    requires k <= |cw.variables|
    ensures forall i :: 0 <= i < |ns| ==> ns[i] in Neighbors(cw, x)
    decreases |cw.variables| - k
  {
    if k == |cw.variables| then []
    else
      var y := cw.variables[k];
      var rest := NeighborsFrom(cw, x, k + 1);
      if y != x && (y, x) in cw.overlaps then [y] + rest else rest
  }

  /** The arcs `(x, y)` for every slot `y` crossing `x`. */
  function ArcsFrom(cw: Crossword, x: Variable): (q: seq<Arc>)
    requires x in Slots(cw)
    ensures ArcsOf(cw, q)
    ensures forall k :: 0 <= k < |q| ==> q[k].0 == x
    ensures forall y :: (x, y) in q <==> y in Neighbors(cw, x)
  {
    var ns := NeighborsFrom(cw, x, 0);
    NeighborsListed(cw, x);
    var q := seq(|ns|, i requires 0 <= i < |ns| => (x, ns[i]));
    assert forall i :: 0 <= i < |ns| ==> q[i] == (x, ns[i]);
    q
  }

  /** The arcs `(z, x)` for every slot `z` crossing `x`. */
  function ArcsInto(cw: Crossword, x: Variable): (q: seq<Arc>)
    requires x in Slots(cw)
    ensures ArcsOf(cw, q)
    ensures forall k :: 0 <= k < |q| ==> q[k].1 == x
    ensures forall z :: (z, x) in q <==> z in Neighbors(cw, x)
  {
    var ns := NeighborsFrom(cw, x, 0);
    NeighborsListed(cw, x);
    var q := seq(|ns|, i requires 0 <= i < |ns| => (ns[i], x));
    assert forall i :: 0 <= i < |ns| ==> q[i] == (ns[i], x);
    q
  }

  /**
    Which arcs go back on the worklist once `x`'s domain has shrunk: the arcs
    `(x, y)` out of `x`, as the source appends them, or the arcs `(z, x)`
    into `x`, whose support the shrinking may have removed.
   */
  datatype Requeue = Outgoing | Incoming

  function Requeued(cw: Crossword, x: Variable, mode: Requeue): (q: seq<Arc>)
    requires x in Slots(cw)
    ensures ArcsOf(cw, q)
  {
    match mode
    case Outgoing => ArcsFrom(cw, x)
    case Incoming => ArcsInto(cw, x)
  }

  /** The starting worklist: the arcs out of each slot, slot after slot. */
  function AllArcs(cw: Crossword, k: nat): (q: seq<Arc>)
    requires k <= |cw.variables|
    ensures ArcsOf(cw, q)
    ensures OverlapsSymmetric(cw) ==> forall a :: a in q ==> a in cw.overlaps
    decreases |cw.variables| - k
  {
    if k == |cw.variables| then []
    else
      var x := cw.variables[k];
      var here := ArcsFrom(cw, x);
      var rest := AllArcs(cw, k + 1);
      assert forall a :: a in here ==> a == (x, a.1) && (x, a.1) in here;
      here + rest
  }

  /**
    The AC-3 worklist loop. After a revision that removed words from `x`'s
    domain it fails if that domain is empty, and otherwise appends the arcs
    that `mode` names for `x`.
   */
  function Ac3Loop(cw: Crossword, d: Domains, queue: seq<Arc>, mode: Requeue): (r: (bool, Domains))
    requires NodeConsistent(cw, d) && ArcsOf(cw, queue)
    ensures Shrinks(d, r.1) && NodeConsistent(cw, r.1)
    ensures r.0 <==> forall v :: v in d && d[v] != {} ==> r.1[v] != {}
    decreases Pairs(d), |queue|
  {
    if queue == [] then (true, d)
    else
      var x, y := queue[0].0, queue[0].1;
      var rev := Revise(cw, d, x, y);
      if rev.0 then
        if |rev.1[x]| == 0 then (false, rev.1)
        else
          StrictShrinkPairs(d, rev.1, x);
          ArcsOfRequeue(cw, queue, Requeued(cw, x, mode));
          Ac3Loop(cw, rev.1, queue[1..] + Requeued(cw, x, mode), mode)
      else
        Ac3Loop(cw, d, queue[1..], mode)
  }

  /** AC-3 from the given arcs, or from every arc of the puzzle when none are given. */
  function Ac3(cw: Crossword, d: Domains, arcs: Option<seq<Arc>>, mode: Requeue): (r: (bool, Domains))
    requires NodeConsistent(cw, d)
    requires arcs.Some? ==> ArcsOf(cw, arcs.value)
    ensures Shrinks(d, r.1) && NodeConsistent(cw, r.1)
    ensures r.0 <==> forall v :: v in d && d[v] != {} ==> r.1[v] != {}
  {
    var queue := if arcs.None? then AllArcs(cw, 0) else arcs.value;
    Ac3Loop(cw, d, queue, mode)
  }

  /**
    AC-3 never removes a word that a fill agreeing at every crossing, with one
    word per slot drawn from the domains, uses.
   */
  lemma {:induction false} Ac3LoopKeepsSolutions(cw: Crossword, d: Domains, queue: seq<Arc>, mode: Requeue, a: Assignment)
    requires NodeConsistent(cw, d) && ArcsOf(cw, queue)
    requires CrossingsAgree(cw, a) && a.Keys == d.Keys && WithinDomains(d, a)
    ensures WithinDomains(Ac3Loop(cw, d, queue, mode).1, a)
    decreases Pairs(d), |queue|, 1
  {
    if queue != [] {
      var rev := Revise(cw, d, queue[0].0, queue[0].1);
      if rev.0 && |rev.1[queue[0].0]| != 0 {
        Ac3LoopKeepsSolutionsPruned(cw, d, queue, mode, a);
      } else if !rev.0 {
        Ac3LoopKeepsSolutions(cw, d, queue[1..], mode, a);
      }
    }
  }

  /** The case of `Ac3LoopKeepsSolutions` where the first arc removes words but not all. */
  lemma {:induction false} Ac3LoopKeepsSolutionsPruned(cw: Crossword, d: Domains, queue: seq<Arc>, mode: Requeue, a: Assignment)
    requires NodeConsistent(cw, d) && ArcsOf(cw, queue) && queue != []
    requires CrossingsAgree(cw, a) && a.Keys == d.Keys && WithinDomains(d, a)
    requires Revise(cw, d, queue[0].0, queue[0].1).0
    requires |Revise(cw, d, queue[0].0, queue[0].1).1[queue[0].0]| != 0
    ensures WithinDomains(Ac3Loop(cw, d, queue, mode).1, a)
    decreases Pairs(d), |queue|, 0
  {
    var x, y := queue[0].0, queue[0].1;
    var rev := Revise(cw, d, x, y);
    ReviseKeepsSolutions(cw, d, x, y, a);
    StrictShrinkPairs(d, rev.1, x);
    ArcsOfRequeue(cw, queue, Requeued(cw, x, mode));
    Ac3LoopKeepsSolutions(cw, rev.1, queue[1..] + Requeued(cw, x, mode), mode, a);
  }

  /** On arc-consistent domains AC-3 succeeds and changes nothing. */
  lemma {:induction false} Ac3LoopIdempotent(cw: Crossword, d: Domains, queue: seq<Arc>, mode: Requeue)
    requires NodeConsistent(cw, d) && ArcsOf(cw, queue)
    requires ArcConsistent(cw, d)
    ensures Ac3Loop(cw, d, queue, mode) == (true, d)
    decreases |queue|
  {
    if queue != [] {
      var (x, y) := queue[0];
      if (x, y) in cw.overlaps {
        var r := Revise(cw, d, x, y);
        assert r.1[x] == d[x];
      }
      Ac3LoopIdempotent(cw, d, queue[1..], mode);
    }
  }

  /** Every slot crossing `x` at position `k` or later is listed. */
  lemma {:induction false} NeighborsFromComplete(cw: Crossword, x: Variable, k: nat, z: Variable)
    requires k <= |cw.variables|
    requires z in cw.variables[k..] && z != x && (z, x) in cw.overlaps
    ensures z in NeighborsFrom(cw, x, k)
    decreases |cw.variables| - k
  {
    if cw.variables[k] != z {
      assert cw.variables[k..] == [cw.variables[k]] + cw.variables[k + 1..];
      NeighborsFromComplete(cw, x, k + 1, z);
    }
  }

  /** The iteration lists exactly the slots crossing `x`. */
  lemma NeighborsListed(cw: Crossword, x: Variable)
    ensures forall z :: z in NeighborsFrom(cw, x, 0) <==> z in Neighbors(cw, x)
  {
    assert cw.variables[0..] == cw.variables;
    forall z | z in Neighbors(cw, x) ensures z in NeighborsFrom(cw, x, 0) {
      NeighborsFromComplete(cw, x, 0, z);
    }
  }

  /** Every crossing into `x` goes back on the worklist in `Incoming` mode. */
  lemma ArcsIntoComplete(cw: Crossword, z: Variable, x: Variable)
    requires OverlapsSymmetric(cw) && (z, x) in cw.overlaps
    ensures (z, x) in ArcsInto(cw, x)
  {
    assert cw.variables[0..] == cw.variables;
    NeighborsFromComplete(cw, x, 0, z);
    var ns := NeighborsFrom(cw, x, 0);
    var i :| 0 <= i < |ns| && ns[i] == z;
    assert ArcsInto(cw, x)[i] == (z, x);
  }

  /** Every arc out of a slot at position `k` or later is on the starting worklist. */
  lemma {:induction false} AllArcsFromComplete(cw: Crossword, k: nat, x: Variable, y: Variable)
    requires k <= |cw.variables|
    requires x in cw.variables[k..] && y in NeighborsFrom(cw, x, 0)
    ensures (x, y) in AllArcs(cw, k)
    decreases |cw.variables| - k
  {
    if cw.variables[k] == x {
      var ns := NeighborsFrom(cw, x, 0);
      var i :| 0 <= i < |ns| && ns[i] == y;
      assert ArcsFrom(cw, x)[i] == (x, y);
    } else {
      assert cw.variables[k..] == [cw.variables[k]] + cw.variables[k + 1..];
      AllArcsFromComplete(cw, k + 1, x, y);
    }
  }

  /** The starting worklist holds every arc of the puzzle. */
  lemma AllArcsComplete(cw: Crossword)
    requires OverlapsSymmetric(cw)
    ensures forall p :: p in cw.overlaps ==> p in AllArcs(cw, 0)
  {
    assert cw.variables[0..] == cw.variables;
    forall p | p in cw.overlaps ensures p in AllArcs(cw, 0) {
      NeighborsFromComplete(cw, p.0, 0, p.1);
      AllArcsFromComplete(cw, 0, p.0, p.1);
    }
  }

  /** Every arc of the puzzle that is not waiting on the worklist is consistent in `d`. */
  predicate ConsistentOffQueue(cw: Crossword, d: Domains, queue: seq<Arc>) {
    forall a, w :: a in cw.overlaps && a !in queue && a.0 in d && a.1 in d && w in d[a.0] ==>
      Supported(cw.overlaps[a], w, d[a.1])
  }

  /**
    The worklist invariant of AC-3: when every arc off the worklist is
    consistent and each shrunk domain sends the arcs into it back onto the
    worklist, a True answer leaves every arc consistent.
   */
  lemma {:induction false} Ac3IncomingArcConsistent(cw: Crossword, d: Domains, queue: seq<Arc>)
    requires OverlapsSymmetric(cw) && NodeConsistent(cw, d) && ArcsOf(cw, queue)
    requires ConsistentOffQueue(cw, d, queue)
    ensures Ac3Loop(cw, d, queue, Incoming).0 ==> ArcConsistent(cw, Ac3Loop(cw, d, queue, Incoming).1)
    decreases Pairs(d), |queue|, 1
  {
    if queue != [] {
      var x, y := queue[0].0, queue[0].1;
      var rev := Revise(cw, d, x, y);
      if rev.0 && |rev.1[x]| != 0 {
        Ac3IncomingArcConsistentPruned(cw, d, queue);
      } else if !rev.0 {
        forall a, w | a in cw.overlaps && a !in queue[1..] && a.0 in d && a.1 in d && w in d[a.0]
          ensures Supported(cw.overlaps[a], w, d[a.1])
        {
          if a != queue[0] {
            assert queue == [queue[0]] + queue[1..];
          }
        }
        Ac3IncomingArcConsistent(cw, d, queue[1..]);
      }
    }
  }

  /** After revising `(x, y)` every word left for `x` has a partner left for `y`. */
  lemma ReviseMakesConsistent(cw: Crossword, d: Domains, x: Variable, y: Variable)
    requires OverlapsSymmetric(cw) && NodeConsistent(cw, d)
    requires x in d && y in d && (x, y) in cw.overlaps
    ensures forall w :: w in Revise(cw, d, x, y).1[x] ==>
      Supported(cw.overlaps[(x, y)], w, Revise(cw, d, x, y).1[y])
  {
    assert x != y;
  }

  /**
    Revising the first arc and putting the arcs into its first slot back on
    the worklist keeps every arc off the worklist consistent.
   */
  lemma ReviseKeepsConsistentOffQueue(cw: Crossword, d: Domains, queue: seq<Arc>)
    requires OverlapsSymmetric(cw) && NodeConsistent(cw, d) && ArcsOf(cw, queue) && queue != []
    requires ConsistentOffQueue(cw, d, queue)
    ensures ConsistentOffQueue(cw, Revise(cw, d, queue[0].0, queue[0].1).1, queue[1..] + ArcsInto(cw, queue[0].0))
  {
    var x, y := queue[0].0, queue[0].1;
    var rev := Revise(cw, d, x, y);
    var q := queue[1..] + ArcsInto(cw, x);
    assert queue == [queue[0]] + queue[1..];
    if (x, y) in cw.overlaps {
      ReviseMakesConsistent(cw, d, x, y);
    }
    forall a, w | a in cw.overlaps && a !in q && a.0 in rev.1 && a.1 in rev.1 && w in rev.1[a.0]
      ensures Supported(cw.overlaps[a], w, rev.1[a.1])
    {
      ArcsIntoComplete(cw, a.0, a.1);
    }
  }

  /** The case of `Ac3IncomingArcConsistent` where the first arc removes words but not all. */
  lemma {:induction false} Ac3IncomingArcConsistentPruned(cw: Crossword, d: Domains, queue: seq<Arc>)
    requires OverlapsSymmetric(cw) && NodeConsistent(cw, d) && ArcsOf(cw, queue) && queue != []
    requires ConsistentOffQueue(cw, d, queue)
    requires Revise(cw, d, queue[0].0, queue[0].1).0
    requires |Revise(cw, d, queue[0].0, queue[0].1).1[queue[0].0]| != 0
    ensures Ac3Loop(cw, d, queue, Incoming).0 ==> ArcConsistent(cw, Ac3Loop(cw, d, queue, Incoming).1)
    decreases Pairs(d), |queue|, 0
  {
    var x, y := queue[0].0, queue[0].1;
    var rev := Revise(cw, d, x, y);
    ReviseKeepsConsistentOffQueue(cw, d, queue);
    StrictShrinkPairs(d, rev.1, x);
    ArcsOfRequeue(cw, queue, ArcsInto(cw, x));
    Ac3IncomingArcConsistent(cw, rev.1, queue[1..] + ArcsInto(cw, x));
  }

  /**
    AC-3 from every arc of the puzzle, re-enqueuing the arcs into a shrunk
    domain, either answers True with every arc consistent or answers False
    with some domain empty.
   */
  lemma Ac3ArcConsistent(cw: Crossword, d: Domains)
    requires OverlapsSymmetric(cw) && NodeConsistent(cw, d)
    ensures Ac3(cw, d, None, Incoming).0 ==> ArcConsistent(cw, Ac3(cw, d, None, Incoming).1)
  {
    AllArcsComplete(cw);
    Ac3IncomingArcConsistent(cw, d, AllArcs(cw, 0));
  }

  /**
    A puzzle on which re-enqueuing only the arcs out of a shrunk domain is
    not enough. Slot A (down) and slot B (across) start at the same cell,
    and slot C (down) starts under B's second letter.
   */
  const SlotA := Variable(0, 0, Down, 2)
  const SlotB := Variable(0, 0, Across, 2)
  const SlotC := Variable(0, 1, Down, 2)
  const Corner := Crossword([SlotA, SlotB, SlotC], {"ax", "zx", "ab", "zc", "cy"},
    map[(SlotA, SlotB) := (0, 0), (SlotB, SlotA) := (0, 0), (SlotB, SlotC) := (1, 0), (SlotC, SlotB) := (0, 1)])
  const CornerDomains: Domains := map[SlotA := {"ax", "zx"}, SlotB := {"ab", "zc"}, SlotC := {"cy"}]

  /** The domains once "ab" has left B. */
  const CornerPruned: Domains := CornerDomains[SlotB := {"zc"}]

  lemma CornerSymmetric()
    ensures OverlapsSymmetric(Corner)
  {
  }

  lemma CornerNodeConsistent()
    ensures NodeConsistent(Corner, CornerDomains)
  {
    assert Slots(Corner) == {SlotA, SlotB, SlotC};
  }

  lemma CornerPrunedNodeConsistent()
    ensures NodeConsistent(Corner, CornerPruned)
  {
    assert Slots(Corner) == {SlotA, SlotB, SlotC};
  }

  /** In the starting domains every arc but (B, C) is consistent. */
  lemma CornerOnlyBCInconsistent()
    ensures ConsistentOffQueue(Corner, CornerDomains, [(SlotB, SlotC)])
  {
    forall a, w | && a in Corner.overlaps && a !in [(SlotB, SlotC)]
                  && a.0 in CornerDomains && a.1 in CornerDomains && w in CornerDomains[a.0]
      ensures Supported(Corner.overlaps[a], w, CornerDomains[a.1])
    {
      if a == (SlotA, SlotB) {
        assert Agree((0, 0), "ax", "ab") && Agree((0, 0), "zx", "zc");
      } else if a == (SlotB, SlotA) {
        assert Agree((0, 0), "ab", "ax") && Agree((0, 0), "zc", "zx");
      } else {
        assert a == (SlotC, SlotB);
        assert Agree((0, 1), "cy", "zc");
      }
    }
  }

  /** The arcs out of B, in iteration order. */
  lemma CornerArcsFromB()
    ensures ArcsFrom(Corner, SlotB) == [(SlotB, SlotA), (SlotB, SlotC)]
  {
    assert NeighborsFrom(Corner, SlotB, 2) == [SlotC];
    assert NeighborsFrom(Corner, SlotB, 1) == [SlotC];
  }

  /** No word of C starts with 'b', so revising (B, C) drops "ab" from B. */
  lemma CornerReviseBC()
    ensures NodeConsistent(Corner, CornerDomains)
    ensures Revise(Corner, CornerDomains, SlotB, SlotC) == (true, CornerPruned)
  {
    CornerNodeConsistent();
    assert !Supported((1, 0), "ab", {"cy"});
    assert Agree((1, 0), "zc", "cy");
    assert Revise(Corner, CornerDomains, SlotB, SlotC).1[SlotB] == {"zc"};
  }

  lemma CornerPrunedReviseBA()
    ensures NodeConsistent(Corner, CornerPruned) && !Revise(Corner, CornerPruned, SlotB, SlotA).0
  {
    CornerPrunedNodeConsistent();
    assert Agree((0, 0), "zc", "zx");
  }

  lemma CornerPrunedReviseBC()
    ensures NodeConsistent(Corner, CornerPruned) && !Revise(Corner, CornerPruned, SlotB, SlotC).0
  {
    CornerPrunedNodeConsistent();
    assert Agree((1, 0), "zc", "cy");
  }

  /** A first arc whose revision removes nothing is simply dropped. */
  lemma Ac3LoopSkip(cw: Crossword, d: Domains, queue: seq<Arc>, mode: Requeue)
    requires NodeConsistent(cw, d) && ArcsOf(cw, queue) && queue != []
    requires !Revise(cw, d, queue[0].0, queue[0].1).0
    ensures Ac3Loop(cw, d, queue, mode) == Ac3Loop(cw, d, queue[1..], mode)
  {
  }

  /**
    A first arc whose revision removes words, not all, is replaced by the
    arcs that `mode` names for its first slot, on the pruned domains.
   */
  lemma Ac3LoopPrune(cw: Crossword, d: Domains, queue: seq<Arc>, mode: Requeue)
    requires NodeConsistent(cw, d) && ArcsOf(cw, queue) && queue != []
    requires Revise(cw, d, queue[0].0, queue[0].1).0
    requires |Revise(cw, d, queue[0].0, queue[0].1).1[queue[0].0]| != 0
    ensures ArcsOf(cw, queue[1..] + Requeued(cw, queue[0].0, mode))
    ensures Ac3Loop(cw, d, queue, mode)
      == Ac3Loop(cw, Revise(cw, d, queue[0].0, queue[0].1).1, queue[1..] + Requeued(cw, queue[0].0, mode), mode)
  {
    ArcsOfRequeue(cw, queue, Requeued(cw, queue[0].0, mode));
  }

  /** After the pruning, the arcs out of B change nothing. */
  lemma CornerRequeuedQuiet()
    ensures NodeConsistent(Corner, CornerPruned)
    ensures Ac3Loop(Corner, CornerPruned, [(SlotB, SlotA), (SlotB, SlotC)], Outgoing) == (true, CornerPruned)
  {
    CornerPrunedReviseBA();
    CornerPrunedReviseBC();
    var q := [(SlotB, SlotA), (SlotB, SlotC)];
    Ac3LoopSkip(Corner, CornerPruned, q, Outgoing);
    assert q[1..] == [(SlotB, SlotC)];
    Ac3LoopSkip(Corner, CornerPruned, q[1..], Outgoing);
    assert q[1..][1..] == [];
  }

  /** After the pruning, "ax" in A has no partner in B. */
  lemma CornerPrunedNotArcConsistent()
    ensures !ArcConsistent(Corner, CornerPruned)
  {
    var a := (SlotA, SlotB);
    assert CornerPruned[SlotB] == {"zc"} && "ax" in CornerPruned[SlotA];
    assert a in Corner.overlaps && Corner.overlaps[a] == (0, 0);
    assert !Supported((0, 0), "ax", {"zc"});
  }

  /** The run from the worklist (B, C): one pruning, then nothing changes. */
  lemma CornerRun()
    ensures NodeConsistent(Corner, CornerDomains)
    ensures Ac3Loop(Corner, CornerDomains, [(SlotB, SlotC)], Outgoing) == (true, CornerPruned)
  {
    CornerArcsFromB();
    CornerReviseBC();
    CornerRequeuedQuiet();
    var q := [(SlotB, SlotC)];
    Ac3LoopPrune(Corner, CornerDomains, q, Outgoing);
    assert q[1..] + ArcsFrom(Corner, SlotB) == [(SlotB, SlotA), (SlotB, SlotC)];
  }

  /**
    Re-enqueuing only the arcs out of a shrunk domain is not enough. On the
    corner puzzle every arc but (B, C) starts consistent. AC-3 from the
    worklist (B, C) drops "ab" from B, puts back only (B, A) and (B, C), and
    answers True while "ax" stays in A with no word of B starting with 'a'.
    From the same start `Ac3IncomingArcConsistent` promises arc consistency.
   */
  lemma Ac3OutgoingMissesArc()
    ensures NodeConsistent(Corner, CornerDomains)
      && Ac3Loop(Corner, CornerDomains, [(SlotB, SlotC)], Outgoing) == (true, CornerPruned)
    ensures !ArcConsistent(Corner, CornerPruned)
    ensures OverlapsSymmetric(Corner) && ConsistentOffQueue(Corner, CornerDomains, [(SlotB, SlotC)])
  {
    CornerSymmetric();
    CornerOnlyBCInconsistent();
    CornerPrunedNotArcConsistent();
    CornerRun();
  }

  /** The outcome of the loop as the source writes it. */
  datatype Ac3Outcome = Finished(ok: bool, domains: Domains) | AttributeError(domains: Domains)

  /**
    The loop as written: right after a revision that removed a word it reads
    an attribute that does not exist (`domain` for `domains`) and raises. So
    it never reports an emptied domain: it either raises after a pruning or
    answers True with the domains untouched.
   */
  function Ac3LoopAsWritten(cw: Crossword, d: Domains, queue: seq<Arc>): (r: Ac3Outcome)
    requires NodeConsistent(cw, d) && ArcsOf(cw, queue)
    ensures r.Finished? ==> r.ok && r.domains == d
    ensures r.AttributeError? ==> Shrinks(d, r.domains) && r.domains != d
    decreases |queue|
  {
    if queue == [] then Finished(true, d)
    else
      var x, y := queue[0].0, queue[0].1;
      var rev := Revise(cw, d, x, y);
      if rev.0 then AttributeError(rev.1)
      else Ac3LoopAsWritten(cw, d, queue[1..])
  }

  /** A first revision that removes words leaves a mark on the loop's result. */
  lemma Ac3LoopPrunesHead(cw: Crossword, d: Domains, queue: seq<Arc>, mode: Requeue)
    requires NodeConsistent(cw, d) && ArcsOf(cw, queue) && queue != []
    requires Revise(cw, d, queue[0].0, queue[0].1).0
    ensures Ac3Loop(cw, d, queue, mode).1[queue[0].0] < d[queue[0].0]
  {
    var x, y := queue[0].0, queue[0].1;
    var rev := Revise(cw, d, x, y);
    if |rev.1[x]| != 0 {
      ArcsOfRequeue(cw, queue, Requeued(cw, x, mode));
    }
  }

  /**
    The loop as written raises exactly when the intended loop would change a
    domain, and otherwise agrees with it.
   */
  lemma {:induction false} Ac3AsWrittenRaisesIffPruning(cw: Crossword, d: Domains, queue: seq<Arc>, mode: Requeue)
    requires NodeConsistent(cw, d) && ArcsOf(cw, queue)
    ensures Ac3LoopAsWritten(cw, d, queue).AttributeError? <==> Ac3Loop(cw, d, queue, mode).1 != d
    ensures Ac3LoopAsWritten(cw, d, queue).Finished? ==>
      Ac3LoopAsWritten(cw, d, queue) == Finished(true, d) && Ac3Loop(cw, d, queue, mode) == (true, d)
    decreases |queue|
  {
    if queue != [] {
      if Revise(cw, d, queue[0].0, queue[0].1).0 {
        Ac3LoopPrunesHead(cw, d, queue, mode);
      } else {
        Ac3AsWrittenRaisesIffPruning(cw, d, queue[1..], mode);
      }
    }
  }
}
