/**
  The crossword as the constraint solver sees it: slots (variables), the
  vocabulary, and the character offsets at which crossing slots overlap,
  together with the predicates that describe domains and assignments.
  Parsing the structure and word files is not part of this model; the
  solver receives a `Crossword` value.
 */
module CrosswordPuzzle {

  datatype Direction = Across | Down

  /** A slot: its starting cell, its direction and the length of the word it holds. */
  datatype Variable = Variable(i: int, j: int, direction: Direction, length: nat)

  type Word = string

  /** `(k, l)`: character `k` of the first slot's word sits on character `l` of the second's. */
  type Offsets = (nat, nat)

  type Arc = (Variable, Variable)

  /**
    `variables` lists the slots in the order the solver iterates them (Python
    iterates a set here, so the order is not otherwise fixed). A pair is a key
    of `overlaps` exactly when the two slots cross.
   */
  datatype Crossword = Crossword(variables: seq<Variable>, words: set<Word>, overlaps: map<Arc, Offsets>)

  type Domains = map<Variable, set<Word>>

  type Assignment = map<Variable, Word>

  function Slots(cw: Crossword): set<Variable> {
    set v | v in cw.variables
  }

  /**
    What the solver relies on from the puzzle: an overlap relates two
    different slots of the puzzle and is recorded in both directions.
   */
  predicate OverlapsSymmetric(cw: Crossword) {
    forall p :: p in cw.overlaps ==>
      p.0 != p.1 && p.0 in cw.variables && p.1 in cw.variables && (p.1, p.0) in cw.overlaps
  }

  /** The slots crossing `x`. */
  function Neighbors(cw: Crossword, x: Variable): set<Variable> {
    set y | y in cw.variables && y != x && (y, x) in cw.overlaps
  }

  /** Number of slots crossing `x`. */
  function Degree(cw: Crossword, x: Variable): nat {
    |Neighbors(cw, x)|
  }

  /** Words `w` and `v` carry the same letter at the offsets `o`. */
  predicate Agree(o: Offsets, w: Word, v: Word) {
    o.0 < |w| && o.1 < |v| && w[o.0] == v[o.1]
  }

  /** Some word of `ys` agrees with `w` at the offsets `o`. */
  predicate Supported(o: Offsets, w: Word, ys: set<Word>) {
    exists v :: v in ys && Agree(o, w, v)
  }

  /** There is exactly one domain per slot. */
  predicate Covers(cw: Crossword, d: Domains) {
    d.Keys == Slots(cw)
  }

  /** Every domain holds only words of its slot's length. */
  predicate NodeConsistent(cw: Crossword, d: Domains) {
    Covers(cw, d) && forall v, w :: v in d && w in d[v] ==> |w| == v.length
  }

  /** Every domain holds only vocabulary words. */
  predicate WithinWords(cw: Crossword, d: Domains) {
    forall v :: v in d ==> d[v] <= cw.words
  }

  /** `d'` has the same slots as `d` and no domain grew. */
  predicate Shrinks(d: Domains, d': Domains) {
    d'.Keys == d.Keys && forall v :: v in d ==> d'[v] <= d[v]
  }

  /** Every word of a slot has a partner in the domain of each crossing slot. */
  predicate ArcConsistent(cw: Crossword, d: Domains) {
    forall a, w :: a in cw.overlaps && a.0 in d && a.1 in d && w in d[a.0] ==>
      Supported(cw.overlaps[a], w, d[a.1])
  }

  /** Every assigned word has its slot's length. */
  predicate LengthsFit(a: Assignment) {
    forall v :: v in a ==> |a[v]| == v.length
  }

  /** No word is used by two slots. */
  predicate WordsUnique(a: Assignment) {
    forall v, u :: v in a && u in a && v != u ==> a[v] != a[u]
  }

  /** Every two assigned crossing slots carry the same letter where they cross. */
  predicate CrossingsAgree(cw: Crossword, a: Assignment) {
    forall p :: p in cw.overlaps && p.0 in a && p.1 in a ==> Agree(cw.overlaps[p], a[p.0], a[p.1])
  }

  /** The three conditions a partial assignment must meet. */
  predicate Valid(cw: Crossword, a: Assignment) {
    LengthsFit(a) && WordsUnique(a) && CrossingsAgree(cw, a)
  }

  /** A filled-in crossword: every slot holds a vocabulary word and the fill is valid. */
  predicate IsSolution(cw: Crossword, a: Assignment) {
    && a.Keys == Slots(cw)
    && (forall v :: v in a ==> a[v] in cw.words)
    && Valid(cw, a)
  }

  /** Every slot's word in `a` is still in that slot's domain. */
  predicate WithinDomains(d: Domains, a: Assignment) {
    forall v :: v in a ==> v in d && a[v] in d[v]
  }

  /** `big` keeps every slot of `small` with the same word. */
  predicate Extends(small: Assignment, big: Assignment) {
    forall v :: v in small ==> v in big && big[v] == small[v]
  }

  /** Dropping slots from a valid assignment leaves a valid assignment. */
  lemma ValidDownward(cw: Crossword, small: Assignment, big: Assignment)
    requires Extends(small, big) && Valid(cw, big)
    ensures Valid(cw, small)
  {
  }
}
