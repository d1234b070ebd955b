/**
  The Minesweeper board: its size, where the mines are, and the mines the
  player has flagged. The source also keeps a grid of booleans; it holds a
  mine exactly at the cells of `mines`, so the set alone is modelled.
 */
module MinesweeperBoard {
  import opened Sets

  /** A (row, column) pair; it may lie off the board. */
  type Cell = (int, int)

  datatype Game = Game(height: int, width: int, mines: set<Cell>, minesFound: set<Cell>)

  predicate InBounds(height: int, width: int, c: Cell) {
    0 <= c.0 < height && 0 <= c.1 < width
  }

  /** `x` is one of the eight cells touching `c`. */
  predicate Adjacent(c: Cell, x: Cell) {
    x != c && c.0 - 1 <= x.0 <= c.0 + 1 && c.1 - 1 <= x.1 <= c.1 + 1
  }

  /** The cells around `c`, visited row by row as the nested loops do, skipping `c`. */
  function Around(c: Cell): (s: seq<Cell>)
    ensures |s| == 8
    ensures forall i, j :: 0 <= i < j < |s| ==> s[i] != s[j]
    ensures forall x :: x in s <==> Adjacent(c, x)
  {
    var (i, j) := c;
    [(i - 1, j - 1), (i - 1, j), (i - 1, j + 1),
     (i, j - 1), (i, j + 1),
     (i + 1, j - 1), (i + 1, j), (i + 1, j + 1)]
  }

  /** The in-bounds cells of `c`'s neighbourhood, `c` excluded. */
  function Neighbours(height: int, width: int, c: Cell): (r: set<Cell>)
    ensures forall x :: x in r <==> Adjacent(c, x) && InBounds(height, width, x)
  {
    set x | x in Around(c) && InBounds(height, width, x)
  }

  /** Number of cells of `s` that are in bounds and in `marked`. */
  function CountMarked(s: seq<Cell>, height: int, width: int, marked: set<Cell>): (n: nat)
    ensures n <= |s|
  {
    if s == [] then 0
    else (if InBounds(height, width, s[0]) && s[0] in marked then 1 else 0)
         + CountMarked(s[1..], height, width, marked)
  }

  /** Counting along a repetition-free sequence counts the matching set. */
  lemma {:induction false} CountMarkedIsCard(s: seq<Cell>, height: int, width: int, marked: set<Cell>)
    requires forall i, j :: 0 <= i < j < |s| ==> s[i] != s[j]
    ensures CountMarked(s, height, width, marked)
            == |set x | x in s && InBounds(height, width, x) && x in marked|
  {
    if s != [] {
      CountMarkedIsCard(s[1..], height, width, marked);
      var rest := set x | x in s[1..] && InBounds(height, width, x) && x in marked;
      var all := set x | x in s && InBounds(height, width, x) && x in marked;
      assert s[0] !in rest;
      if InBounds(height, width, s[0]) && s[0] in marked {
        assert all == {s[0]} + rest;
      } else {
        assert all == rest;
      }
    }
  }

  /** Number of mines touching `c`, counting only cells on the board. */
  function NearbyMines(g: Game, c: Cell): (r: nat)
    ensures r <= 8
    ensures r == |set x | x in g.mines && Adjacent(c, x) && InBounds(g.height, g.width, x)|
  {
    CountMarkedIsCard(Around(c), g.height, g.width, g.mines);
    assert (set x | x in Around(c) && InBounds(g.height, g.width, x) && x in g.mines)
        == (set x | x in g.mines && Adjacent(c, x) && InBounds(g.height, g.width, x));
    CountMarked(Around(c), g.height, g.width, g.mines)
  }

  /**
    The game is won once the flagged mines are exactly the mines. While the
    player flags only mines, that is the moment the flag count reaches the
    mine count.
   */
  function Won(g: Game): (r: bool)
    ensures r ==> |g.minesFound| == |g.mines|
    ensures g.minesFound <= g.mines ==> (r <==> |g.minesFound| == |g.mines|)
  {
    FlagCountDecides(g.mines, g.minesFound);
    g.minesFound == g.mines
  }

  /** Among subsets of the mines, only the mine set itself has as many cells. */
  lemma FlagCountDecides(mines: set<Cell>, found: set<Cell>)
    ensures found <= mines ==> (found == mines <==> |found| == |mines|)
  {
    if found <= mines && |found| == |mines| {
      FullSubsetIsAll(mines, found);
    }
  }
}

/**
  A sentence of the agent's knowledge: "exactly `count` of `cells` are
  mines". Cells whose status becomes known move out of `cells` into the
  sentence's own `mines` or `safes`.
 */
module MinesweeperSentence {
  import opened Sets
  import opened MinesweeperBoard

  datatype Sentence = Sentence(cells: set<Cell>, mines: set<Cell>, safes: set<Cell>, count: int)

  /** Every cell the sentence speaks about, whether still open or already decided. */
  function Covered(s: Sentence): set<Cell> {
    s.cells + s.mines + s.safes
  }

  /** The open, mine and safe parts never share a cell. */
  predicate Separated(s: Sentence) {
    s.cells !! s.mines && s.cells !! s.safes && s.mines !! s.safes
  }

  /** `s` is a true statement about a board whose mines are `m`. */
  predicate TrueOf(s: Sentence, m: set<Cell>) {
    |s.cells * m| == s.count && s.mines <= m && s.safes !! m
  }

  /** Sentences compare equal when they have the same open cells and count. */
  predicate Same(s: Sentence, t: Sentence) {
    s.cells == t.cells && s.count == t.count
  }

  /**
    Equality as the knowledge base uses it respects the sentence operations:
    equal sentences stay equal when the same cell is marked, and infer alike.
   */
  lemma SameCongruent(s: Sentence, t: Sentence, c: Cell)
    requires Same(s, t)
    ensures Same(MarkMine(s, c), MarkMine(t, c))
    ensures Same(MarkSafe(s, c), MarkSafe(t, c))
    ensures InferKnowledge(s).0 == InferKnowledge(t).0
    ensures Same(InferKnowledge(s).1, InferKnowledge(t).1)
  {
  }

  /** Records that `c` is a mine: an open `c` becomes a known mine and the count drops. */
  function MarkMine(s: Sentence, c: Cell): (r: Sentence)
    ensures c !in s.cells ==> r == s
    ensures c in s.cells ==> r.count == s.count - 1 && c in r.mines
    ensures r.cells == s.cells - {c} && r.safes == s.safes
    ensures Covered(r) == Covered(s)
    ensures Separated(s) ==> Separated(r) && s.count + |s.mines| == r.count + |r.mines|
  {
    if c !in s.cells then s
    else Sentence(s.cells - {c}, s.mines + {c}, s.safes, s.count - 1)
  }

  /** Records that `c` is safe: an open `c` becomes a known safe cell; the count stays. */
  function MarkSafe(s: Sentence, c: Cell): (r: Sentence)
    ensures c !in s.cells ==> r == s
    ensures c in s.cells ==> c in r.safes
    ensures r.cells == s.cells - {c} && r.mines == s.mines && r.count == s.count
    ensures Covered(r) == Covered(s)
    ensures Separated(s) ==> Separated(r)
  {
    if c !in s.cells then s
    else Sentence(s.cells - {c}, s.mines, s.safes + {c}, s.count)
  }

  /** Marking a real mine keeps a true sentence true. */
  lemma MarkMineSound(s: Sentence, c: Cell, m: set<Cell>)
    requires TrueOf(s, m) && c in m
    ensures TrueOf(MarkMine(s, c), m)
  {
    if c in s.cells {
      assert (s.cells - {c}) * m == (s.cells * m) - {c};
    }
  }

  /** Marking a really safe cell keeps a true sentence true. */
  lemma MarkSafeSound(s: Sentence, c: Cell, m: set<Cell>)
    requires TrueOf(s, m) && c !in m
    ensures TrueOf(MarkSafe(s, c), m)
  {
    if c in s.cells {
      assert (s.cells - {c}) * m == s.cells * m;
    }
  }

  /**
    Local inference: a count of 0 makes every open cell safe; as many open
    cells as the count makes every open cell a mine. Reports whether it fired.
   */
  function InferKnowledge(s: Sentence): (r: (bool, Sentence))
    ensures r.0 <==> s.count == 0 || |s.cells| == s.count
    ensures !r.0 ==> r.1 == s
    ensures r.0 ==> r.1.cells == {} && r.1.count == 0
    ensures s.count == 0 ==> r.1.safes == s.safes + s.cells && r.1.mines == s.mines
    ensures s.count != 0 && |s.cells| == s.count ==> r.1.mines == s.mines + s.cells && r.1.safes == s.safes
    ensures Covered(r.1) == Covered(s)
  {
    if s.count == 0 then
      (true, Sentence({}, s.mines, s.safes + s.cells, s.count))
    else if |s.cells| == s.count then
      (true, Sentence({}, s.mines + s.cells, s.safes, 0))
    else
      (false, s)
  }

  /** Inference only draws conclusions that hold on every board the sentence is true of. */
  lemma InferKnowledgeSound(s: Sentence, m: set<Cell>)
    requires TrueOf(s, m)
    ensures TrueOf(InferKnowledge(s).1, m)
  {
    if s.count == 0 {
      assert s.cells * m == {};
    } else if |s.cells| == s.count {
      FullSubsetIsAll(s.cells, s.cells * m);
    }
  }

  /** A new sentence runs local inference at once, as the constructor does. */
  function NewSentence(cells: set<Cell>, count: int): (r: Sentence)
    ensures count == 0 ==> r.cells == {} && r.safes == cells && r.mines == {}
    ensures count != 0 && |cells| == count ==> r.cells == {} && r.mines == cells && r.safes == {}
    ensures count != 0 && |cells| != count ==> r == Sentence(cells, {}, {}, count)
    ensures Separated(r)
    ensures Covered(r) == cells
  {
    InferKnowledge(Sentence(cells, {}, {}, count)).1
  }

  /** A fresh sentence is true of every board on which its claim holds. */
  lemma NewSentenceSound(cells: set<Cell>, count: int, m: set<Cell>)
    requires |cells * m| == count
    ensures TrueOf(NewSentence(cells, count), m)
  {
    InferKnowledgeSound(Sentence(cells, {}, {}, count), m);
  }

  /**
    A fresh sentence, resolved or not, is true of exactly the boards on which
    `count` of `cells` are mines.
   */
  lemma NewSentenceClaim(cells: set<Cell>, count: int)
    ensures forall m :: TrueOf(NewSentence(cells, count), m) <==> |cells * m| == count
  {
    forall m ensures TrueOf(NewSentence(cells, count), m) <==> |cells * m| == count {
      if count != 0 && |cells| == count {
        if cells <= m {
          assert cells * m == cells;
        }
        if |cells * m| == count {
          FullSubsetIsAll(cells, cells * m);
        }
      }
    }
  }

  /**
    The subset rule: when `t`'s open cells lie inside `s`'s, the remaining
    cells hold the difference of the counts.
   */
  function SubsetInference(s: Sentence, t: Sentence): (r: Sentence)
    requires t.cells <= s.cells
    ensures Covered(r) == s.cells - t.cells
    ensures s.count - t.count != 0 && |s.cells - t.cells| != s.count - t.count ==>
      r.cells == s.cells - t.cells && r.count == s.count - t.count
    ensures forall m :: TrueOf(r, m) <==> |(s.cells - t.cells) * m| == s.count - t.count
  {
    NewSentenceClaim(s.cells - t.cells, s.count - t.count);
    NewSentence(s.cells - t.cells, s.count - t.count)
  }

  /** The subset rule is sound: from two true sentences it derives a true one. */
  lemma SubsetInferenceSound(s: Sentence, t: Sentence, m: set<Cell>)
    requires t.cells <= s.cells
    requires |s.cells * m| == s.count && |t.cells * m| == t.count
    ensures TrueOf(SubsetInference(s, t), m)
  {
    assert s.cells * m == ((s.cells - t.cells) * m) + (t.cells * m);
    assert ((s.cells - t.cells) * m) !! (t.cells * m);
    NewSentenceSound(s.cells - t.cells, s.count - t.count, m);
  }
}

/**
  The playing agent: the moves made, the cells known to be mines or safe,
  and a list of sentences.
 */
module MinesweeperAI {
  import opened Wrappers
  import opened MinesweeperBoard
  import opened MinesweeperSentence

  datatype AI = AI(height: int, width: int, movesMade: set<Cell>,
                   mines: set<Cell>, safes: set<Cell>, knowledge: seq<Sentence>)

  /** Everything the agent believes holds on a board whose mines are `m`. */
  predicate Believes(ai: AI, m: set<Cell>) {
    && ai.mines <= m
    && ai.safes !! m
    && forall i :: 0 <= i < |ai.knowledge| ==> TrueOf(ai.knowledge[i], m)
  }

  /** Records a mine; a cell not known before is marked in every sentence. */
  function MarkMine(ai: AI, c: Cell): (r: AI)
    ensures c in ai.mines ==> r == ai
    ensures r.mines == ai.mines + {c}
    ensures r.safes == ai.safes && r.movesMade == ai.movesMade
    ensures |r.knowledge| == |ai.knowledge|
    ensures c !in ai.mines ==>
      forall i :: 0 <= i < |r.knowledge| ==>
        c !in r.knowledge[i].cells && r.knowledge[i].cells == ai.knowledge[i].cells - {c}
    ensures c !in ai.mines ==>
      forall i :: 0 <= i < |r.knowledge| && c in ai.knowledge[i].cells ==>
        r.knowledge[i].count == ai.knowledge[i].count - 1 && c in r.knowledge[i].mines
    ensures c !in ai.mines ==>
      forall i :: 0 <= i < |r.knowledge| ==> r.knowledge[i] == MinesweeperSentence.MarkMine(ai.knowledge[i], c)
  {
    if c in ai.mines then ai
    else
      var k := ai.knowledge;
      ai.(mines := ai.mines + {c},
          knowledge := seq(|k|, i requires 0 <= i < |k| => MinesweeperSentence.MarkMine(k[i], c)))
  }

  /** Records a safe cell; a cell not known before is marked in every sentence. */
  function MarkSafe(ai: AI, c: Cell): (r: AI)
    ensures c in ai.safes ==> r == ai
    ensures r.safes == ai.safes + {c}
    ensures r.mines == ai.mines && r.movesMade == ai.movesMade
    ensures |r.knowledge| == |ai.knowledge|
    ensures c !in ai.safes ==>
      forall i :: 0 <= i < |r.knowledge| ==>
        c !in r.knowledge[i].cells && r.knowledge[i].cells == ai.knowledge[i].cells - {c}
    ensures c !in ai.safes ==>
      forall i :: 0 <= i < |r.knowledge| ==>
        r.knowledge[i].count == ai.knowledge[i].count && r.knowledge[i].mines == ai.knowledge[i].mines
    ensures c !in ai.safes ==>
      forall i :: 0 <= i < |r.knowledge| && c in ai.knowledge[i].cells ==> c in r.knowledge[i].safes
    ensures c !in ai.safes ==>
      forall i :: 0 <= i < |r.knowledge| ==> r.knowledge[i] == MinesweeperSentence.MarkSafe(ai.knowledge[i], c)
  {
    if c in ai.safes then ai
    else
      var k := ai.knowledge;
      ai.(safes := ai.safes + {c},
          knowledge := seq(|k|, i requires 0 <= i < |k| => MinesweeperSentence.MarkSafe(k[i], c)))
  }

  /** Marking the same mine twice changes nothing the second time. */
  lemma MarkMineIdempotent(ai: AI, c: Cell)
    ensures MarkMine(MarkMine(ai, c), c) == MarkMine(ai, c)
  {
  }

  /** Marking the same safe cell twice changes nothing the second time. */
  lemma MarkSafeIdempotent(ai: AI, c: Cell)
    ensures MarkSafe(MarkSafe(ai, c), c) == MarkSafe(ai, c)
  {
  }

  /** Marking a real mine keeps every belief of the agent true. */
  lemma MarkMineKeepsBeliefs(ai: AI, c: Cell, m: set<Cell>)
    requires Believes(ai, m) && c in m
    ensures Believes(MarkMine(ai, c), m)
  {
    var r := MarkMine(ai, c);
    forall i | 0 <= i < |r.knowledge| ensures TrueOf(r.knowledge[i], m) {
      MarkMineSound(ai.knowledge[i], c, m);
    }
  }

  /** Marking a really safe cell keeps every belief of the agent true. */
  lemma MarkSafeKeepsBeliefs(ai: AI, c: Cell, m: set<Cell>)
    requires Believes(ai, m) && c !in m
    ensures Believes(MarkSafe(ai, c), m)
  {
    var r := MarkSafe(ai, c);
    forall i | 0 <= i < |r.knowledge| ensures TrueOf(r.knowledge[i], m) {
      MarkSafeSound(ai.knowledge[i], c, m);
    }
  }

  /**
    The sentence learned from a revealed `cell` with `count` mines around it:
    its in-bounds neighbours, with the cells already known safe and then the
    cells already known to be mines marked off.
   */
  method BuildSentence(ai: AI, cell: Cell, count: int) returns (s: Sentence)
    ensures count == 0 ==>
      s.cells == {} && s.mines == {} && s.safes == Neighbours(ai.height, ai.width, cell) && s.count == 0
    ensures count != 0 && |Neighbours(ai.height, ai.width, cell)| == count ==>
      s.cells == {} && s.mines == Neighbours(ai.height, ai.width, cell) && s.safes == {} && s.count == 0
    ensures var n := Neighbours(ai.height, ai.width, cell);
      count != 0 && |n| != count ==>
        && s.cells == n - ai.safes - ai.mines
        && s.safes == n * ai.safes
        && s.mines == (n - ai.safes) * ai.mines
        && s.count == count - |(n - ai.safes) * ai.mines|
    ensures Covered(s) == Neighbours(ai.height, ai.width, cell)
  {
    s := MarkedSentence(Neighbours(ai.height, ai.width, cell), count, ai.safes, ai.mines);
  }

  /** The sentence "`count` of `n` are mines", with the known safe cells and then the known mines marked. */
  method MarkedSentence(n: set<Cell>, count: int, safes: set<Cell>, mines: set<Cell>) returns (s: Sentence)
    ensures count == 0 ==> s.cells == {} && s.mines == {} && s.safes == n && s.count == 0
    ensures count != 0 && |n| == count ==> s.cells == {} && s.mines == n && s.safes == {} && s.count == 0
    ensures count != 0 && |n| != count ==>
      && s.cells == n - safes - mines
      && s.safes == n * safes
      && s.mines == (n - safes) * mines
      && s.count == count - |(n - safes) * mines|
    ensures Covered(s) == n
  {
    var s0 := NewSentence(n, count);
    s := MarkKnown(s0, safes, mines);
    if count == 0 {
      assert s0 == Sentence({}, {}, n, 0);
    } else if |n| == count {
      assert s0 == Sentence({}, n, {}, 0);
    } else {
      assert s0 == Sentence(n, {}, {}, count);
      assert {} + n * safes == n * safes;
      assert {} + (n - safes) * mines == (n - safes) * mines;
    }
  }

  /** Marks the known safe cells, then the known mines, in `s0`. */
  method MarkKnown(s0: Sentence, safes: set<Cell>, mines: set<Cell>) returns (s: Sentence)
    ensures s.cells == s0.cells - safes - mines
    ensures s.safes == s0.safes + s0.cells * safes
    ensures s.mines == s0.mines + (s0.cells - safes) * mines
    ensures s.count == s0.count - |(s0.cells - safes) * mines|
    ensures Covered(s) == Covered(s0)
  {
    var s1 := MarkAllSafe(s0, safes);
    s := MarkAllMines(s1, mines);
  }

  /** Marks every cell of `known` safe in `s0`, one at a time in any order. */
  method MarkAllSafe(s0: Sentence, known: set<Cell>) returns (s: Sentence)
    ensures s.cells == s0.cells - known
    ensures s.safes == s0.safes + s0.cells * known
    ensures s.mines == s0.mines && s.count == s0.count
    ensures Covered(s) == Covered(s0)
  {
    s := s0;
    var todo := known;
    while todo != {}
      invariant todo <= known
      invariant s.cells == s0.cells - (known - todo)
      invariant s.safes == s0.safes + s0.cells * (known - todo)
      invariant s.mines == s0.mines && s.count == s0.count
      invariant Covered(s) == Covered(s0)
      decreases todo
    {
      var c :| c in todo;
      s := MinesweeperSentence.MarkSafe(s, c);
      todo := todo - {c};
    }
  }

  /** Marks every cell of `known` as a mine in `s1`, one at a time in any order. */
  method MarkAllMines(s1: Sentence, known: set<Cell>) returns (s: Sentence)
    ensures s.cells == s1.cells - known
    ensures s.mines == s1.mines + s1.cells * known
    ensures s.safes == s1.safes
    ensures s.count == s1.count - |s1.cells * known|
    ensures Covered(s) == Covered(s1)
  {
    s := s1;
    var todo := known;
    ghost var done: set<Cell> := {};
    while todo != {}
      invariant todo !! done && known == todo + done
      invariant s.cells == s1.cells - done
      invariant s.mines == s1.mines + s1.cells * done
      invariant s.safes == s1.safes
      invariant s.count == s1.count - |s1.cells * done|
      invariant Covered(s) == Covered(s1)
      decreases todo
    {
      var c :| c in todo;
      GrowIntersection(s1.cells, done, c);
      s := MinesweeperSentence.MarkMine(s, c);
      todo := todo - {c};
      done := done + {c};
    }
  }

  lemma GrowIntersection(a: set<Cell>, done: set<Cell>, c: Cell)
    requires c !in done
    ensures c in a ==> a * (done + {c}) == a * done + {c} && |a * (done + {c})| == |a * done| + 1
    ensures c !in a ==> a * (done + {c}) == a * done
  {
    if c in a {
      assert a * (done + {c}) == a * done + {c};
    }
  }

  /** Some known-safe cell not yet played, or `None` when there is none. */
  method MakeSafeMove(ai: AI) returns (r: Option<Cell>)
    ensures r.Some? ==> r.value in ai.safes && r.value !in ai.movesMade
    ensures r.None? <==> ai.safes <= ai.movesMade
  {
    var candidates := ai.safes - ai.movesMade;
    if candidates == {} {
      assert forall x :: x in ai.safes ==> x in candidates || x in ai.movesMade;
      return None;
    }
    var c :| c in candidates;
    return Some(c);
  }

  /** Cell `x` comes before cell `y` in row-major order. */
  predicate Before(x: Cell, y: Cell) {
    x.0 < y.0 || (x.0 == y.0 && x.1 < y.1)
  }

  /**
    The first cell in row-major order that is neither played nor a known
    mine, or `None` when every cell of the board is one or the other.
   */
  method MakeRandomMove(ai: AI) returns (r: Option<Cell>)
    ensures r.Some? ==>
      && InBounds(ai.height, ai.width, r.value)
      && r.value !in ai.movesMade && r.value !in ai.mines
    ensures r.Some? ==>
      forall x :: InBounds(ai.height, ai.width, x) && Before(x, r.value) ==>
        x in ai.movesMade || x in ai.mines
    ensures r.None? <==>
      forall x :: InBounds(ai.height, ai.width, x) ==> x in ai.movesMade || x in ai.mines
  {
    var i := 0;
    while i < ai.height
      invariant forall x :: InBounds(ai.height, ai.width, x) && x.0 < i ==>
        x in ai.movesMade || x in ai.mines
    {
      var j := 0;
      while j < ai.width
        invariant forall x :: InBounds(ai.height, ai.width, x) && (x.0 < i || (x.0 == i && x.1 < j)) ==>
          x in ai.movesMade || x in ai.mines
      {
        var cell := (i, j);
        if cell !in ai.movesMade && cell !in ai.mines {
          return Some(cell);
        }
        j := j + 1;
      }
      i := i + 1;
    }
    return None;
  }

  /** Whether a sentence with the same cells and count is already in `kept`. */
  method AlreadyKept(kept: seq<Sentence>, s: Sentence) returns (exists_: bool)
    ensures exists_ <==> exists b :: 0 <= b < |kept| && Same(s, kept[b])
  {
    exists_ := false;
    var j := 0;
    while j < |kept|
      invariant j <= |kept|
      invariant !exists b :: 0 <= b < j && Same(s, kept[b])
    {
      if s.cells == kept[j].cells && s.count == kept[j].count {
        exists_ := true;
        return;
      }
      j := j + 1;
    }
  }

  /**
    Drops sentences whose count is 0 and every sentence equal to one kept
    earlier; the first of each group of equal sentences survives.
   */
  method SimplifyKnowledge(ai: AI) returns (r: AI)
    ensures r == ai.(knowledge := r.knowledge)
    ensures forall i :: 0 <= i < |r.knowledge| ==> r.knowledge[i].count != 0
    ensures forall i, j :: 0 <= i < j < |r.knowledge| ==> !Same(r.knowledge[i], r.knowledge[j])
    ensures forall i :: 0 <= i < |r.knowledge| ==> r.knowledge[i] in ai.knowledge
    ensures forall i :: 0 <= i < |ai.knowledge| && ai.knowledge[i].count != 0 ==>
      exists j :: 0 <= j < |r.knowledge| && Same(ai.knowledge[i], r.knowledge[j])
  {
    var k := ai.knowledge;
    var kept: seq<Sentence> := [];
    var i := 0;
    while i < |k|
      invariant i <= |k|
      invariant forall a :: 0 <= a < |kept| ==> kept[a].count != 0
      invariant forall a, b :: 0 <= a < b < |kept| ==> !Same(kept[a], kept[b])
      invariant forall a :: 0 <= a < |kept| ==> kept[a] in k
      invariant forall a :: 0 <= a < i && k[a].count != 0 ==>
        exists b :: 0 <= b < |kept| && Same(k[a], kept[b])
    {
      var s := k[i];
      if s.count != 0 {
        var exists_ := AlreadyKept(kept, s);
        if !exists_ {
          var before := kept;
          kept := kept + [s];
          assert forall a :: 0 <= a < |before| ==> kept[a] == before[a];
          assert Same(s, kept[|before|]);
        }
      }
      i := i + 1;
    }
    r := ai.(knowledge := kept);
  }
}
