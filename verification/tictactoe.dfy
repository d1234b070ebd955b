/**
  Rules of tic-tac-toe on a 3x3 board and the minimax player. A board is
  the nine cells in row-major order, so cell (i, j) sits at index 3 * i + j;
  an empty cell is `None`.
 */
module TicTacToe {
  import opened Wrappers

  datatype Mark = X | O

  type Cell = Option<Mark>

  type Board = b: seq<Cell> | |b| == 9
    witness [None, None, None, None, None, None, None, None, None]

  /** A move (row, column); the caller may pass coordinates off the board. */
  type Action = (int, int)

  /** The two reasons `result` refuses a move. */
  datatype MoveError = OffBoard | Taken

  /** The nine cells, in the row-major order the model enumerates them. */
  const AllActions: seq<Action> :=
    [(0, 0), (0, 1), (0, 2), (1, 0), (1, 1), (1, 2), (2, 0), (2, 1), (2, 2)]

  predicate InRange(a: Action) {
    0 <= a.0 < 3 && 0 <= a.1 < 3
  }

  function Index(a: Action): int {
    3 * a.0 + a.1
  }

  /** `a` names a cell of the board that is still empty. */
  predicate Legal(b: Board, a: Action) {
    InRange(a) && b[Index(a)] == None
  }

  /** Number of cells of `s` at index `k` or later holding `c`. */
  function CountFrom(s: seq<Cell>, k: nat, c: Cell): (n: nat)
    requires k <= |s|
    ensures n <= |s| - k
    decreases |s| - k
  {
    if k == |s| then 0 else (if s[k] == c then 1 else 0) + CountFrom(s, k + 1, c)
  }

  /** Number of cells of `s` holding `c`. */
  function Count(s: seq<Cell>, c: Cell): nat {
    CountFrom(s, 0, c)
  }

  lemma {:induction false} CountFromUpdate(s: seq<Cell>, j: nat, k: nat, x: Cell, c: Cell)
    requires j <= |s| && k < |s|
    ensures CountFrom(s[k := x], j, c)
            == CountFrom(s, j, c) - (if j <= k && s[k] == c then 1 else 0) + (if j <= k && x == c then 1 else 0)
    decreases |s| - j
  {
    if j < |s| {
      CountFromUpdate(s, j + 1, k, x, c);
    }
  }

  lemma CountUpdate(s: seq<Cell>, k: nat, x: Cell, c: Cell)
    requires k < |s|
    ensures Count(s[k := x], c)
            == Count(s, c) - (if s[k] == c then 1 else 0) + (if x == c then 1 else 0)
  {
    CountFromUpdate(s, 0, k, x, c);
  }

  lemma {:induction false} CountFromZero(s: seq<Cell>, j: nat, c: Cell)
    requires j <= |s|
    ensures CountFrom(s, j, c) == 0 <==> forall i :: j <= i < |s| ==> s[i] != c
    decreases |s| - j
  {
    if j < |s| {
      CountFromZero(s, j + 1, c);
    }
  }

  lemma CountZero(s: seq<Cell>, c: Cell)
    ensures Count(s, c) == 0 <==> c !in s
  {
    CountFromZero(s, 0, c);
  }

  lemma {:induction false} CountFromAll(s: seq<Cell>, j: nat, c: Cell)
    requires j <= |s|
    requires forall k :: 0 <= k < |s| ==> s[k] == c
    ensures CountFrom(s, j, c) == |s| - j
    decreases |s| - j
  {
    if j < |s| {
      CountFromAll(s, j + 1, c);
    }
  }

  function InitialState(): (b: Board)
    ensures forall k :: 0 <= k < 9 ==> b[k] == None
    ensures Player(b) == X
    ensures |Actions(b)| == 9
    ensures !Terminal(b)
  {
    var b: Board := [None, None, None, None, None, None, None, None, None];
    CountZero(b, Some(X));
    CountZero(b, Some(O));
    CountFromAll(b, 0, None);
    ActionsCount(b);
    b
  }

  /** X moves whenever O has placed at least as many marks as X. */
  function Player(b: Board): (p: Mark)
    ensures Balanced(b) ==> (p == X <==> Count(b, Some(X)) == Count(b, Some(O)))
    ensures Balanced(b) ==> (p == O <==> Count(b, Some(X)) == Count(b, Some(O)) + 1)
  {
    if Count(b, Some(O)) >= Count(b, Some(X)) then X else O
  }

  /** Boards reachable by alternate play from the initial state have this balance. */
  predicate Balanced(b: Board) {
    Count(b, Some(X)) == Count(b, Some(O)) || Count(b, Some(X)) == Count(b, Some(O)) + 1
  }

  lemma AllActionsIndex(k: nat)
    requires k < 9
    ensures InRange(AllActions[k]) && Index(AllActions[k]) == k
  {
    if k == 0 {} else if k == 1 {} else if k == 2 {} else if k == 3 {} else if k == 4 {}
    else if k == 5 {} else if k == 6 {} else if k == 7 {} else {}
  }

  /** The empty cells in row-major order from index `k` on. */
  function MovesFrom(b: Board, k: nat): (ms: seq<Action>)
    requires k <= 9
    ensures forall i :: 0 <= i < |ms| ==> Legal(b, ms[i]) && k <= Index(ms[i])
    ensures forall i, j :: 0 <= i < j < |ms| ==> Index(ms[i]) < Index(ms[j])
    ensures |ms| == CountFrom(b, k, None)
    decreases 9 - k
  {
    if k == 9 then []
    else
      AllActionsIndex(k);
      var rest := MovesFrom(b, k + 1);
      if b[k] == None then [AllActions[k]] + rest else rest
  }

  /** The legal moves of `b` as a sequence, in the order the players try them. */
  function Moves(b: Board): seq<Action> {
    MovesFrom(b, 0)
  }

  lemma {:induction false} MovesFromComplete(b: Board, k: nat, a: Action)
    requires k <= 9
    requires Legal(b, a) && k <= Index(a)
    ensures a in MovesFrom(b, k)
    decreases 9 - k
  {
    if Index(a) == k {
      AllActionsIndex(k);
      assert AllActions[k] == a;
    } else {
      MovesFromComplete(b, k + 1, a);
    }
  }

  /** The set of available moves. */
  function Actions(b: Board): (r: set<Action>)
    ensures forall a :: a in r <==> Legal(b, a)
  {
    forall a | Legal(b, a) ensures a in Moves(b) {
      MovesFromComplete(b, 0, a);
    }
    set a | a in Moves(b)
  }

  lemma {:induction false} DistinctCard(s: seq<Action>)
    requires forall i, j :: 0 <= i < j < |s| ==> s[i] != s[j]
    ensures |set a | a in s| == |s|
  {
    if s != [] {
      DistinctCard(s[1..]);
      assert (set a | a in s) == {s[0]} + (set a | a in s[1..]);
    }
  }

  /** There are exactly as many actions as empty cells. */
  lemma ActionsCount(b: Board)
    ensures |Actions(b)| == Count(b, None)
  {
    DistinctCard(Moves(b));
  }

  /** The board after the player to move puts a mark on the legal cell `a`. */
  function Play(b: Board, a: Action): (r: Board)
    requires Legal(b, a)
    ensures Count(r, None) == Count(b, None) - 1
  {
    CountUpdate(b, Index(a), Some(Player(b)), None);
    b[Index(a) := Some(Player(b))]
  }

  /** Plays `a`, refusing moves off the board or onto a marked cell. */
  function Result(b: Board, a: Action): (r: Result<Board, MoveError>)
    ensures r.Success? <==> Legal(b, a)
    ensures !InRange(a) ==> r == Failure(OffBoard)
    ensures InRange(a) && b[Index(a)] != None ==> r == Failure(Taken)
    ensures r.Success? ==> r.value[Index(a)] == Some(Player(b))
    ensures r.Success? ==> forall k :: 0 <= k < 9 && k != Index(a) ==> r.value[k] == b[k]
  {
    if !InRange(a) then Failure(OffBoard)
    else if b[Index(a)] != None then Failure(Taken)
    else Success(Play(b, a))
  }

  /** Alternate play keeps the board balanced and hands the turn to the other mark. */
  lemma PlayAlternates(b: Board, a: Action)
    requires Balanced(b) && Legal(b, a)
    ensures Balanced(Play(b, a))
    ensures Player(Play(b, a)) != Player(b)
  {
    var k := Index(a);
    CountUpdate(b, k, Some(Player(b)), Some(X));
    CountUpdate(b, k, Some(Player(b)), Some(O));
  }

  /** The mark shared by cells p, q and r, if they all hold the same mark. */
  function Line(b: Board, p: nat, q: nat, r: nat): Option<Mark>
    requires p < 9 && q < 9 && r < 9
  {
    if b[p] != None && b[p] == b[q] && b[q] == b[r] then b[p] else None
  }

  /** `m` fills one of the three rows, one of the three columns or one of the two diagonals. */
  predicate Wins(b: Board, m: Mark) {
    || Filled(b, m, 0, 1, 2) || Filled(b, m, 3, 4, 5) || Filled(b, m, 6, 7, 8)
    || Filled(b, m, 0, 3, 6) || Filled(b, m, 1, 4, 7) || Filled(b, m, 2, 5, 8)
    || Filled(b, m, 0, 4, 8) || Filled(b, m, 2, 4, 6)
  }

  /** Cells p, q and r all hold `m`. */
  predicate Filled(b: Board, m: Mark, p: nat, q: nat, r: nat)
    requires p < 9 && q < 9 && r < 9
  {
    b[p] == Some(m) && b[q] == Some(m) && b[r] == Some(m)
  }

  /**
    Columns and rows are tried alternately (column 0, row 0, column 1, ...),
    then the main diagonal, then the anti-diagonal.
   */
  function Winner(b: Board): (r: Option<Mark>)
    ensures r.Some? ==> Wins(b, r.value)
    ensures r.None? ==> !Wins(b, X) && !Wins(b, O)
  {
    var col0 := Line(b, 0, 3, 6);
    var row0 := Line(b, 0, 1, 2);
    var col1 := Line(b, 1, 4, 7);
    var row1 := Line(b, 3, 4, 5);
    var col2 := Line(b, 2, 5, 8);
    var row2 := Line(b, 6, 7, 8);
    var diagonal := Line(b, 0, 4, 8);
    var antiDiagonal := Line(b, 6, 4, 2);
    if col0.Some? then col0
    else if row0.Some? then row0
    else if col1.Some? then col1
    else if row1.Some? then row1
    else if col2.Some? then col2
    else if row2.Some? then row2
    else if diagonal.Some? then diagonal
    else antiDiagonal
  }

  /** The game is over when someone has won or the board is full. */
  predicate Terminal(b: Board) {
    Winner(b).Some? || None !in b
  }

  /** The game is over exactly when someone has won or no move remains. */
  lemma TerminalIffNoActions(b: Board)
    ensures Terminal(b) <==> Winner(b).Some? || Actions(b) == {}
  {
    ActionsCount(b);
    CountZero(b, None);
  }

  /** Score of a finished game from X's point of view. */
  function Utility(b: Board): (r: int)
    ensures r in {-1, 0, 1}
    ensures r == 1 <==> Winner(b) == Some(X)
    ensures r == -1 <==> Winner(b) == Some(O)
  {
    var w := Winner(b);
    if w == Some(X) then 1 else if w == Some(O) then -1 else 0
  }

  lemma NonterminalHasMoves(b: Board)
    requires !Terminal(b)
    ensures |Moves(b)| > 0
  {
    TerminalIffNoActions(b);
    ActionsCount(b);
    DistinctCard(Moves(b));
  }

  function Max(a: int, b: int): int { if a >= b then a else b }

  function Min(a: int, b: int): int { if a <= b then a else b }

  /** Value of `b` when X is to move and both sides play optimally. */
  function MaxValue(b: Board): (v: int)
    ensures -1 <= v <= 1
    decreases Count(b, None), 1
  {
    if Terminal(b) then Utility(b)
    else
      NonterminalHasMoves(b);
      MaxOver(b, Moves(b), -2)
  }

  /** Value of `b` when O is to move and both sides play optimally. */
  function MinValue(b: Board): (v: int)
    ensures -1 <= v <= 1
    decreases Count(b, None), 1
  {
    if Terminal(b) then Utility(b)
    else
      NonterminalHasMoves(b);
      MinOver(b, Moves(b), 2)
  }

  /** Folds `max` over the values of the positions the moves in `ms` lead to. */
  function MaxOver(b: Board, ms: seq<Action>, v: int): (r: int)
    requires forall i :: 0 <= i < |ms| ==> Legal(b, ms[i])
    ensures v <= r
    ensures r == v || r <= 1
    ensures |ms| > 0 ==> -1 <= r
    decreases Count(b, None), 0, |ms|
  {
    if ms == [] then v
    else MaxOver(b, ms[1..], Max(v, MinValue(Play(b, ms[0]))))
  }

  /** Folds `min` over the values of the positions the moves in `ms` lead to. */
  function MinOver(b: Board, ms: seq<Action>, v: int): (r: int)
    requires forall i :: 0 <= i < |ms| ==> Legal(b, ms[i])
    ensures r <= v
    ensures r == v || -1 <= r
    ensures |ms| > 0 ==> r <= 1
    decreases Count(b, None), 0, |ms|
  {
    if ms == [] then v
    else MinOver(b, ms[1..], Min(v, MaxValue(Play(b, ms[0]))))
  }

  /** The folded maximum is at least the value of every listed move. */
  lemma {:induction false} MaxOverIsMaximum(b: Board, ms: seq<Action>, v: int)
    requires forall i :: 0 <= i < |ms| ==> Legal(b, ms[i])
    ensures forall i :: 0 <= i < |ms| ==> MinValue(Play(b, ms[i])) <= MaxOver(b, ms, v)
  {
    if ms != [] {
      MaxOverIsMaximum(b, ms[1..], Max(v, MinValue(Play(b, ms[0]))));
      assert forall i :: 1 <= i < |ms| ==> ms[i] == ms[1..][i - 1];
    }
  }

  /** The folded minimum is at most the value of every listed move. */
  lemma {:induction false} MinOverIsMinimum(b: Board, ms: seq<Action>, v: int)
    requires forall i :: 0 <= i < |ms| ==> Legal(b, ms[i])
    ensures forall i :: 0 <= i < |ms| ==> MinOver(b, ms, v) <= MaxValue(Play(b, ms[i]))
  {
    if ms != [] {
      MinOverIsMinimum(b, ms[1..], Min(v, MaxValue(Play(b, ms[0]))));
      assert forall i :: 1 <= i < |ms| ==> ms[i] == ms[1..][i - 1];
    }
  }

  /** The value of one move is at most the folded maximum. */
  lemma MaxOverAtLeast(b: Board, ms: seq<Action>, v: int, i: nat)
    requires forall k :: 0 <= k < |ms| ==> Legal(b, ms[k])
    requires i < |ms|
    ensures MinValue(Play(b, ms[i])) <= MaxOver(b, ms, v)
  {
    MaxOverIsMaximum(b, ms, v);
  }

  /** The value of one move is at least the folded minimum. */
  lemma MinOverAtMost(b: Board, ms: seq<Action>, v: int, i: nat)
    requires forall k :: 0 <= k < |ms| ==> Legal(b, ms[k])
    requires i < |ms|
    ensures MinOver(b, ms, v) <= MaxValue(Play(b, ms[i]))
  {
    MinOverIsMinimum(b, ms, v);
  }

  /** The folded maximum is its start value or the value of the move `i`. */
  lemma {:induction false} MaxOverAttained(b: Board, ms: seq<Action>, v: int) returns (i: nat)
    requires forall k :: 0 <= k < |ms| ==> Legal(b, ms[k])
    ensures MaxOver(b, ms, v) == v || (i < |ms| && MinValue(Play(b, ms[i])) == MaxOver(b, ms, v))
  {
    i := 0;
    if ms != [] {
      var v' := Max(v, MinValue(Play(b, ms[0])));
      var j := MaxOverAttained(b, ms[1..], v');
      if MaxOver(b, ms[1..], v') != v' {
        i := j + 1;
      }
    }
  }

  /** The folded minimum is its start value or the value of the move `i`. */
  lemma {:induction false} MinOverAttained(b: Board, ms: seq<Action>, v: int) returns (i: nat)
    requires forall k :: 0 <= k < |ms| ==> Legal(b, ms[k])
    ensures MinOver(b, ms, v) == v || (i < |ms| && MaxValue(Play(b, ms[i])) == MinOver(b, ms, v))
  {
    i := 0;
    if ms != [] {
      var v' := Min(v, MaxValue(Play(b, ms[0])));
      var j := MinOverAttained(b, ms[1..], v');
      if MinOver(b, ms[1..], v') != v' {
        i := j + 1;
      }
    }
  }

  /** No move of X's is worth more than X's value. */
  lemma MaxValueBoundsMoves(b: Board)
    requires !Terminal(b)
    ensures forall a :: a in Actions(b) ==> MinValue(Play(b, a)) <= MaxValue(b)
  {
    var ms := Moves(b);
    NonterminalHasMoves(b);
    assert MaxValue(b) == MaxOver(b, ms, -2);
    forall a | a in Actions(b) ensures MinValue(Play(b, a)) <= MaxOver(b, ms, -2) {
      MovesFromComplete(b, 0, a);
      var i :| 0 <= i < |ms| && ms[i] == a;
      MaxOverAtLeast(b, ms, -2, i);
    }
  }

  /** Some move of X's is worth exactly X's value. */
  lemma MaxValueAttained(b: Board)
    requires !Terminal(b)
    ensures exists a :: a in Actions(b) && MinValue(Play(b, a)) == MaxValue(b)
  {
    var ms := Moves(b);
    NonterminalHasMoves(b);
    assert MaxValue(b) == MaxOver(b, ms, -2);
    var i := MaxOverAttained(b, ms, -2);
    assert ms[i] in Actions(b);
  }

  /** No move of O's is worth less than O's value. */
  lemma MinValueBoundsMoves(b: Board)
    requires !Terminal(b)
    ensures forall a :: a in Actions(b) ==> MinValue(b) <= MaxValue(Play(b, a))
  {
    var ms := Moves(b);
    NonterminalHasMoves(b);
    assert MinValue(b) == MinOver(b, ms, 2);
    forall a | a in Actions(b) ensures MinOver(b, ms, 2) <= MaxValue(Play(b, a)) {
      MovesFromComplete(b, 0, a);
      var i :| 0 <= i < |ms| && ms[i] == a;
      MinOverAtMost(b, ms, 2, i);
    }
  }

  /** Some move of O's is worth exactly O's value. */
  lemma MinValueAttained(b: Board)
    requires !Terminal(b)
    ensures exists a :: a in Actions(b) && MaxValue(Play(b, a)) == MinValue(b)
  {
    var ms := Moves(b);
    NonterminalHasMoves(b);
    assert MinValue(b) == MinOver(b, ms, 2);
    var i := MinOverAttained(b, ms, 2);
    assert ms[i] in Actions(b);
  }

  /** X's choice: the first move whose value strictly beats every earlier one. */
  function BestForX(b: Board, ms: seq<Action>, bestValue: int, bestAction: Action): (r: (int, Action))
    requires forall i :: 0 <= i < |ms| ==> Legal(b, ms[i])
    ensures r.0 == MaxOver(b, ms, bestValue)
    ensures r.0 > bestValue ==> r.1 in ms && MinValue(Play(b, r.1)) == r.0
    ensures r.0 == bestValue ==> r.1 == bestAction
  {
    if ms == [] then (bestValue, bestAction)
    else
      var v := MinValue(Play(b, ms[0]));
      if v > bestValue then BestForX(b, ms[1..], v, ms[0])
      else BestForX(b, ms[1..], bestValue, bestAction)
  }

  /** O's choice: the first move whose value is strictly below every earlier one. */
  function BestForO(b: Board, ms: seq<Action>, bestValue: int, bestAction: Action): (r: (int, Action))
    requires forall i :: 0 <= i < |ms| ==> Legal(b, ms[i])
    ensures r.0 == MinOver(b, ms, bestValue)
    ensures r.0 < bestValue ==> r.1 in ms && MaxValue(Play(b, r.1)) == r.0
    ensures r.0 == bestValue ==> r.1 == bestAction
  {
    if ms == [] then (bestValue, bestAction)
    else
      var v := MaxValue(Play(b, ms[0]));
      if v < bestValue then BestForO(b, ms[1..], v, ms[0])
      else BestForO(b, ms[1..], bestValue, bestAction)
  }

  /** The move for the player to move, or `None` on a finished board. */
  function Minimax(b: Board): (r: Option<Action>)
    ensures r.None? <==> Terminal(b)
    ensures r.Some? ==> Legal(b, r.value)
  {
    if Terminal(b) then None
    else
      NonterminalHasMoves(b);
      if Player(b) == X then Some(BestForX(b, Moves(b), -2, (0, 0)).1)
      else Some(BestForO(b, Moves(b), 2, (0, 0)).1)
  }

  /** The chosen move achieves the value of the position for the player to move. */
  lemma MinimaxIsOptimal(b: Board)
    requires !Terminal(b)
    ensures Player(b) == X ==> MinValue(Play(b, Minimax(b).value)) == MaxValue(b)
    ensures Player(b) == O ==> MaxValue(Play(b, Minimax(b).value)) == MinValue(b)
  {
    NonterminalHasMoves(b);
  }
}
