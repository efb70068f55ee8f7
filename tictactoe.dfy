/** Tic-tac-toe rules and minimax (tictactoe/tictactoe.py).
    A board is three rows of three cells; `None` is the empty cell. Every
    function builds a new board value, so the input board never changes. */
module TicTacToe {
  import opened Wrappers

  datatype Mark = X | O

  type Cell = Option<Mark>
  type Board = seq<seq<Cell>>
  type Action = (int, int)

  /** The shape every board of the game has. */
  predicate IsBoard(b: Board) {
    |b| == 3 && forall i :: 0 <= i < 3 ==> |b[i]| == 3
  }

  predicate OnBoard(a: Action) {
    0 <= a.0 < 3 && 0 <= a.1 < 3
  }

  function InitialState(): (b: Board)
    ensures IsBoard(b)
    ensures forall a :: OnBoard(a) ==> b[a.0][a.1] == None
  {
    [[None, None, None], [None, None, None], [None, None, None]]
  }

  // ---------------------------------------------------------------- counting

  /** Number of cells of `row` that hold `c`. */
  function CountRow(row: seq<Cell>, c: Cell): nat {
    if row == [] then 0 else (if row[0] == c then 1 else 0) + CountRow(row[1..], c)
  }

  /** Number of cells of `b` that hold `c` (the double loop of `player`). */
  function Count(b: Board, c: Cell): nat {
    if b == [] then 0 else CountRow(b[0], c) + Count(b[1..], c)
  }

  lemma {:induction false} CountRowUpdate(row: seq<Cell>, j: nat, c: Cell, d: Cell)
    requires j < |row|
    ensures CountRow(row[j := d], c)
            == CountRow(row, c) - (if row[j] == c then 1 else 0) + (if d == c then 1 else 0)
  {
    if j > 0 {
      assert row[j := d][1..] == row[1..][j - 1 := d];
      CountRowUpdate(row[1..], j - 1, c, d);
    } else {
      assert row[j := d][1..] == row[1..];
    }
  }

  lemma {:induction false} CountUpdate(b: Board, i: nat, j: nat, c: Cell, d: Cell)
    requires i < |b| && j < |b[i]|
    ensures Count(b[i := b[i][j := d]], c)
            == Count(b, c) - (if b[i][j] == c then 1 else 0) + (if d == c then 1 else 0)
  {
    if i > 0 {
      assert b[i := b[i][j := d]][1..] == b[1..][i - 1 := b[i][j := d]];
      CountUpdate(b[1..], i - 1, j, c, d);
    } else {
      assert b[i := b[i][j := d]][1..] == b[1..];
      CountRowUpdate(b[0], j, c, d);
    }
  }

  lemma {:induction false} CountRowZero(row: seq<Cell>, c: Cell)
    ensures CountRow(row, c) == 0 <==> forall j :: 0 <= j < |row| ==> row[j] != c
  {
    if row != [] {
      CountRowZero(row[1..], c);
      assert forall j :: 1 <= j < |row| ==> row[j] == row[1..][j - 1];
    }
  }

  lemma {:induction false} CountZero(b: Board, c: Cell)
    ensures Count(b, c) == 0 <==>
            forall i, j :: 0 <= i < |b| && 0 <= j < |b[i]| ==> b[i][j] != c
  {
    if b != [] {
      CountRowZero(b[0], c);
      CountZero(b[1..], c);
      assert forall i :: 1 <= i < |b| ==> b[i] == b[1..][i - 1];
    }
  }

  // ------------------------------------------------------------------ player

  /** Whose turn it is: X moves whenever X has not placed more marks than O. */
  function Player(b: Board): (p: Mark)
    ensures p == X <==> Count(b, Some(X)) <= Count(b, Some(O))
  {
    if Count(b, Some(X)) <= Count(b, Some(O)) then X else O
  }

  lemma PlayerOfInitialState()
    ensures Player(InitialState()) == X
  {
    CountZero(InitialState(), Some(X));
    CountZero(InitialState(), Some(O));
  }

  /** A board reachable by alternating moves from the empty board: X has
      placed as many marks as O, or one more. */
  predicate Alternating(b: Board) {
    Count(b, Some(X)) == Count(b, Some(O)) || Count(b, Some(X)) == Count(b, Some(O)) + 1
  }

  // ----------------------------------------------------------------- actions

  function CellIndex(k: nat): Action {
    (k / 3, k % 3)
  }

  /** The row-major position of a cell. */
  function Position(a: Action): int {
    3 * a.0 + a.1
  }

  /** `CellIndex` and `Position` are inverse on the board. */
  lemma CellIndexPosition(k: nat)
    requires k < 9
    ensures OnBoard(CellIndex(k)) && Position(CellIndex(k)) == k
    ensures forall c :: OnBoard(c) && Position(c) == k ==> c == CellIndex(k)
  {
  }

  /** The empty cells at row-major positions k..8, in row-major order. */
  function ActionsFrom(b: Board, k: nat): (r: seq<Action>)
    requires IsBoard(b) && k <= 9
    decreases 9 - k
    ensures forall n :: 0 <= n < |r| ==> OnBoard(r[n]) && b[r[n].0][r[n].1] == None && Position(r[n]) >= k
    ensures forall n, m :: 0 <= n < m < |r| ==> Position(r[n]) < Position(r[m])
    ensures forall a :: OnBoard(a) && b[a.0][a.1] == None && Position(a) >= k ==> a in r
  {
    if k == 9 then []
    else
      var a := CellIndex(k);
      CellIndexPosition(k);
      var rest := ActionsFrom(b, k + 1);
      if b[a.0][a.1] == None then [a] + rest else rest
  }

  /** The empty cells in row-major order: the order in which the model's
      `max_value` and `min_value` try the actions. */
  function ActionList(b: Board): (r: seq<Action>)
    requires IsBoard(b)
    ensures forall a :: a in r <==> OnBoard(a) && b[a.0][a.1] == None
    ensures forall n, m :: 0 <= n < m < |r| ==> r[n] != r[m]
  {
    ActionsFrom(b, 0)
  }

  /** `actions`: the set of all empty cells. */
  function Actions(b: Board): (r: set<Action>)
    requires IsBoard(b)
    ensures forall a :: a in r <==> OnBoard(a) && b[a.0][a.1] == None
  {
    set a | a in ActionList(b)
  }

  // ------------------------------------------------------------------ result

  /** The board after a move that is known to be legal. */
  function Play(b: Board, a: Action): (r: Board)
    requires IsBoard(b) && a in Actions(b)
    ensures IsBoard(r)
    ensures r[a.0][a.1] == Some(Player(b))
    ensures forall c :: OnBoard(c) && c != a ==> r[c.0][c.1] == b[c.0][c.1]
    ensures Count(r, None) == Count(b, None) - 1
  {
    CountUpdate(b, a.0, a.1, None, Some(Player(b)));
    b[a.0 := b[a.0][a.1 := Some(Player(b))]]
  }

  /** `result`: the move fails (the source raises) when the cell is off the
      board or already taken; otherwise the player to move fills it. */
  function Result(b: Board, a: Action): (r: Option<Board>)
    requires IsBoard(b)
    ensures r.None? <==> !OnBoard(a) || b[a.0][a.1] != None
    ensures r.Some? ==> IsBoard(r.value) && r.value[a.0][a.1] == Some(Player(b))
    ensures r.Some? ==> forall c :: OnBoard(c) && c != a ==> r.value[c.0][c.1] == b[c.0][c.1]
  {
    if !(0 <= a.0 < 3) || !(0 <= a.1 < 3) then None
    else if a !in Actions(b) then None
    else Some(Play(b, a))
  }

  /** Each legal move removes exactly that cell from the available actions. */
  lemma ResultActions(b: Board, a: Action)
    requires IsBoard(b) && a in Actions(b)
    ensures Result(b, a) == Some(Play(b, a))
    ensures Actions(Play(b, a)) == Actions(b) - {a}
  {
    var next := Play(b, a);
    forall c | OnBoard(c)
      ensures c in Actions(next) <==> c in Actions(b) - {a}
    {
      if c != a {
        assert next[c.0][c.1] == b[c.0][c.1];
      }
    }
  }

  /** A legal move on an alternating board passes the turn to the other player
      and keeps the board alternating. */
  lemma {:induction false} PlayAlternates(b: Board, a: Action)
    requires IsBoard(b) && Alternating(b) && a in Actions(b)
    ensures Alternating(Play(b, a))
    ensures Player(Play(b, a)) != Player(b)
  {
    var p := Player(b);
    CountUpdate(b, a.0, a.1, Some(X), Some(p));
    CountUpdate(b, a.0, a.1, Some(O), Some(p));
  }

  // ------------------------------------------------------------------ winner

  /** The eight lines in the order `winner` checks them: rows, columns,
      the main diagonal, the other diagonal. */
  function Lines(b: Board): (ls: seq<seq<Cell>>)
    requires IsBoard(b)
    ensures |ls| == 8 && forall k :: 0 <= k < 8 ==> |ls[k]| == 3
  {
    [b[0], b[1], b[2],
     [b[0][0], b[1][0], b[2][0]], [b[0][1], b[1][1], b[2][1]], [b[0][2], b[1][2], b[2][2]],
     [b[0][0], b[1][1], b[2][2]],
     [b[0][2], b[1][1], b[2][0]]]
  }

  /** `p` holds three cells of one line. */
  predicate Wins(b: Board, p: Mark)
    requires IsBoard(b)
  {
    exists k :: 0 <= k < 8 && Lines(b)[k] == [Some(p), Some(p), Some(p)]
  }

  /** The mark of the first complete line among `ls[k..]`. */
  function FirstComplete(ls: seq<seq<Cell>>, k: nat): (r: Cell)
    requires k <= |ls| && forall n :: 0 <= n < |ls| ==> |ls[n]| == 3
    decreases |ls| - k
    ensures r.Some? ==> exists n :: k <= n < |ls| && ls[n] == [r, r, r]
    ensures r.None? <==> forall n, p :: k <= n < |ls| ==> ls[n] != [Some(p), Some(p), Some(p)]
  {
    if k == |ls| then None
    else
      var l := ls[k];
      if l[0] != None && l[1] == l[0] && l[2] == l[0] then
        assert l == [l[0], l[0], l[0]];
        l[0]
      else FirstComplete(ls, k + 1)
  }

  /** `winner`: the mark of the first complete line, or `None` when no line
      is complete. */
  function Winner(b: Board): (r: Option<Mark>)
    requires IsBoard(b)
    ensures r.Some? ==> Wins(b, r.value)
    ensures r.None? ==> !Wins(b, X) && !Wins(b, O)
  {
    var r := FirstComplete(Lines(b), 0);
    assert r.None? ==> forall n :: 0 <= n < 8 ==>
      Lines(b)[n] != [Some(X), Some(X), Some(X)] && Lines(b)[n] != [Some(O), Some(O), Some(O)];
    r
  }

  /** `terminal`: someone has won, or no cell is empty. */
  function Terminal(b: Board): (r: bool)
    requires IsBoard(b)
    ensures r <==> Winner(b).Some? || Actions(b) == {}
  {
    NoActionsFull(b);
    Winner(b) != None || Count(b, None) == 0
  }

  /** No empty cell is left exactly when no action is left. */
  lemma NoActionsFull(b: Board)
    requires IsBoard(b)
    ensures Actions(b) == {} <==> Count(b, None) == 0
  {
    CountZero(b, None);
    if Actions(b) != {} {
      var a :| a in Actions(b);
      assert b[a.0][a.1] == None;
    } else {
      forall i, j | 0 <= i < |b| && 0 <= j < |b[i]| ensures b[i][j] != None {
        assert (i, j) !in Actions(b);
      }
    }
  }

  /** `utility`: 1 when X has won, -1 when O has won, 0 otherwise. */
  function Utility(b: Board): (r: int)
    requires IsBoard(b)
    ensures r == 1 <==> Winner(b) == Some(X)
    ensures r == -1 <==> Winner(b) == Some(O)
    ensures r == 0 <==> Winner(b).None?
  {
    match Winner(b)
    case Some(O) => -1
    case Some(X) => 1
    case None => 0
  }

  /** The value that stands in for minus infinity: below every utility. */
  const NegInf: int := -2
  /** The value that stands in for plus infinity: above every utility. */
  const PosInf: int := 2

  /** `max_value`: on a finished board its utility and no move; otherwise the
      largest value `min_value` gives any successor, and a move reaching it. */
  function MaxValue(b: Board): (r: (int, Option<Action>))
    requires IsBoard(b)
    decreases Count(b, None), 2
    ensures -1 <= r.0 <= 1
    ensures Terminal(b) ==> r == (Utility(b), None)
    ensures !Terminal(b) ==> r.1.Some? && r.1.value in Actions(b) && MinAfter(b, r.1.value) == r.0
    ensures !Terminal(b) ==> forall a :: a in Actions(b) ==> MinAfter(b, a) <= r.0
  {
    if Terminal(b) then (Utility(b), None)
    else
      var acts := ActionList(b);
      assert acts[0] in Actions(b);
      MaxLoop(b, acts, NegInf, None)
  }

  /** The value `min_value` gives the board after the move `a`. */
  function MinAfter(b: Board, a: Action): (v: int)
    requires IsBoard(b) && a in Actions(b)
    decreases Count(b, None), 0
    ensures -1 <= v <= 1
  {
    MinValue(Play(b, a)).0
  }

  /** The loop of `max_value` over the actions still to try, with the best
      value `v` and move found so far; it stops early on a value of 1. */
  function MaxLoop(b: Board, acts: seq<Action>, v: int, move: Option<Action>): (r: (int, Option<Action>))
    requires IsBoard(b) && forall a :: a in acts ==> a in Actions(b)
    requires NegInf <= v <= 1
    decreases Count(b, None), 1, |acts|
    ensures v <= r.0 <= 1
    ensures r.0 == v ==> r.1 == move
    ensures r.0 != v ==> r.1.Some? && r.1.value in acts && MinAfter(b, r.1.value) == r.0
    ensures forall a :: a in acts ==> MinAfter(b, a) <= r.0
  {
    if acts == [] then (v, move)
    else
      var value := MinAfter(b, acts[0]);
      if value > v then
        if value == 1 then (value, Some(acts[0]))
        else MaxLoop(b, acts[1..], value, Some(acts[0]))
      else MaxLoop(b, acts[1..], v, move)
  }

  /** `min_value`: the dual of `max_value`. */
  function MinValue(b: Board): (r: (int, Option<Action>))
    requires IsBoard(b)
    decreases Count(b, None), 2
    ensures -1 <= r.0 <= 1
    ensures Terminal(b) ==> r == (Utility(b), None)
    ensures !Terminal(b) ==> r.1.Some? && r.1.value in Actions(b) && MaxAfter(b, r.1.value) == r.0
    ensures !Terminal(b) ==> forall a :: a in Actions(b) ==> r.0 <= MaxAfter(b, a)
  {
    if Terminal(b) then (Utility(b), None)
    else
      var acts := ActionList(b);
      assert acts[0] in Actions(b);
      MinLoop(b, acts, PosInf, None)
  }

  /** The value `max_value` gives the board after the move `a`. */
  function MaxAfter(b: Board, a: Action): (v: int)
    requires IsBoard(b) && a in Actions(b)
    decreases Count(b, None), 0
    ensures -1 <= v <= 1
  {
    MaxValue(Play(b, a)).0
  }

  /** The loop of `min_value`; it stops early on a value of -1. */
  function MinLoop(b: Board, acts: seq<Action>, v: int, move: Option<Action>): (r: (int, Option<Action>))
    requires IsBoard(b) && forall a :: a in acts ==> a in Actions(b)
    requires -1 <= v <= PosInf
    decreases Count(b, None), 1, |acts|
    ensures -1 <= r.0 <= v
    ensures r.0 == v ==> r.1 == move
    ensures r.0 != v ==> r.1.Some? && r.1.value in acts && MaxAfter(b, r.1.value) == r.0
    ensures forall a :: a in acts ==> r.0 <= MaxAfter(b, a)
  {
    if acts == [] then (v, move)
    else
      var value := MaxAfter(b, acts[0]);
      if value < v then
        if value == -1 then (value, Some(acts[0]))
        else MinLoop(b, acts[1..], value, Some(acts[0]))
      else MinLoop(b, acts[1..], v, move)
  }

  /** `minimax`: no move on a finished board; otherwise an available move that
      is optimal for the player to move. */
  function Minimax(b: Board): (r: Option<Action>)
    requires IsBoard(b)
    ensures r.None? <==> Terminal(b)
    ensures r.Some? ==> r.value in Actions(b)
    ensures r.Some? && Player(b) == X ==>
              MinAfter(b, r.value) == MaxValue(b).0 && forall a :: a in Actions(b) ==> MinAfter(b, a) <= MaxValue(b).0
    ensures r.Some? && Player(b) == O ==>
              MaxAfter(b, r.value) == MinValue(b).0 && forall a :: a in Actions(b) ==> MinValue(b).0 <= MaxAfter(b, a)
  {
    if Terminal(b) then None
    else if Player(b) == X then MaxValue(b).1
    else MinValue(b).1
  }
}
