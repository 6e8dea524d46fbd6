/** The rules of the game as pure functions on board values: the grid, legality of a
    move, the effect of a move, the static evaluation, piece counting and the
    enumeration of every legal move of one side.  The class `GameBoards.GameBoard`
    runs these rules in place; here they are values so that the search can be
    specified over them. */
module BoardRules {
  import opened Options

  /** A square holds nothing (`"---"`), a player man (`'B'`) or a computer man (`'C'`). */
  datatype Cell = Empty | B | C

  /** The 8x8 grid, indexed `[row][column]`. */
  type Grid = m: seq<seq<Cell>> | |m| == 8 && forall x | 0 <= x < 8 :: |m[x]| == 8
    witness seq(8, _ => seq(8, _ => Empty))

  /** A move as the program passes it around: `(old_x, old_y, new_x, new_y)`, rows first. */
  datatype Move = Move(oldX: int, oldY: int, newX: int, newY: int)

  /** Every field of a game board, as one value. */
  datatype Board = Board(
    matrix: Grid,
    playerTurn: bool,
    computerPieces: int,
    playerPieces: int,
    selectedPiece: Option<(int, int)>,
    playerPoints: int,
    computerPoints: int)

  predicate OnBoard(x: int, y: int) {
    0 <= x < 8 && 0 <= y < 8
  }

  function Abs(n: int): nat {
    if n < 0 then -n else n
  }

  /** The grid with one square overwritten; every other square is kept. */
  function SetCell(m: Grid, x: int, y: int, v: Cell): (r: Grid)
    requires OnBoard(x, y)
    ensures forall p, q | OnBoard(p, q) :: r[p][q] == if p == x && q == y then v else m[p][q]
  {
    m[x := m[x][y := v]]
  }

  /** The man a capture must jump over: `'C'` for a `'B'` source, `'B'` for any other source. */
  function Opponent(c: Cell): Cell {
    if c == B then C else B
  }

  // ---------------------------------------------------------------------------
  // Legality and the effect of one move
  // ---------------------------------------------------------------------------

  /** `is_valid_move`: the destination is on the board; a `'B'` man moves towards
      row 0 and a `'C'` man towards row 7; the move is one diagonal step onto an empty
      square, or a two-square diagonal jump onto an empty square over an opposing man.
      The source square is not required to hold a man. */
  function IsValidMove(m: Grid, oldX: int, oldY: int, newX: int, newY: int): bool
    requires OnBoard(oldX, oldY)
  {
    if OnBoard(newX, newY) then
      var dx, dy := newX - oldX, newY - oldY;
      if m[oldX][oldY] == B && dx >= 0 then false
      else if m[oldX][oldY] == C && dx <= 0 then false
      else if Abs(dx) == 1 && Abs(dy) == 1 && m[newX][newY] == Empty then true
      else if Abs(dx) == 2 && Abs(dy) == 2 then
        m[newX][newY] == Empty && m[(oldX + newX) / 2][(oldY + newY) / 2] == Opponent(m[oldX][oldY])
      else false
    else false
  }

  predicate IsJump(mv: Move) {
    Abs(mv.newX - mv.oldX) == 2 && Abs(mv.newY - mv.oldY) == 2
  }

  predicate IsStep(mv: Move) {
    Abs(mv.newX - mv.oldX) == 1 && Abs(mv.newY - mv.oldY) == 1
  }

  /** A move whose source is on the board and that `IsValidMove` accepts. */
  predicate Legal(m: Grid, mv: Move) {
    OnBoard(mv.oldX, mv.oldY) && IsValidMove(m, mv.oldX, mv.oldY, mv.newX, mv.newY)
  }

  /** The board after `move_piece` has carried out a legal move: the man is moved, a
      jumped man is removed and credited to the side whose turn it was, and the turn
      passes. */
  function ApplyMove(b: Board, mv: Move): Board
    requires Legal(b.matrix, mv)
  {
    var moved := SetCell(SetCell(b.matrix, mv.newX, mv.newY, b.matrix[mv.oldX][mv.oldY]), mv.oldX, mv.oldY, Empty);
    if IsJump(mv) then
      var cleared := SetCell(moved, (mv.oldX + mv.newX) / 2, (mv.oldY + mv.newY) / 2, Empty);
      if b.playerTurn then
        b.(matrix := cleared, computerPieces := b.computerPieces - 1,
           playerPoints := b.playerPoints + 1, playerTurn := !b.playerTurn)
      else
        b.(matrix := cleared, playerPieces := b.playerPieces - 1,
           computerPoints := b.computerPoints + 1, playerTurn := !b.playerTurn)
    else
      b.(matrix := moved, playerTurn := !b.playerTurn)
  }

  /** `check_game_over`: one side's counter has reached zero. */
  predicate CheckGameOver(b: Board) {
    b.playerPieces == 0 || b.computerPieces == 0
  }

  // ---------------------------------------------------------------------------
  // Sums over the grid: evaluation and piece counts
  // ---------------------------------------------------------------------------

  /** The four per-square weights the grid sums use: the positional scores of
      `evaluate_board` and the man counts of `count_pieces`. */
  datatype Weight = PlayerPosition | ComputerPosition | PlayerCount | ComputerCount

  /** What a square `(x, y)` holding `c` adds to a sum under weight `w`. */
  function Weigh(w: Weight, x: int, y: int, c: Cell): int {
    match w
    case PlayerPosition => PlayerScore(x, y, c)
    case ComputerPosition => ComputerScore(x, y, c)
    case PlayerCount => PlayerMen(x, y, c)
    case ComputerCount => ComputerMen(x, y, c)
  }

  /** The sum of the weights of the squares of row `x`. */
  function RowSum(m: Grid, w: Weight, x: int): int
    requires 0 <= x < 8
  {
    Weigh(w, x, 0, m[x][0]) + Weigh(w, x, 1, m[x][1]) + Weigh(w, x, 2, m[x][2]) + Weigh(w, x, 3, m[x][3]) +
    Weigh(w, x, 4, m[x][4]) + Weigh(w, x, 5, m[x][5]) + Weigh(w, x, 6, m[x][6]) + Weigh(w, x, 7, m[x][7])
  }

  /** The sum of the weights of the squares of rows `0` to `n - 1`. */
  function SumRows(m: Grid, w: Weight, n: nat): int
    requires n <= 8
  {
    if n == 0 then 0 else SumRows(m, w, n - 1) + RowSum(m, w, n - 1)
  }

  /** The sum of the weights of all 64 squares. */
  function GridSum(m: Grid, w: Weight): int {
    SumRows(m, w, 8)
  }

  /** What a `'B'` man on `(x, y)` adds to the player's subtotal: `7 - x` on an even
      column, `x` on an odd one. */
  function PlayerScore(x: int, y: int, c: Cell): int {
    if c == B then (if y % 2 == 0 then 7 - x else x) else 0
  }

  /** What a `'C'` man on `(x, y)` adds to the computer's subtotal: `x` on an even
      column, `7 - x` on an odd one. */
  function ComputerScore(x: int, y: int, c: Cell): int {
    if c == C then (if y % 2 == 0 then x else 7 - x) else 0
  }

  function PlayerMen(x: int, y: int, c: Cell): int {
    if c == B then 1 else 0
  }

  function ComputerMen(x: int, y: int, c: Cell): int {
    if c == C then 1 else 0
  }

  /** `evaluate_board`: the computer's subtotal minus the player's. */
  function Evaluate(m: Grid): int {
    GridSum(m, ComputerPosition) - GridSum(m, PlayerPosition)
  }

  /** `count_pieces`: the numbers of `'B'` and of `'C'` squares, in that order. */
  function CountPieces(m: Grid): (int, int) {
    (GridSum(m, PlayerCount), GridSum(m, ComputerCount))
  }

  /** The counters agree with the men on the grid. */
  predicate CountersAgree(b: Board) {
    CountPieces(b.matrix) == (b.playerPieces, b.computerPieces)
  }

  // ---------------------------------------------------------------------------
  // The starting position
  // ---------------------------------------------------------------------------

  function EmptyGrid(): Grid {
    seq(8, _ => seq(8, _ => Empty))
  }

  /** `position_computer` / `position_player`: `piece` on every dark square of rows
      `lo` to `hi - 1`, the other squares as in `m`. */
  function PlaceMen(m: Grid, lo: int, hi: int, piece: Cell): Grid {
    seq(8, x requires 0 <= x < 8 =>
      seq(8, y requires 0 <= y < 8 => if lo <= x < hi && (x + y) % 2 == 1 then piece else m[x][y]))
  }

  /** The starting layout: computer men on the dark squares (`(x + y)` odd) of rows
      0 to 2, player men on those of rows 5 to 7. */
  function InitialGrid(): Grid {
    seq(8, x requires 0 <= x < 8 =>
      seq(8, y requires 0 <= y < 8 =>
        if (x + y) % 2 == 0 then Empty else if x <= 2 then C else if x >= 5 then B else Empty))
  }

  /** The board `__init__` builds. */
  function InitialBoard(): Board {
    Board(InitialGrid(), true, 12, 12, None, 0, 0)
  }
}
