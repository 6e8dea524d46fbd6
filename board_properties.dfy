/** What the rules promise about one move, the counters and the starting position. */
module BoardProperties {
  import opened Options
  import opened BoardRules

  /** `is_valid_move` in one formula: the destination is on the board, the man moves
      forward for its colour, the destination is empty, and the move is a diagonal
      step or a diagonal jump over an opposing man.  Both directions hold. */
  lemma IsValidMoveIff(m: Grid, oldX: int, oldY: int, newX: int, newY: int)
    requires OnBoard(oldX, oldY)
    ensures IsValidMove(m, oldX, oldY, newX, newY) <==>
      var dx, dy := newX - oldX, newY - oldY;
      && OnBoard(newX, newY)
      && (m[oldX][oldY] == B ==> dx < 0)
      && (m[oldX][oldY] == C ==> dx > 0)
      && m[newX][newY] == Empty
      && ((Abs(dx) == 1 && Abs(dy) == 1) ||
          (Abs(dx) == 2 && Abs(dy) == 2 && m[oldX + dx / 2][oldY + dy / 2] == Opponent(m[oldX][oldY])))
  {
  }

  /** A legal move is a step or a jump, and its midpoint (for a jump) is a third
      square, distinct from the source and the destination. */
  lemma LegalMoveShape(m: Grid, mv: Move)
    requires Legal(m, mv)
    ensures OnBoard(mv.newX, mv.newY) && (IsStep(mv) || IsJump(mv))
    ensures IsJump(mv) ==>
      var midX, midY := (mv.oldX + mv.newX) / 2, (mv.oldY + mv.newY) / 2;
      OnBoard(midX, midY) && (midX, midY) != (mv.oldX, mv.oldY) && (midX, midY) != (mv.newX, mv.newY)
  {
  }

  /** `move_piece` on a legal move, square by square and field by field. */
  lemma ApplyMoveEffect(b: Board, mv: Move)
    requires Legal(b.matrix, mv)
    ensures var r := ApplyMove(b, mv);
      var midX, midY := (mv.oldX + mv.newX) / 2, (mv.oldY + mv.newY) / 2;
      && r.matrix[mv.newX][mv.newY] == b.matrix[mv.oldX][mv.oldY]
      && r.matrix[mv.oldX][mv.oldY] == Empty
      && (IsJump(mv) ==> r.matrix[midX][midY] == Empty)
      && (forall p, q | OnBoard(p, q) && (p, q) != (mv.newX, mv.newY) && (p, q) != (mv.oldX, mv.oldY) &&
            (IsJump(mv) ==> (p, q) != (midX, midY)) :: r.matrix[p][q] == b.matrix[p][q])
      && r.playerTurn == !b.playerTurn
      && r.selectedPiece == b.selectedPiece
  {
    LegalMoveShape(b.matrix, mv);
  }

  /** Capture credit follows the turn before the move; a step changes no counter. */
  lemma ApplyMoveCounters(b: Board, mv: Move)
    requires Legal(b.matrix, mv)
    ensures var r := ApplyMove(b, mv);
      && (IsJump(mv) && b.playerTurn ==>
            r.computerPieces == b.computerPieces - 1 && r.playerPoints == b.playerPoints + 1 &&
            r.playerPieces == b.playerPieces && r.computerPoints == b.computerPoints)
      && (IsJump(mv) && !b.playerTurn ==>
            r.playerPieces == b.playerPieces - 1 && r.computerPoints == b.computerPoints + 1 &&
            r.computerPieces == b.computerPieces && r.playerPoints == b.playerPoints)
      && (!IsJump(mv) ==>
            r.playerPieces == b.playerPieces && r.computerPieces == b.computerPieces &&
            r.playerPoints == b.playerPoints && r.computerPoints == b.computerPoints)
  {
  }

  /** Overwriting one square changes the sum over rows `0` to `n - 1` by that
      square's term only, and only when its row is among them. */
  lemma {:induction false} SumRowsSetCell(m: Grid, w: Weight, n: nat, x: int, y: int, v: Cell)
    requires n <= 8 && OnBoard(x, y)
    ensures SumRows(SetCell(m, x, y, v), w, n) ==
            SumRows(m, w, n) + (if x < n then Weigh(w, x, y, v) - Weigh(w, x, y, m[x][y]) else 0)
  {
    if n > 0 {
      var m' := SetCell(m, x, y, v);
      SumRowsSetCell(m, w, n - 1, x, y, v);
      if n - 1 != x {
        assert m'[n - 1] == m[n - 1];
      } else {
        RowSumSetCell(m, w, x, y, v);
      }
    }
  }

  /** Overwriting one square changes the sum over its row by that square's term. */
  lemma RowSumSetCell(m: Grid, w: Weight, x: int, y: int, v: Cell)
    requires OnBoard(x, y)
    ensures RowSum(SetCell(m, x, y, v), w, x) == RowSum(m, w, x) - Weigh(w, x, y, m[x][y]) + Weigh(w, x, y, v)
  {
    var m' := SetCell(m, x, y, v);
    assert m'[x] == m[x][y := v];
  }

  lemma GridSumSetCell(m: Grid, w: Weight, x: int, y: int, v: Cell)
    requires OnBoard(x, y)
    ensures GridSum(SetCell(m, x, y, v), w) == GridSum(m, w) - Weigh(w, x, y, m[x][y]) + Weigh(w, x, y, v)
  {
    SumRowsSetCell(m, w, 8, x, y, v);
  }

  /** When the man moved belongs to the side whose turn it is, `move_piece` keeps the
      counters equal to what `count_pieces` finds on the grid. */
  lemma ApplyMoveKeepsCounters(b: Board, mv: Move)
    requires Legal(b.matrix, mv) && CountersAgree(b)
    requires b.matrix[mv.oldX][mv.oldY] == (if b.playerTurn then B else C)
    ensures CountersAgree(ApplyMove(b, mv))
  {
    ApplyMoveMen(b, mv, PlayerCount, B);
    ApplyMoveMen(b, mv, ComputerCount, C);
  }

  /** A move keeps the number of men of one colour, except that a jump over such a
      man removes it. */
  lemma ApplyMoveMen(b: Board, mv: Move, w: Weight, piece: Cell)
    requires Legal(b.matrix, mv)
    requires (w == PlayerCount && piece == B) || (w == ComputerCount && piece == C)
    ensures var midX, midY := (mv.oldX + mv.newX) / 2, (mv.oldY + mv.newY) / 2;
      GridSum(ApplyMove(b, mv).matrix, w) ==
      GridSum(b.matrix, w) - (if IsJump(mv) && b.matrix[midX][midY] == piece then 1 else 0)
  {
    LegalMoveShape(b.matrix, mv);
    var src := b.matrix[mv.oldX][mv.oldY];
    var m1 := SetCell(b.matrix, mv.newX, mv.newY, src);
    var m2 := SetCell(m1, mv.oldX, mv.oldY, Empty);
    GridSumSetCell(b.matrix, w, mv.newX, mv.newY, src);
    GridSumSetCell(m1, w, mv.oldX, mv.oldY, Empty);
    assert GridSum(m2, w) == GridSum(b.matrix, w) by {
      assert Weigh(w, mv.newX, mv.newY, src) == Weigh(w, mv.oldX, mv.oldY, src);
      assert Weigh(w, mv.newX, mv.newY, Empty) == 0 && Weigh(w, mv.oldX, mv.oldY, Empty) == 0;
    }
    if IsJump(mv) {
      var midX, midY := (mv.oldX + mv.newX) / 2, (mv.oldY + mv.newY) / 2;
      GridSumSetCell(m2, w, midX, midY, Empty);
      assert m2[midX][midY] == b.matrix[midX][midY];
      assert Weigh(w, midX, midY, Empty) == 0;
      assert ApplyMove(b, mv).matrix == SetCell(m2, midX, midY, Empty);
    } else {
      assert ApplyMove(b, mv).matrix == m2;
    }
  }

  /** Every man adds between 0 and 7 to its side's subtotal, so over rows `0` to
      `n - 1` each subtotal lies between 0 and seven times the number of men. */
  lemma {:induction false} SumRowsWeightBounds(m: Grid, n: nat)
    requires n <= 8
    ensures 0 <= SumRows(m, PlayerPosition, n) <= 7 * SumRows(m, PlayerCount, n)
    ensures 0 <= SumRows(m, ComputerPosition, n) <= 7 * SumRows(m, ComputerCount, n)
  {
    if n > 0 {
      SumRowsWeightBounds(m, n - 1);
      PlayerRowBounds(m, n - 1);
      ComputerRowBounds(m, n - 1);
    }
  }

  lemma PlayerRowBounds(m: Grid, x: int)
    requires 0 <= x < 8
    ensures 0 <= RowSum(m, PlayerPosition, x) <= 7 * RowSum(m, PlayerCount, x)
  {
  }

  lemma ComputerRowBounds(m: Grid, x: int)
    requires 0 <= x < 8
    ensures 0 <= RowSum(m, ComputerPosition, x) <= 7 * RowSum(m, ComputerCount, x)
  {
  }

  /** The static evaluation lies between minus seven per player man and seven per
      computer man. */
  lemma EvaluateBounds(m: Grid)
    ensures 0 <= GridSum(m, PlayerPosition) <= 7 * CountPieces(m).0
    ensures 0 <= GridSum(m, ComputerPosition) <= 7 * CountPieces(m).1
    ensures -7 * CountPieces(m).0 <= Evaluate(m) <= 7 * CountPieces(m).1
  {
    SumRowsWeightBounds(m, 8);
  }

  /** `position_computer` followed by `position_player` on an empty grid gives the
      starting layout. */
  lemma PlaceMenGivesInitialGrid()
    ensures PlaceMen(PlaceMen(EmptyGrid(), 0, 3, C), 5, 8, B) == InitialGrid()
  {
    var g := PlaceMen(PlaceMen(EmptyGrid(), 0, 3, C), 5, 8, B);
    forall x | 0 <= x < 8
      ensures g[x] == InitialGrid()[x]
    {
    }
  }

  /** The starting board has twelve men a side and counters that agree with the
      grid, no points, and the player to move. */
  lemma InitialBoardCounts(b: Board)
    requires b == InitialBoard()
    ensures CountPieces(b.matrix) == (12, 12) && CountersAgree(b)
    ensures b.playerTurn && b.playerPoints == 0 && b.computerPoints == 0
    ensures !CheckGameOver(b)
  {
    InitialCountPieces(b.matrix);
  }

  /** With counters that agree with the grid, `check_game_over` holds exactly when
      one colour has no man left anywhere on the grid. */
  lemma GameOverIffNoMen(b: Board)
    requires CountersAgree(b)
    ensures CheckGameOver(b) <==> CountPieces(b.matrix).0 == 0 || CountPieces(b.matrix).1 == 0
    ensures CheckGameOver(b) <==>
      (forall x, y | OnBoard(x, y) :: b.matrix[x][y] != B) || (forall x, y | OnBoard(x, y) :: b.matrix[x][y] != C)
  {
    NoMenIff(b.matrix, PlayerCount, B, 8);
    NoMenIff(b.matrix, ComputerCount, C, 8);
  }

  /** Rows `0` to `n - 1` hold no man of `piece` exactly when its count over them is 0. */
  lemma {:induction false} NoMenIff(m: Grid, w: Weight, piece: Cell, n: nat)
    requires n <= 8
    requires (w == PlayerCount && piece == B) || (w == ComputerCount && piece == C)
    ensures 0 <= SumRows(m, w, n)
    ensures SumRows(m, w, n) == 0 <==> forall x, y | 0 <= x < n && 0 <= y < 8 :: m[x][y] != piece
    decreases n
  {
    if n > 0 {
      NoMenIff(m, w, piece, n - 1);
      RowNoMen(m, w, piece, n - 1);
    }
  }

  /** Row `x` holds no man of `piece` exactly when its count over the row is 0. */
  lemma RowNoMen(m: Grid, w: Weight, piece: Cell, x: int)
    requires 0 <= x < 8
    requires (w == PlayerCount && piece == B) || (w == ComputerCount && piece == C)
    ensures 0 <= RowSum(m, w, x)
    ensures RowSum(m, w, x) == 0 <==> forall y | 0 <= y < 8 :: m[x][y] != piece
  {
  }

  lemma InitialCountPieces(m: Grid)
    requires m == InitialGrid()
    ensures CountPieces(m) == (12, 12)
  {
    InitialPlayerMen(m);
    InitialComputerMen(m);
  }

  lemma InitialPlayerMen(m: Grid)
    requires m == InitialGrid()
    ensures GridSum(m, PlayerCount) == 12
  {
    InitialPlayerRows(8);
  }

  lemma InitialComputerMen(m: Grid)
    requires m == InitialGrid()
    ensures GridSum(m, ComputerCount) == 12
  {
    InitialComputerRows(8);
  }

  /** Rows `0` to `n - 1` of the starting layout hold four player men for each of
      rows 5 to 7 among them. */
  lemma {:induction false} InitialPlayerRows(n: nat)
    requires n <= 8
    ensures SumRows(InitialGrid(), PlayerCount, n) == if n <= 5 then 0 else 4 * (n - 5)
  {
    if n > 0 {
      InitialPlayerRows(n - 1);
      InitialPlayerRow(n - 1);
    }
  }

  /** Rows `0` to `n - 1` of the starting layout hold four computer men for each of
      rows 0 to 2 among them. */
  lemma {:induction false} InitialComputerRows(n: nat)
    requires n <= 8
    ensures SumRows(InitialGrid(), ComputerCount, n) == if n <= 3 then 4 * n else 12
  {
    if n > 0 {
      InitialComputerRows(n - 1);
      InitialComputerRow(n - 1);
    }
  }

  /** Each row of the starting layout holds four player men or none. */
  lemma InitialPlayerRow(x: int)
    requires 0 <= x < 8
    ensures RowSum(InitialGrid(), PlayerCount, x) == if x >= 5 then 4 else 0
  {
  }

  /** Each row of the starting layout holds four computer men or none. */
  lemma InitialComputerRow(x: int)
    requires 0 <= x < 8
    ensures RowSum(InitialGrid(), ComputerCount, x) == if x <= 2 then 4 else 0
  {
  }

  /** The starting board evaluates to 20, not 0: 52 for the computer (28 + 4 + 20
      over rows 0 to 2) against 32 for the player (8 + 24 + 0 over rows 5 to 7). */
  lemma InitialBoardEvaluation(m: Grid)
    requires m == InitialGrid()
    ensures GridSum(m, ComputerPosition) == 52 && GridSum(m, PlayerPosition) == 32
    ensures Evaluate(m) == 20
  {
    InitialComputerScore(m);
    InitialPlayerScore(m);
  }

  lemma InitialComputerScore(m: Grid)
    requires m == InitialGrid()
    ensures GridSum(m, ComputerPosition) == 52
  {
    assert GridSum(InitialGrid(), ComputerPosition) == 52;
  }

  lemma InitialPlayerScore(m: Grid)
    requires m == InitialGrid()
    ensures GridSum(m, PlayerPosition) == 32
  {
    assert GridSum(InitialGrid(), PlayerPosition) == 32;
  }
}
