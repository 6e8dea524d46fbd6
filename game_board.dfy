/** `GameBoard` as the program runs it: an object whose fields the methods update in
    place.  `Value()` reads all fields as one `BoardRules.Board`, and every method is
    proved against the pure rules on that value. */
module GameBoards {
  import opened Options
  import opened BoardRules
  import opened BoardProperties
  import opened MoveGeneration
  import opened BoardText

  class GameBoard {
    var matrix: Grid
    var playerTurn: bool
    var computerPieces: int
    var playerPieces: int
    var selectedPiece: Option<(int, int)>
    var playerPoints: int
    var computerPoints: int

    /** All fields as one value. */
    function Value(): Board
      reads this
    {
      Board(matrix, playerTurn, computerPieces, playerPieces, selectedPiece, playerPoints, computerPoints)
    }

    /** `__init__`: an empty grid, the player to move, twelve men a side, no points,
        then the computer's men and the player's men placed. */
    constructor()
      ensures Value() == InitialBoard()
    {
      matrix := EmptyGrid();
      playerTurn := true;
      computerPieces := 12;
      playerPieces := 12;
      selectedPiece := None;
      playerPoints := 0;
      computerPoints := 0;
      new;
      PositionComputer();
      PositionPlayer();
      PlaceMenGivesInitialGrid();
    }

    /** `__copy__` and `__deepcopy__`: a new board with every field of `other`.  The
        grid is a value, so the copy shares no row with `other`. */
    constructor Copy(other: GameBoard)
      ensures Value() == other.Value()
    {
      matrix := other.matrix;
      playerTurn := other.playerTurn;
      computerPieces := other.computerPieces;
      playerPieces := other.playerPieces;
      selectedPiece := other.selectedPiece;
      playerPoints := other.playerPoints;
      computerPoints := other.computerPoints;
    }

    /** `position_computer`: a computer man on every dark square of rows 0 to 2. */
    method PositionComputer()
      modifies this
      ensures Value() == old(Value()).(matrix := PlaceMen(old(matrix), 0, 3, C))
    {
      PlaceRows(0, 3, C);
    }

    /** `position_player`: a player man on every dark square of rows 5 to 7. */
    method PositionPlayer()
      modifies this
      ensures Value() == old(Value()).(matrix := PlaceMen(old(matrix), 5, 8, B))
    {
      PlaceRows(5, 8, B);
    }

    /** The loop both placements run: rows `lo` to `hi - 1`, every column, a man on
        each square whose coordinates add up to an odd number. */
    method PlaceRows(lo: int, hi: int, piece: Cell)
      requires 0 <= lo <= hi <= 8
      modifies this
      ensures Value() == old(Value()).(matrix := PlaceMen(old(matrix), lo, hi, piece))
    {
      var i := lo;
      while i < hi
        invariant lo <= i <= hi
        invariant Value() == old(Value()).(matrix := matrix)
        invariant forall x, y | OnBoard(x, y) ::
          matrix[x][y] == if lo <= x < i && (x + y) % 2 == 1 then piece else old(matrix)[x][y]
      {
        var j := 0;
        while j < 8
          invariant 0 <= j <= 8
          invariant Value() == old(Value()).(matrix := matrix)
          invariant forall x, y | OnBoard(x, y) ::
            matrix[x][y] ==
              if (lo <= x < i || (x == i && y < j)) && (x + y) % 2 == 1 then piece else old(matrix)[x][y]
        {
          if (i + j) % 2 == 1 {
            matrix := SetCell(matrix, i, j, piece);
          }
          j := j + 1;
        }
        i := i + 1;
      }
      var target := PlaceMen(old(matrix), lo, hi, piece);
      forall x | 0 <= x < 8
        ensures matrix[x] == target[x]
      {
        assert forall y | 0 <= y < 8 :: matrix[x][y] == target[x][y];
      }
    }

    /** `is_valid_move` on this board. */
    predicate IsValidMoveHere(oldX: int, oldY: int, newX: int, newY: int)
      requires OnBoard(oldX, oldY)
      reads this
    {
      IsValidMove(matrix, oldX, oldY, newX, newY)
    }

    /** `move_piece`: a move `is_valid_move` accepts is carried out as `ApplyMove`
        describes and the method answers `true`; any other move changes nothing and
        the method answers `false`. */
    method MovePiece(oldX: int, oldY: int, newX: int, newY: int) returns (ok: bool)
      requires OnBoard(oldX, oldY)
      modifies this
      ensures ok == IsValidMove(old(matrix), oldX, oldY, newX, newY)
      ensures ok ==> Value() == ApplyMove(old(Value()), Move(oldX, oldY, newX, newY))
      ensures !ok ==> Value() == old(Value())
    {
      if IsValidMoveHere(oldX, oldY, newX, newY) {
        var dx, dy := newX - oldX, newY - oldY;
        var capture := Abs(dx) == 2 && Abs(dy) == 2;
        matrix := SetCell(matrix, newX, newY, matrix[oldX][oldY]);
        matrix := SetCell(matrix, oldX, oldY, Empty);
        if capture {
          var midX, midY := (oldX + newX) / 2, (oldY + newY) / 2;
          LegalMoveShape(old(matrix), Move(oldX, oldY, newX, newY));
          matrix := SetCell(matrix, midX, midY, Empty);
          if playerTurn {
            computerPieces := computerPieces - 1;
            playerPoints := playerPoints + 1;
          } else {
            playerPieces := playerPieces - 1;
            computerPoints := computerPoints + 1;
          }
        }
        playerTurn := !playerTurn;
        ok := true;
      } else {
        ok := false;
      }
    }

    /** `check_game_over` on this board. */
    predicate CheckGameOverHere()
      reads this
    {
      CheckGameOver(Value())
    }

    /** `evaluate_board` on this board. */
    function EvaluateBoard(): int
      reads this
    {
      Evaluate(matrix)
    }

    /** `count_pieces` on this board. */
    function CountPiecesHere(): (int, int)
      reads this
    {
      CountPieces(matrix)
    }

    /** `get_board_state`: the grid, as a value that nothing else shares. */
    function GetBoardState(): Grid
      reads this
    {
      matrix
    }

    /** `set_board_state`: the grid becomes `state`; no other field changes. */
    method SetBoardState(state: Grid)
      modifies this
      ensures GetBoardState() == state
      ensures Value() == old(Value()).(matrix := state)
    {
      matrix := state;
    }

    /** Reading the grid with `get_board_state` and writing it back with
        `set_board_state` leaves every field as it was. */
    method SaveAndRestoreState()
      modifies this
      ensures Value() == old(Value())
    {
      var state := GetBoardState();
      SetBoardState(state);
    }

    /** `__str__`: the column header, then for each row its number and its cells,
        each followed by a space, and a newline; the text `Render` gives, which
        `BoardText.Parse` reads back as the grid. */
    method ToString() returns (result: string)
      ensures result == Render(matrix)
    {
      result := Header;
      var i := 0;
      while i < 8
        invariant 0 <= i <= 8
        invariant result == Header + LinesText(matrix, i)
      {
        result := AppendRow(result, i);
        i := i + 1;
      }
    }

    /** One pass of the outer loop of `__str__`: row `i`'s number, its cells and a
        newline appended to `result0`. */
    method AppendRow(result0: string, i: int) returns (result: string)
      requires 0 <= i < 8
      ensures result == result0 + RowLine(matrix, i)
    {
      result := result0 + [Digit(i), ' '];
      var j := 0;
      while j < 8
        invariant 0 <= j <= 8
        invariant result == result0 + [Digit(i), ' '] + CellsText(matrix[i][..j])
      {
        CellsTextSnoc(matrix[i], j);
        result := result + CellText(matrix[i][j]);
        j := j + 1;
      }
      assert matrix[i][..8] == matrix[i];
      result := result + "\n";
    }

    /** `get_valid_moves(maximizingPlayer)`: a new board for every entry of
        `ValidMoves`, in the same order, each holding the position its move produces;
        this board is left as it was. */
    method GetValidMoves(maximizingPlayer: bool) returns (moves: seq<(GameBoard, Move)>)
      ensures MovesOf(moves) == MoveList(matrix, maximizingPlayer)
      ensures Produces(Value(), moves)
      ensures forall t | 0 <= t < |moves| :: fresh(moves[t].0)
    {
      var jumpMoves: seq<(GameBoard, Move)> := [];
      var normalMoves: seq<(GameBoard, Move)> := [];
      var piece := PieceFor(maximizingPlayer);
      var i := 0;
      while i < 8
        invariant 0 <= i <= 8
        invariant MovesOf(jumpMoves) == GridMoves(matrix, piece, i, true)
        invariant MovesOf(normalMoves) == GridMoves(matrix, piece, i, false)
        invariant Produces(Value(), jumpMoves) && Produces(Value(), normalMoves)
        invariant forall t | 0 <= t < |jumpMoves| :: fresh(jumpMoves[t].0)
        invariant forall t | 0 <= t < |normalMoves| :: fresh(normalMoves[t].0)
      {
        jumpMoves, normalMoves := MovesInRow(piece, i, jumpMoves, normalMoves);
        i := i + 1;
      }
      moves := jumpMoves + normalMoves;
      MovesOfAppend(jumpMoves, normalMoves);
    }

    /** The inner loop of `get_valid_moves`, over the squares of row `i`: the moves of
        every man of `piece` on it are added, jumps and steps apart. */
    method MovesInRow(piece: Cell, i: int, jumps0: seq<(GameBoard, Move)>, normals0: seq<(GameBoard, Move)>)
      returns (jumpMoves: seq<(GameBoard, Move)>, normalMoves: seq<(GameBoard, Move)>)
      requires 0 <= i < 8
      requires Produces(Value(), jumps0) && Produces(Value(), normals0)
      ensures MovesOf(jumpMoves) == MovesOf(jumps0) + RowMoves(matrix, piece, i, 8, true)
      ensures MovesOf(normalMoves) == MovesOf(normals0) + RowMoves(matrix, piece, i, 8, false)
      ensures Produces(Value(), jumpMoves) && Produces(Value(), normalMoves)
      ensures Extends(jumps0, jumpMoves) && Extends(normals0, normalMoves)
    {
      jumpMoves, normalMoves := jumps0, normals0;
      var j := 0;
      while j < 8
        invariant 0 <= j <= 8
        invariant MovesOf(jumpMoves) == MovesOf(jumps0) + RowMoves(matrix, piece, i, j, true)
        invariant MovesOf(normalMoves) == MovesOf(normals0) + RowMoves(matrix, piece, i, j, false)
        invariant Produces(Value(), jumpMoves) && Produces(Value(), normalMoves)
        invariant Extends(jumps0, jumpMoves) && Extends(normals0, normalMoves)
      {
        if matrix[i][j] == piece {
          ConcatAssoc(MovesOf(jumps0), RowMoves(matrix, piece, i, j, true), DirMoves(matrix, i, j, 8, true));
          ConcatAssoc(MovesOf(normals0), RowMoves(matrix, piece, i, j, false), DirMoves(matrix, i, j, 8, false));
          jumpMoves, normalMoves := MovesFrom(i, j, jumpMoves, normalMoves);
        }
        j := j + 1;
      }
    }

    /** A deep copy of this board on which `move_piece` then makes a move that
        `is_valid_move` accepts. */
    method CopyAndMove(mv: Move) returns (newBoard: GameBoard)
      requires Legal(matrix, mv)
      ensures fresh(newBoard) && newBoard.Value() == ApplyMove(Value(), mv)
    {
      newBoard := new GameBoard.Copy(this);
      var _ := newBoard.MovePiece(mv.oldX, mv.oldY, mv.newX, mv.newY);
    }

    /** The loop over `DIRECTIONS` for the man on `(i, j)`: each jump `is_valid_move`
        accepts is added to `jumpMoves` and each such step to `normalMoves`, with a
        deep copy of this board on which the move has been made. */
    method MovesFrom(i: int, j: int, jumps0: seq<(GameBoard, Move)>, normals0: seq<(GameBoard, Move)>)
      returns (jumpMoves: seq<(GameBoard, Move)>, normalMoves: seq<(GameBoard, Move)>)
      requires OnBoard(i, j)
      requires Produces(Value(), jumps0) && Produces(Value(), normals0)
      ensures MovesOf(jumpMoves) == MovesOf(jumps0) + DirMoves(matrix, i, j, 8, true)
      ensures MovesOf(normalMoves) == MovesOf(normals0) + DirMoves(matrix, i, j, 8, false)
      ensures Produces(Value(), jumpMoves) && Produces(Value(), normalMoves)
      ensures Extends(jumps0, jumpMoves) && Extends(normals0, normalMoves)
    {
      jumpMoves, normalMoves := jumps0, normals0;
      var d := 0;
      while d < 8
        invariant 0 <= d <= 8
        invariant MovesOf(jumpMoves) == MovesOf(jumps0) + DirMoves(matrix, i, j, d, true)
        invariant MovesOf(normalMoves) == MovesOf(normals0) + DirMoves(matrix, i, j, d, false)
        invariant Produces(Value(), jumpMoves) && Produces(Value(), normalMoves)
        invariant Extends(jumps0, jumpMoves) && Extends(normals0, normalMoves)
      {
        jumpMoves, normalMoves := TryOffset(i, j, d, jumps0, normals0, jumpMoves, normalMoves);
        d := d + 1;
      }
    }

    /** One offset of the loop over `DIRECTIONS`: a valid jump goes to `jumpMoves`, a
        valid step to `normalMoves`, each with a copy of this board on which it has
        been made. */
    method TryOffset(i: int, j: int, d: nat, jumps0: seq<(GameBoard, Move)>, normals0: seq<(GameBoard, Move)>,
                     jumps1: seq<(GameBoard, Move)>, normals1: seq<(GameBoard, Move)>)
      returns (jumpMoves: seq<(GameBoard, Move)>, normalMoves: seq<(GameBoard, Move)>)
      requires OnBoard(i, j) && d < 8
      requires MovesOf(jumps1) == MovesOf(jumps0) + DirMoves(matrix, i, j, d, true)
      requires MovesOf(normals1) == MovesOf(normals0) + DirMoves(matrix, i, j, d, false)
      requires Produces(Value(), jumps1) && Produces(Value(), normals1)
      ensures MovesOf(jumpMoves) == MovesOf(jumps0) + DirMoves(matrix, i, j, d + 1, true)
      ensures MovesOf(normalMoves) == MovesOf(normals0) + DirMoves(matrix, i, j, d + 1, false)
      ensures Produces(Value(), jumpMoves) && Produces(Value(), normalMoves)
      ensures Extends(jumps1, jumpMoves) && Extends(normals1, normalMoves)
    {
      jumpMoves, normalMoves := jumps1, normals1;
      var dx, dy := DIRECTIONS[d].0, DIRECTIONS[d].1;
      var newX, newY := i + dx, j + dy;
      var mv := Move(i, j, newX, newY);
      assert mv == MoveAlong(i, j, d);
      DirMovesNext(matrix, i, j, d, true);
      DirMovesNext(matrix, i, j, d, false);
      if Abs(dx) == 2 && Abs(dy) == 2 {
        if IsValidMoveHere(i, j, newX, newY) {
          var newBoard := CopyAndMove(mv);
          ProducesAppend(Value(), jumpMoves, newBoard, mv);
          ConcatAssoc(MovesOf(jumps0), DirMoves(matrix, i, j, d, true), [mv]);
          jumpMoves := jumpMoves + [(newBoard, mv)];
        }
      } else if Abs(dx) == 1 && Abs(dy) == 1 {
        if IsValidMoveHere(i, j, newX, newY) {
          var newBoard := CopyAndMove(mv);
          ProducesAppend(Value(), normalMoves, newBoard, mv);
          ConcatAssoc(MovesOf(normals0), DirMoves(matrix, i, j, d, false), [mv]);
          normalMoves := normalMoves + [(newBoard, mv)];
        }
      }
    }
  }

  /** `s` starts with `s0`, and every entry after those holds a board allocated since
      `s0` was the whole list. */
  twostate predicate Extends(s0: seq<(GameBoard, Move)>, new s: seq<(GameBoard, Move)>)
  {
    && |s0| <= |s|
    && (forall t | 0 <= t < |s0| :: s[t] == s0[t])
    && (forall t | |s0| <= t < |s| :: fresh(s[t].0))
  }

  /** The moves of a list of `(board, move)` entries, in order. */
  function MovesOf(s: seq<(GameBoard, Move)>): (r: seq<Move>)
    ensures |r| == |s| && forall t | 0 <= t < |s| :: r[t] == s[t].1
  {
    seq(|s|, t requires 0 <= t < |s| => s[t].1)
  }

  lemma MovesOfAppend(s: seq<(GameBoard, Move)>, u: seq<(GameBoard, Move)>)
    ensures MovesOf(s + u) == MovesOf(s) + MovesOf(u)
  {
  }

  lemma ConcatAssoc<T>(a: seq<T>, b: seq<T>, c: seq<T>)
    ensures a + b + c == a + (b + c)
  {
  }

  /** Appending an entry that pairs a legal move with its position keeps `Produces`. */
  lemma ProducesAppend(b: Board, s: seq<(GameBoard, Move)>, g: GameBoard, mv: Move)
    requires Produces(b, s) && Legal(b.matrix, mv) && g.Value() == ApplyMove(b, mv)
    ensures MovesOf(s + [(g, mv)]) == MovesOf(s) + [mv] && Produces(b, s + [(g, mv)])
  {
  }

  /** Every entry pairs a legal move on `b` with a board that holds the position the
      move produces. */
  predicate Produces(b: Board, s: seq<(GameBoard, Move)>)
    reads set t | 0 <= t < |s| :: s[t].0
  {
    forall t | 0 <= t < |s| :: Legal(b.matrix, s[t].1) && s[t].0.Value() == ApplyMove(b, s[t].1)
  }
}
