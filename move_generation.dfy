/** `get_valid_moves` as a function on board values, and what it promises: every
    entry is a legal move of one of the side's own men paired with the board that
    move produces, every such move is listed, and the jumps come first, each group
    in row-major order of the source square and then in the order of `DIRECTIONS`. */
module MoveGeneration {
  import opened BoardRules
  import opened BoardProperties

  /** The eight offsets `get_valid_moves` tries, in its order: the four jumps, then
      the four steps. */
  const DIRECTIONS: seq<(int, int)> :=
    [(-2, -2), (-2, 2), (2, -2), (2, 2), (-1, -1), (-1, 1), (1, -1), (1, 1)]

  /** The position in `DIRECTIONS` of an offset of either group: the jumps come
      first, and within a group the row offset and then the column offset go from
      negative to positive. */
  function DirIndex(dx: int, dy: int): nat {
    (if Abs(dx) == 2 then 0 else 4) + (if dx < 0 then 0 else 2) + (if dy < 0 then 0 else 1)
  }

  /** The man of the side being generated for: `'C'` when maximizing, else `'B'`. */
  function PieceFor(maximizingPlayer: bool): Cell {
    if maximizingPlayer then C else B
  }

  /** An offset of the jump group (`jumps`) or of the step group (`!jumps`). */
  predicate InGroup(dx: int, dy: int, jumps: bool) {
    if jumps then Abs(dx) == 2 && Abs(dy) == 2 else Abs(dx) == 1 && Abs(dy) == 1
  }

  /** The move from `(i, j)` along offset number `k`. */
  function MoveAlong(i: int, j: int, k: int): Move
    requires 0 <= k < 8
  {
    Move(i, j, i + DIRECTIONS[k].0, j + DIRECTIONS[k].1)
  }

  /** The moves, in order, along the first `d` offsets of one group from square
      `(i, j)` that `ok` accepts. */
  function Along(i: int, j: int, d: nat, jumps: bool, ok: Move -> bool): seq<Move>
    requires d <= 8
  {
    if d == 0 then []
    else
      Along(i, j, d - 1, jumps, ok) +
      (if InGroup(DIRECTIONS[d - 1].0, DIRECTIONS[d - 1].1, jumps) && ok(MoveAlong(i, j, d - 1))
       then [MoveAlong(i, j, d - 1)] else [])
  }

  /** The legal moves, in order, among the first `d` offsets of one group from
      square `(i, j)`. */
  function DirMoves(m: Grid, i: int, j: int, d: nat, jumps: bool): seq<Move>
    requires d <= 8
  {
    Along(i, j, d, jumps, mv => Legal(m, mv))
  }

  /** The moves of one group from the first `n` squares of row `i` that hold `piece`. */
  function RowMoves(m: Grid, piece: Cell, i: int, n: nat, jumps: bool): seq<Move>
    requires 0 <= i < 8 && n <= 8
  {
    if n == 0 then []
    else RowMoves(m, piece, i, n - 1, jumps) + (if m[i][n - 1] == piece then DirMoves(m, i, n - 1, 8, jumps) else [])
  }

  /** The moves of one group from the squares of the first `n` rows that hold `piece`. */
  function GridMoves(m: Grid, piece: Cell, n: nat, jumps: bool): seq<Move>
    requires n <= 8
  {
    if n == 0 then [] else GridMoves(m, piece, n - 1, jumps) + RowMoves(m, piece, n - 1, 8, jumps)
  }

  /** The moves `get_valid_moves(maximizingPlayer)` lists: every jump, then every step. */
  function MoveList(m: Grid, maximizingPlayer: bool): seq<Move> {
    GridMoves(m, PieceFor(maximizingPlayer), 8, true) + GridMoves(m, PieceFor(maximizingPlayer), 8, false)
  }

  /** `get_valid_moves(maximizingPlayer)`: each listed move with the board it produces. */
  function ValidMoves(b: Board, maximizingPlayer: bool): (r: seq<(Board, Move)>)
    ensures |r| == |MoveList(b.matrix, maximizingPlayer)|
    ensures forall t | 0 <= t < |r| :: r[t].1 == MoveList(b.matrix, maximizingPlayer)[t] && Legal(b.matrix, r[t].1)
    ensures forall t | 0 <= t < |r| :: r[t].0 == ApplyMove(b, r[t].1)
  {
    var ms := MoveList(b.matrix, maximizingPlayer);
    MoveListLegal(b.matrix, maximizingPlayer);
    seq(|ms|, t requires 0 <= t < |ms| => (ApplyMove(b, ms[t]), ms[t]))
  }

  /** One more offset: the moves along `d + 1` offsets are those along `d` and then,
      when offset `d` belongs to the group and its move is legal, that move. */
  lemma DirMovesNext(m: Grid, i: int, j: int, d: nat, jumps: bool)
    requires d < 8
    ensures InGroup(DIRECTIONS[d].0, DIRECTIONS[d].1, jumps) && Legal(m, MoveAlong(i, j, d)) ==>
      DirMoves(m, i, j, d + 1, jumps) == DirMoves(m, i, j, d, jumps) + [MoveAlong(i, j, d)]
    ensures !(InGroup(DIRECTIONS[d].0, DIRECTIONS[d].1, jumps) && Legal(m, MoveAlong(i, j, d))) ==>
      DirMoves(m, i, j, d + 1, jumps) == DirMoves(m, i, j, d, jumps)
  {
  }

  // ---------------------------------------------------------------------------
  // Soundness: where each listed move comes from
  // ---------------------------------------------------------------------------

  /** The order of generation: source square in row-major order, then offset. */
  function Key(mv: Move): int {
    8 * (8 * mv.oldX + mv.oldY) + DirIndex(mv.newX - mv.oldX, mv.newY - mv.oldY)
  }

  lemma MoveAlongFacts(i: int, j: int, k: int)
    requires 0 <= k < 8
    ensures var mv := MoveAlong(i, j, k);
      && mv.oldX == i && mv.oldY == j
      && DirIndex(mv.newX - i, mv.newY - j) == k
      && InGroup(mv.newX - i, mv.newY - j, k < 4)
  {
  }

  lemma DirMovesSound(m: Grid, i: int, j: int, d: nat, jumps: bool, t: int)
    requires d <= 8 && 0 <= t < |DirMoves(m, i, j, d, jumps)|
    ensures var mv := DirMoves(m, i, j, d, jumps)[t];
      && mv.oldX == i && mv.oldY == j
      && Legal(m, mv)
      && InGroup(mv.newX - i, mv.newY - j, jumps)
      && DirIndex(mv.newX - i, mv.newY - j) < d
  {
    AlongSound(i, j, d, jumps, mv => Legal(m, mv), t);
  }

  lemma DirMovesOrdered(m: Grid, i: int, j: int, d: nat, jumps: bool, s: int, t: int)
    requires d <= 8 && 0 <= s < t < |DirMoves(m, i, j, d, jumps)|
    ensures var ms := DirMoves(m, i, j, d, jumps);
      Key(ms[s]) < Key(ms[t])
  {
    AlongOrdered(i, j, d, jumps, mv => Legal(m, mv), s, t);
  }

  lemma {:induction false} AlongSound(i: int, j: int, d: nat, jumps: bool, ok: Move -> bool, t: int)
    requires d <= 8 && 0 <= t < |Along(i, j, d, jumps, ok)|
    ensures var mv := Along(i, j, d, jumps, ok)[t];
      && mv.oldX == i && mv.oldY == j
      && ok(mv)
      && InGroup(mv.newX - i, mv.newY - j, jumps)
      && DirIndex(mv.newX - i, mv.newY - j) < d
  {
    if t < |Along(i, j, d - 1, jumps, ok)| {
      AlongSound(i, j, d - 1, jumps, ok, t);
    } else {
      MoveAlongFacts(i, j, d - 1);
    }
  }

  lemma {:induction false} AlongOrdered(i: int, j: int, d: nat, jumps: bool, ok: Move -> bool, s: int, t: int)
    requires d <= 8 && 0 <= s < t < |Along(i, j, d, jumps, ok)|
    ensures var ms := Along(i, j, d, jumps, ok);
      Key(ms[s]) < Key(ms[t])
  {
    if t < |Along(i, j, d - 1, jumps, ok)| {
      AlongOrdered(i, j, d - 1, jumps, ok, s, t);
    } else {
      AlongSound(i, j, d - 1, jumps, ok, s);
      MoveAlongFacts(i, j, d - 1);
    }
  }

  lemma {:induction false} RowMovesSound(m: Grid, piece: Cell, i: int, n: nat, jumps: bool, t: int)
    requires 0 <= i < 8 && n <= 8 && 0 <= t < |RowMoves(m, piece, i, n, jumps)|
    ensures var mv := RowMoves(m, piece, i, n, jumps)[t];
      && mv.oldX == i && mv.oldY < n
      && Legal(m, mv) && m[mv.oldX][mv.oldY] == piece
      && InGroup(mv.newX - mv.oldX, mv.newY - mv.oldY, jumps)
      && DirIndex(mv.newX - mv.oldX, mv.newY - mv.oldY) < 8
  {
    var prev := RowMoves(m, piece, i, n - 1, jumps);
    if t < |prev| {
      RowMovesSound(m, piece, i, n - 1, jumps, t);
    } else {
      DirMovesSound(m, i, n - 1, 8, jumps, t - |prev|);
    }
  }

  lemma {:induction false} RowMovesOrdered(m: Grid, piece: Cell, i: int, n: nat, jumps: bool, s: int, t: int)
    requires 0 <= i < 8 && n <= 8 && 0 <= s < t < |RowMoves(m, piece, i, n, jumps)|
    ensures var ms := RowMoves(m, piece, i, n, jumps);
      Key(ms[s]) < Key(ms[t])
  {
    var prev := RowMoves(m, piece, i, n - 1, jumps);
    if t < |prev| {
      RowMovesOrdered(m, piece, i, n - 1, jumps, s, t);
    } else if s < |prev| {
      RowMovesSound(m, piece, i, n - 1, jumps, s);
      DirMovesSound(m, i, n - 1, 8, jumps, t - |prev|);
    } else {
      DirMovesOrdered(m, i, n - 1, 8, jumps, s - |prev|, t - |prev|);
    }
  }

  lemma {:induction false} GridMovesSound(m: Grid, piece: Cell, n: nat, jumps: bool, t: int)
    requires n <= 8 && 0 <= t < |GridMoves(m, piece, n, jumps)|
    ensures var mv := GridMoves(m, piece, n, jumps)[t];
      && mv.oldX < n
      && Legal(m, mv) && m[mv.oldX][mv.oldY] == piece
      && InGroup(mv.newX - mv.oldX, mv.newY - mv.oldY, jumps)
      && DirIndex(mv.newX - mv.oldX, mv.newY - mv.oldY) < 8
  {
    var prev := GridMoves(m, piece, n - 1, jumps);
    if t < |prev| {
      GridMovesSound(m, piece, n - 1, jumps, t);
    } else {
      RowMovesSound(m, piece, n - 1, 8, jumps, t - |prev|);
    }
  }

  lemma {:induction false} GridMovesOrdered(m: Grid, piece: Cell, n: nat, jumps: bool, s: int, t: int)
    requires n <= 8 && 0 <= s < t < |GridMoves(m, piece, n, jumps)|
    ensures var ms := GridMoves(m, piece, n, jumps);
      Key(ms[s]) < Key(ms[t])
  {
    var prev := GridMoves(m, piece, n - 1, jumps);
    if t < |prev| {
      GridMovesOrdered(m, piece, n - 1, jumps, s, t);
    } else if s < |prev| {
      GridMovesSound(m, piece, n - 1, jumps, s);
      RowMovesSound(m, piece, n - 1, 8, jumps, t - |prev|);
    } else {
      RowMovesOrdered(m, piece, n - 1, 8, jumps, s - |prev|, t - |prev|);
    }
  }

  lemma MoveListSound(m: Grid, maximizingPlayer: bool, t: int)
    requires 0 <= t < |MoveList(m, maximizingPlayer)|
    ensures var mv := MoveList(m, maximizingPlayer)[t];
      && Legal(m, mv) && m[mv.oldX][mv.oldY] == PieceFor(maximizingPlayer)
      && (t < |GridMoves(m, PieceFor(maximizingPlayer), 8, true)| <==> IsJump(mv))
  {
    var js := GridMoves(m, PieceFor(maximizingPlayer), 8, true);
    if t < |js| {
      GridMovesSound(m, PieceFor(maximizingPlayer), 8, true, t);
    } else {
      GridMovesSound(m, PieceFor(maximizingPlayer), 8, false, t - |js|);
    }
  }

  lemma MoveListLegal(m: Grid, maximizingPlayer: bool)
    ensures forall t | 0 <= t < |MoveList(m, maximizingPlayer)| :: Legal(m, MoveList(m, maximizingPlayer)[t])
  {
    forall t | 0 <= t < |MoveList(m, maximizingPlayer)|
      ensures Legal(m, MoveList(m, maximizingPlayer)[t])
    {
      MoveListSound(m, maximizingPlayer, t);
    }
  }

  /** Every entry of `get_valid_moves(maximizingPlayer)` is a legal move of one of
      that side's men, paired with the board the move produces. */
  lemma ValidMovesSound(b: Board, maximizingPlayer: bool, t: int)
    requires 0 <= t < |ValidMoves(b, maximizingPlayer)|
    ensures var e := ValidMoves(b, maximizingPlayer)[t];
      && Legal(b.matrix, e.1)
      && b.matrix[e.1.oldX][e.1.oldY] == PieceFor(maximizingPlayer)
      && (IsJump(e.1) || IsStep(e.1))
      && e.0 == ApplyMove(b, e.1)
  {
    MoveListSound(b.matrix, maximizingPlayer, t);
    LegalMoveShape(b.matrix, ValidMoves(b, maximizingPlayer)[t].1);
  }

  /** The jumps come first; within each group the entries follow the row-major order
      of their source squares and then the order of `DIRECTIONS`. */
  lemma ValidMovesOrdered(b: Board, maximizingPlayer: bool, s: int, t: int)
    requires 0 <= s < t < |ValidMoves(b, maximizingPlayer)|
    ensures var es := ValidMoves(b, maximizingPlayer);
      && (IsStep(es[s].1) ==> IsStep(es[t].1))
      && (IsJump(es[s].1) == IsJump(es[t].1) ==> Key(es[s].1) < Key(es[t].1))
  {
    var m, piece := b.matrix, PieceFor(maximizingPlayer);
    var js := GridMoves(m, piece, 8, true);
    MoveListSound(m, maximizingPlayer, s);
    MoveListSound(m, maximizingPlayer, t);
    LegalMoveShape(m, MoveList(m, maximizingPlayer)[s]);
    LegalMoveShape(m, MoveList(m, maximizingPlayer)[t]);
    if t < |js| {
      GridMovesOrdered(m, piece, 8, true, s, t);
    } else if |js| <= s {
      GridMovesOrdered(m, piece, 8, false, s - |js|, t - |js|);
    }
  }

  // ---------------------------------------------------------------------------
  // Completeness: every legal move of the side's men is listed
  // ---------------------------------------------------------------------------

  /** The offset of a legal move is one of `DIRECTIONS`, in the group of its kind. */
  lemma LegalDirection(m: Grid, mv: Move)
    requires Legal(m, mv)
    ensures DirIndex(mv.newX - mv.oldX, mv.newY - mv.oldY) < 8
    ensures MoveAlong(mv.oldX, mv.oldY, DirIndex(mv.newX - mv.oldX, mv.newY - mv.oldY)) == mv
    ensures InGroup(mv.newX - mv.oldX, mv.newY - mv.oldY, IsJump(mv))
  {
    LegalMoveShape(m, mv);
  }

  lemma DirMovesComplete(m: Grid, mv: Move)
    requires Legal(m, mv)
    ensures mv in DirMoves(m, mv.oldX, mv.oldY, 8, IsJump(mv))
  {
    LegalDirection(m, mv);
    AlongComplete(mv, 8, IsJump(mv), mv' => Legal(m, mv'));
  }

  lemma {:induction false} AlongComplete(mv: Move, d: nat, jumps: bool, ok: Move -> bool)
    requires d <= 8 && ok(mv)
    requires DirIndex(mv.newX - mv.oldX, mv.newY - mv.oldY) < d
    requires MoveAlong(mv.oldX, mv.oldY, DirIndex(mv.newX - mv.oldX, mv.newY - mv.oldY)) == mv
    requires InGroup(mv.newX - mv.oldX, mv.newY - mv.oldY, jumps)
    ensures mv in Along(mv.oldX, mv.oldY, d, jumps, ok)
  {
    if DirIndex(mv.newX - mv.oldX, mv.newY - mv.oldY) < d - 1 {
      AlongComplete(mv, d - 1, jumps, ok);
    }
  }

  lemma {:induction false} RowMovesComplete(m: Grid, piece: Cell, mv: Move, n: nat)
    requires Legal(m, mv) && m[mv.oldX][mv.oldY] == piece && mv.oldY < n <= 8
    ensures mv in RowMoves(m, piece, mv.oldX, n, IsJump(mv))
  {
    if mv.oldY < n - 1 {
      RowMovesComplete(m, piece, mv, n - 1);
    } else {
      DirMovesComplete(m, mv);
    }
  }

  lemma {:induction false} GridMovesComplete(m: Grid, piece: Cell, mv: Move, n: nat)
    requires Legal(m, mv) && m[mv.oldX][mv.oldY] == piece && mv.oldX < n <= 8
    ensures mv in GridMoves(m, piece, n, IsJump(mv))
  {
    if mv.oldX < n - 1 {
      GridMovesComplete(m, piece, mv, n - 1);
    } else {
      RowMovesComplete(m, piece, mv, 8);
    }
  }

  /** Every legal move of one of the side's men is listed, with its board. */
  lemma ValidMovesComplete(b: Board, maximizingPlayer: bool, mv: Move)
    requires Legal(b.matrix, mv) && b.matrix[mv.oldX][mv.oldY] == PieceFor(maximizingPlayer)
    ensures (ApplyMove(b, mv), mv) in ValidMoves(b, maximizingPlayer)
  {
    var ms := MoveList(b.matrix, maximizingPlayer);
    var js := GridMoves(b.matrix, PieceFor(maximizingPlayer), 8, true);
    GridMovesComplete(b.matrix, PieceFor(maximizingPlayer), mv, 8);
    var t: int;
    if IsJump(mv) {
      t :| 0 <= t < |js| && js[t] == mv;
    } else {
      var ss := GridMoves(b.matrix, PieceFor(maximizingPlayer), 8, false);
      var u :| 0 <= u < |ss| && ss[u] == mv;
      t := |js| + u;
      assert ms[t] == mv;
    }
    assert ValidMoves(b, maximizingPlayer)[t] == (ApplyMove(b, mv), mv);
  }

  /** When the side generated for is the side to move and the counters agree with the
      grid, every generated board passes the turn and keeps the counters in
      agreement, so the search's test for an empty side stays exact. */
  lemma ValidMovesKeepCounters(b: Board, maximizingPlayer: bool, t: int)
    requires CountersAgree(b) && b.playerTurn == !maximizingPlayer
    requires 0 <= t < |ValidMoves(b, maximizingPlayer)|
    ensures CountersAgree(ValidMoves(b, maximizingPlayer)[t].0)
    ensures ValidMoves(b, maximizingPlayer)[t].0.playerTurn == maximizingPlayer
  {
    var e := ValidMoves(b, maximizingPlayer)[t];
    ValidMovesSound(b, maximizingPlayer, t);
    ApplyMoveKeepsCounters(b, e.1);
  }
}
