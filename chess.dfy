/** The interface the engine consumes from the chess rules library.
    A position is identified with the stack of moves played from the
    starting position; every rule (legal moves, game over, checkmate,
    stalemate, side to move, piece placement) is a total function of that
    stack, supplied from outside as a `Rules` value. */
module Chess {

  datatype Option<T> = None | Some(value: T)

  datatype Color = White | Black

  datatype PieceType = Pawn | Knight | Bishop | Rook | Queen | King

  datatype Piece = Piece(kind: PieceType, color: Color)

  /** Squares are numbered 0 (a1) to 63 (h8), rank by rank. */
  type Square = s: int | 0 <= s < 64

  /** An opaque move token: origin, destination and optional promotion. */
  datatype Move = Move(from: Square, to: Square, promotion: Option<PieceType>)

  /** The moves played so far, oldest first; it determines the position. */
  type History = seq<Move>

  /** The rules engine, as functions of the move history. */
  datatype Rules = Rules(
    legalMoves: History -> seq<Move>,
    isGameOver: History -> bool,
    isCheckmate: History -> bool,
    isStalemate: History -> bool,
    whiteToMove: History -> bool,
    pieceAt: (History, Square) -> Option<Piece>)

  /** What a sound rules engine guarantees: a position that is not over
      has at least one legal move (no moves means mate or stalemate). */
  ghost predicate Consistent(g: Rules) {
    forall h: History :: !g.isGameOver(h) ==> g.legalMoves(h) != []
  }

  /** The one shared, mutable board. Its state is the move stack. */
  class Board {
    const rules: Rules
    var history: History

    /** A board at the starting position. */
    constructor (rules: Rules)
      ensures this.rules == rules && history == []
    {
      this.rules := rules;
      history := [];
    }

    function LegalMoves(): seq<Move>
      reads this
    {
      rules.legalMoves(history)
    }

    predicate IsGameOver()
      reads this
    {
      rules.isGameOver(history)
    }

    predicate IsCheckmate()
      reads this
    {
      rules.isCheckmate(history)
    }

    predicate IsStalemate()
      reads this
    {
      rules.isStalemate(history)
    }

    /** The side to move. */
    function Turn(): Color
      reads this
    {
      if rules.whiteToMove(history) then White else Black
    }

    function PieceAt(square: Square): Option<Piece>
      reads this
    {
      rules.pieceAt(history, square)
    }

    /** Plays a move: it goes on top of the move stack. */
    method Push(move: Move)
      modifies this
      ensures history == old(history) + [move]
    {
      history := history + [move];
    }

    /** Takes back the most recent move and returns it; the stack must
        not be empty. */
    method Pop() returns (move: Move)
      requires history != []
      modifies this
      ensures history == old(history)[..|old(history)| - 1]
      ensures move == old(history)[|old(history)| - 1]
    {
      move := history[|history| - 1];
      history := history[..|history| - 1];
    }
  }
}
