/** The static evaluator: mate and stalemate first, then material. */
module Evaluation {
  import opened Chess

  /** The magnitude of a checkmate score. */
  const MateScore: int := 1000

  /** The most material one side can hold on 64 squares at 9 a piece. */
  const MaxMaterial: int := 9 * 64

  function PieceValue(kind: PieceType): (v: nat)
    ensures v <= 9
    ensures v == 0 <==> kind == King
  {
    match kind
    case Pawn => 1
    case Knight => 3
    case Bishop => 3
    case Rook => 5
    case Queen => 9
    case King => 0
  }

  /** The contribution of one square: White adds, Black subtracts. */
  function SignedValue(square: Option<Piece>): (v: int)
    ensures -9 <= v <= 9
  {
    match square
    case None => 0
    case Some(p) =>
      var value: int := PieceValue(p.kind);
      if p.color == White then value else -value
  }

  /** The material balance of a list of squares, summed first to last. */
  function Material(squares: seq<Option<Piece>>): (m: int)
    ensures -9 * |squares| <= m <= 9 * |squares|
  {
    if squares == [] then 0
    else Material(squares[..|squares| - 1]) + SignedValue(squares[|squares| - 1])
  }

  /** The total value of the pieces of one colour. */
  function ColorTotal(squares: seq<Option<Piece>>, color: Color): nat
  {
    if squares == [] then 0
    else
      var last := squares[|squares| - 1];
      ColorTotal(squares[..|squares| - 1], color)
      + (if last.Some? && last.value.color == color then PieceValue(last.value.kind) else 0)
  }

  /** The material balance is White's total minus Black's total. */
  lemma {:induction false} MaterialIsDifference(squares: seq<Option<Piece>>)
    ensures Material(squares) == ColorTotal(squares, White) - ColorTotal(squares, Black)
  {
    if squares != [] {
      MaterialIsDifference(squares[..|squares| - 1]);
    }
  }

  function Opponent(c: Color): Color {
    if c == White then Black else White
  }

  /** The same squares with the colour of every piece swapped. */
  function SwapColors(squares: seq<Option<Piece>>): (r: seq<Option<Piece>>)
    ensures |r| == |squares|
  {
    seq(|squares|, i requires 0 <= i < |squares| =>
      match squares[i]
      case None => None
      case Some(p) => Some(Piece(p.kind, Opponent(p.color))))
  }

  /** Swapping the colours of all pieces negates the material balance. */
  lemma {:induction false} MaterialColorSwap(squares: seq<Option<Piece>>)
    ensures Material(SwapColors(squares)) == -Material(squares)
  {
    if squares != [] {
      var n := |squares|;
      assert SwapColors(squares)[..n - 1] == SwapColors(squares[..n - 1]);
      MaterialColorSwap(squares[..n - 1]);
    }
  }

  /** The 64 squares of the position after history `h`, a1 first. */
  function Occupancy(g: Rules, h: History): (squares: seq<Option<Piece>>)
    ensures |squares| == 64
  {
    seq(64, sq requires 0 <= sq < 64 => g.pieceAt(h, sq))
  }

  /** The score of the position after `h`, positive when White is ahead:
      checkmate is worth MateScore against the side to move, stalemate
      is 0, and otherwise the material balance counts. Mate scores lie
      strictly outside every material score, so only a checkmate reaches
      the magnitude MateScore. */
  function Evaluate(g: Rules, h: History): (score: int)
    ensures -MateScore <= score <= MateScore
    ensures (score == MateScore || score == -MateScore) <==> g.isCheckmate(h)
    ensures g.isCheckmate(h) ==> (score < 0 <==> g.whiteToMove(h))
    ensures !g.isCheckmate(h) && g.isStalemate(h) ==> score == 0
    ensures !g.isCheckmate(h) ==> -MaxMaterial <= score <= MaxMaterial
  {
    if g.isCheckmate(h) then (if g.whiteToMove(h) then -MateScore else MateScore)
    else if g.isStalemate(h) then 0
    else Material(Occupancy(g, h))
  }
}
