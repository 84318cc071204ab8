/**
 * The static evaluator and the outcome classification, over an abstract
 * position record: the terminal flags the rules engine reports, the side
 * to move, the piece counts of each side and the occupants of the four
 * centre squares. Every score is from White's point of view.
 */
module Evaluator {
  import opened Options

  datatype Color = White | Black
  datatype PieceKind = Pawn | Knight | Bishop | Rook | Queen | King

  /** How many pieces of each kind one side has on the board. */
  datatype Counts = Counts(pawns: nat, knights: nat, bishops: nat, rooks: nat, queens: nat, kings: nat)
  {
    function Of(kind: PieceKind): nat {
      match kind
      case Pawn => pawns
      case Knight => knights
      case Bishop => bishops
      case Rook => rooks
      case Queen => queens
      case King => kings
    }
  }

  /**
   * What the evaluator and the search can ask of a position. The game-over
   * flag is reported separately by the rules engine: it also covers draws
   * by move counters and repetition, which are none of the other three.
   */
  datatype Position = Position(
    turn: Color,
    isCheckmate: bool,
    isStalemate: bool,
    isInsufficientMaterial: bool,
    isGameOver: bool,
    white: Counts,
    black: Counts,
    d4: Option<Color>,
    d5: Option<Color>,
    e4: Option<Color>,
    e5: Option<Color>)
  {
    function Pieces(kind: PieceKind, color: Color): nat {
      if color == White then white.Of(kind) else black.Of(kind)
    }
  }

  const MateScore: int := 10000
  const CentreBonus: int := 20

  function PieceValue(kind: PieceKind): int {
    match kind
    case Pawn => 100
    case Knight => 300
    case Bishop => 350
    case Rook => 500
    case Queen => 900
    case King => 0
  }

  /** The piece kinds in the order the evaluator visits them. */
  const PieceOrder: seq<PieceKind> := [Pawn, Knight, Bishop, Rook, Queen, King]

  /** The occupants of d4, d5, e4 and e5, in the order the evaluator visits them. */
  function CentreSquares(p: Position): seq<Option<Color>> {
    [p.d4, p.d5, p.e4, p.e5]
  }

  /** Material balance over the given piece kinds. */
  function MaterialOver(p: Position, kinds: seq<PieceKind>): int {
    if kinds == [] then 0
    else
      var k := kinds[|kinds| - 1];
      MaterialOver(p, kinds[..|kinds| - 1])
        + p.Pieces(k, White) * PieceValue(k) - p.Pieces(k, Black) * PieceValue(k)
  }

  /** Centre-control bonus over the given squares. */
  function CentreOver(squares: seq<Option<Color>>): int {
    if squares == [] then 0
    else
      CentreOver(squares[..|squares| - 1]) + SquareBonus(squares[|squares| - 1])
  }

  /** The bonus one centre square contributes: plus for White, minus for Black. */
  function SquareBonus(occupant: Option<Color>): int {
    match occupant
    case Some(c) => if c == White then CentreBonus else -CentreBonus
    case None => 0
  }

  predicate IsDecided(p: Position) {
    p.isCheckmate || p.isStalemate || p.isInsufficientMaterial
  }

  /** Number of centre squares occupied by a piece of colour c. */
  function CentreCount(p: Position, c: Color): nat {
    (if p.d4 == Some(c) then 1 else 0) + (if p.d5 == Some(c) then 1 else 0)
      + (if p.e4 == Some(c) then 1 else 0) + (if p.e5 == Some(c) then 1 else 0)
  }

  /** Material weight times count difference, summed over all six kinds. */
  function MaterialBalance(p: Position): int {
    100 * (p.white.pawns - p.black.pawns)
      + 300 * (p.white.knights - p.black.knights)
      + 350 * (p.white.bishops - p.black.bishops)
      + 500 * (p.white.rooks - p.black.rooks)
      + 900 * (p.white.queens - p.black.queens)
  }

  /**
   * The value the evaluator assigns to a position: the mate score against
   * the side to move when it is checkmated, 0 for stalemate or insufficient
   * material, and otherwise the weighted material difference (the king
   * weighs nothing) plus 20 per White-held centre square and minus 20 per
   * Black-held one.
   */
  function StaticScore(p: Position): (r: int)
    ensures IsDecided(p) ==> r == -MateScore || r == 0 || r == MateScore
    ensures !IsDecided(p) ==> r == MaterialOver(p, PieceOrder) + CentreOver(CentreSquares(p))
  {
    RunningSumClosedForm(p);
    if p.isCheckmate then (if p.turn == White then -MateScore else MateScore)
    else if p.isStalemate || p.isInsufficientMaterial then 0
    else MaterialBalance(p) + CentreBonus * (CentreCount(p, White) - CentreCount(p, Black))
  }

  /** Adding up the piece kinds one at a time gives the weighted material difference. */
  lemma MaterialClosedForm(p: Position)
    ensures MaterialOver(p, PieceOrder) == MaterialBalance(p)
  {
    var ks := PieceOrder;
    var w, b := p.white, p.black;
    assert ks[..1][..0] == [];
    assert MaterialOver(p, ks[..1]) == 100 * (w.pawns - b.pawns);
    assert ks[..2][..1] == ks[..1];
    assert MaterialOver(p, ks[..2]) == MaterialOver(p, ks[..1]) + 300 * (w.knights - b.knights);
    assert ks[..3][..2] == ks[..2];
    assert MaterialOver(p, ks[..3]) == MaterialOver(p, ks[..2]) + 350 * (w.bishops - b.bishops);
    assert ks[..4][..3] == ks[..3];
    assert MaterialOver(p, ks[..4]) == MaterialOver(p, ks[..3]) + 500 * (w.rooks - b.rooks);
    assert ks[..5][..4] == ks[..4];
    assert MaterialOver(p, ks[..5]) == MaterialOver(p, ks[..4]) + 900 * (w.queens - b.queens);
    assert ks[..6][..5] == ks[..5];
    assert ks[..6] == ks;
  }

  /** Adding up the centre squares one at a time gives 20 per White square minus 20 per Black one. */
  lemma CentreClosedForm(p: Position)
    ensures CentreOver(CentreSquares(p)) == CentreBonus * (CentreCount(p, White) - CentreCount(p, Black))
  {
    var sq := CentreSquares(p);
    assert sq[..1][..0] == [];
    assert CentreOver(sq[..1]) == SquareBonus(p.d4);
    assert sq[..2][..1] == sq[..1];
    assert CentreOver(sq[..2]) == CentreOver(sq[..1]) + SquareBonus(p.d5);
    assert sq[..3][..2] == sq[..2];
    assert CentreOver(sq[..3]) == CentreOver(sq[..2]) + SquareBonus(p.e4);
    assert sq[..4][..3] == sq[..3];
    assert sq[..4] == sq;
  }

  /**
   * The evaluator's running sum, one piece kind and then one centre square
   * at a time, adds up to the weighted material difference plus the centre
   * bonus.
   */
  lemma RunningSumClosedForm(p: Position)
    ensures MaterialOver(p, PieceOrder) + CentreOver(CentreSquares(p))
            == MaterialBalance(p) + CentreBonus * (CentreCount(p, White) - CentreCount(p, Black))
  {
    MaterialClosedForm(p);
    CentreClosedForm(p);
  }

  /** A checkmate scores the full mate score against the side to move. */
  lemma CheckmateScore(p: Position)
    requires p.isCheckmate
    ensures p.turn == White ==> StaticScore(p) == -MateScore
    ensures p.turn == Black ==> StaticScore(p) == MateScore
  {
  }

  /** The same position with the colours exchanged and the board flipped top to bottom. */
  function Mirror(p: Position): Position {
    Position(
      if p.turn == White then Black else White,
      p.isCheckmate, p.isStalemate, p.isInsufficientMaterial, p.isGameOver,
      p.black, p.white,
      Swap(p.d5), Swap(p.d4), Swap(p.e5), Swap(p.e4))
  }

  function Swap(o: Option<Color>): Option<Color> {
    match o
    case Some(c) => Some(if c == White then Black else White)
    case None => None
  }

  /** The evaluator is colour-symmetric: exchanging the sides negates the score. */
  lemma MirrorNegates(p: Position)
    ensures StaticScore(Mirror(p)) == -StaticScore(p)
  {
    var m := Mirror(p);
    assert MaterialBalance(m) == -MaterialBalance(p);
    assert CentreCount(m, White) == CentreCount(p, Black);
    assert CentreCount(m, Black) == CentreCount(p, White);
  }

  /** The initial position of chess, White to move. */
  function StartPosition(): Position {
    var side := Counts(8, 2, 2, 2, 1, 1);
    Position(White, false, false, false, false, side, side, None, None, None, None)
  }

  /** The starting position is balanced. */
  lemma StartPositionBalanced()
    ensures StaticScore(StartPosition()) == 0
  {
  }

  datatype Outcome = Win | Loss | Draw | Ongoing

  /** The outcome from White's side. */
  function GoalTest(p: Position): (r: Outcome)
    ensures r == Win <==> p.isCheckmate && p.turn != White
    ensures r == Loss <==> p.isCheckmate && p.turn == White
    ensures r == Ongoing <==> !IsDecided(p)
  {
    if p.isCheckmate then (if p.turn != White then Win else Loss)
    else if p.isStalemate || p.isInsufficientMaterial then Draw
    else Ongoing
  }

  /** The terminal reward the game loop derives from an outcome. */
  function TerminalReward(o: Outcome): (r: int)
    ensures -1 <= r <= 1
    ensures r == 1 <==> o == Win
    ensures r == -1 <==> o == Loss
  {
    if o == Win then 1 else if o == Loss then -1 else 0
  }

  /**
   * The classification agrees with the evaluator: a decided position is
   * scored at the mate score times its terminal reward, and only
   * undecided positions are Ongoing.
   */
  lemma GoalTestMatchesScore(p: Position)
    ensures GoalTest(p) == Ongoing <==> !IsDecided(p)
    ensures IsDecided(p) ==> StaticScore(p) == MateScore * TerminalReward(GoalTest(p))
  {
  }
}
