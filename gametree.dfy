/**
 * The rules engine as the decision engine sees it. A position is named by
 * the path of moves that leads to it from the position the game loop
 * hands over, and the engine answers every question about it (legal moves
 * in its enumeration order, the evaluator's view of the position, the
 * position key) as a function of that path. The board is the one shared
 * mutable object: a move stack that the search pushes onto and pops from.
 */
module GameTree {
  import opened Options
  import opened Evaluator

  /** A move: origin and target square and an optional promotion piece. */
  datatype Move = Move(from: nat, to: nat, promotion: Option<PieceKind>)

  datatype Game = Game(
    legal: seq<Move> -> seq<Move>,
    position: seq<Move> -> Position,
    fen: seq<Move> -> string,
    uci: Move -> string)

  class Board {
    const game: Game
    var stack: seq<Move>

    constructor (game: Game, played: seq<Move>)
      ensures this.game == game && stack == played
    {
      this.game := game;
      stack := played;
    }

    function Current(): Position
      reads this
    {
      game.position(stack)
    }

    function LegalMoves(): seq<Move>
      reads this
    {
      game.legal(stack)
    }

    function Fen(): string
      reads this
    {
      game.fen(stack)
    }

    predicate IsGameOver()
      reads this
    {
      Current().isGameOver
    }

    method Push(m: Move)
      modifies this
      ensures stack == old(stack) + [m]
    {
      stack := stack + [m];
    }

    method Pop() returns (m: Move)
      requires stack != []
      modifies this
      ensures old(stack) == stack + [m]
      ensures stack == old(stack)[..|old(stack)| - 1] && m == old(stack)[|old(stack)| - 1]
    {
      m := stack[|stack| - 1];
      stack := stack[..|stack| - 1];
    }
  }
}
