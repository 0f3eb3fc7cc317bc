/** The board engine offered to the bot through the `Game` interface, and what the bot's
    guarantees become on the infection board. */
module FieldBot {
  import opened Wrappers
  import opened Moves
  import opened Board
  import opened MoveGen
  import opened Play
  import opened Scores
  import opened Search

  /** `impl Game for Field`: the moves are `valid_moves`, a move is played on a copy of the
      field with `make_move`, and the player to move is `current_player_id`. */
  const FieldGame: Game<Field, Move> :=
    Game(
      (f: Field) => ValidMoves(f),
      (f: Field, m: Move) => (MakeMove(f, m).after, MakeMove(f, m).result),
      (f: Field) => f.current)

  /** Every move `valid_moves` offers is accepted by `make_move`. */
  lemma FieldGameLawful()
    ensures Lawful(FieldGame)
  {
    forall f, m | m in FieldGame.moves(f)
      ensures FieldGame.play(f, m).1.Ok?
    {
      ValidMovesApply(f, m);
    }
  }

  /** The search goes below a move exactly when the next player has a move, so `minimax`
      is never entered on a field without moves. */
  lemma SearchedChildHasMoves(bot: Bot<Field>, f: Field, player: Byte, depth: nat, m: Move)
    requires depth <= bot.maxDepth && m in ValidMoves(f)
    ensures Lawful(FieldGame)
    ensures Child(bot, FieldGame, f, player, depth, m).Searched? <==> |ValidMoves(MakeMove(f, m).after)| > 0
  {
    FieldGameLawful();
    ValidMovesApply(f, m);
    VerdictMatchesMoves(f, m);
  }

  /** On the board, a root move that ends in a draw scores as a loss for the deciding player. */
  lemma DrawIsLoss(bot: Bot<Field>, f: Field, m: Move)
    requires WellFormed(f) && m in ValidMoves(f)
    ensures Lawful(FieldGame)
    ensures MakeMove(f, m).result == Ok(Some(0)) ==> RootScore(bot, FieldGame, f, m) == NegInf
  {
    FieldGameLawful();
    if MakeMove(f, m).result == Ok(Some(0)) {
      RootTerminalScore(bot, FieldGame, f, m);
    }
  }

  /** `decide` on a field: nothing exactly when there is no valid move; otherwise a legal
      move that `make_move` accepts, the first one with the largest root score. */
  method DecideField(bot: Bot<Field>, f: Field) returns (r: Option<Move>)
    ensures r.None? <==> |ValidMoves(f)| == 0
    ensures r.Some? ==> IsValidMove(f, r.value) && MakeMove(f, r.value).result.Ok?
    ensures r.Some? ==> Lawful(FieldGame) && exists k :: FirstBest(RootScores(bot, FieldGame, f), k) && ValidMoves(f)[k] == r.value
  {
    FieldGameLawful();
    r := Decide(bot, FieldGame, f);
  }
}
