/** The bot: fixed-depth minimax over any game offered through the `Game` interface,
    driven by an evaluator. */
module Search {
  import opened Wrappers
  import opened Moves
  import opened Scores

  /** The `Game` interface as the bot uses it: the valid moves of a state, the copy of a
      state after a move together with what `make_move` returned, and the player to move. */
  datatype Game<!S, !M> = Game(moves: S -> seq<M>, play: (S, M) -> (S, Result<Option<Byte>>), turn: S -> Byte)

  /** Every move a state offers is accepted by `make_move`, so the bot's `unwrap` never fails. */
  ghost predicate Lawful<S(!new), M(!new)>(g: Game<S, M>) {
    forall s, m :: m in g.moves(s) ==> g.play(s, m).1.Ok?
  }

  /** Search configuration. `eval` is the evaluator plus the random jitter added to it,
      taken as a fixed function of the perspective player and the state. */
  datatype Bot<!S> = Bot(maxDepth: nat, eval: (Byte, S) -> real)

  /** The leaf score: the evaluator's value from the root player's side, never infinite. */
  function Heuristic<S>(bot: Bot<S>, player: Byte, s: S): (r: Score)
    ensures r.Fin? && r.r == bot.eval(player, s)
  {
    Fin(bot.eval(player, s))
  }

  /** What one child contributes to its parent: the ±infinity of a move that ends the game,
      or the searched value of the position it leads to. */
  datatype ChildValue = Terminal(score: Score) | Searched(score: Score)

  /** The value of a game-ending move for `player`: a draw counts as a loss. */
  function TerminalScore(winner: Byte, player: Byte): Score {
    if winner == player then PosInf else NegInf
  }

  /** One step of the loop over the children: a game-ending child overwrites the running
      value, any other child is folded in with `max` or `min`. */
  function Step(acc: Score, c: ChildValue, maximize: bool): Score {
    match c
    case Terminal(s) => s
    case Searched(s) => if maximize then Max(acc, s) else Min(acc, s)
  }

  function Fold(cs: seq<ChildValue>, acc: Score, maximize: bool): Score {
    if |cs| == 0 then acc else Fold(cs[1..], Step(acc, cs[0], maximize), maximize)
  }

  /** `minimax`: the evaluator at the depth limit; otherwise a maximising node when the root
      player is to move, a minimising one when the opponent is. */
  function Minimax<S(!new), M(!new)>(bot: Bot<S>, g: Game<S, M>, s: S, player: Byte, depth: nat): (r: Score)
    requires Lawful(g)
    ensures depth >= bot.maxDepth ==> r == Fin(bot.eval(player, s))
    ensures depth < bot.maxDepth && |g.moves(s)| == 0 ==> r == if player == g.turn(s) then NegInf else PosInf
    decreases bot.maxDepth - depth, 2, 0
  {
    if depth >= bot.maxDepth then Heuristic(bot, player, s)
    else
      var maximize := player == g.turn(s);
      Fold(Children(bot, g, s, player, depth, 0), if maximize then NegInf else PosInf, maximize)
  }

  /** The contributions of the moves of `s` from number `k` on, in move order. */
  function Children<S(!new), M(!new)>(bot: Bot<S>, g: Game<S, M>, s: S, player: Byte, depth: nat, k: nat): (cs: seq<ChildValue>)
    requires Lawful(g) && depth < bot.maxDepth && k <= |g.moves(s)|
    ensures |cs| == |g.moves(s)| - k
    decreases bot.maxDepth - depth, 1, |g.moves(s)| - k
  {
    var moves := g.moves(s);
    if k == |moves| then []
    else [Child(bot, g, s, player, depth, moves[k])] + Children(bot, g, s, player, depth, k + 1)
  }

  /** The contribution of move `m` played on a copy of `s` at depth `depth`. */
  function Child<S(!new), M(!new)>(bot: Bot<S>, g: Game<S, M>, s: S, player: Byte, depth: nat, m: M): ChildValue
    requires Lawful(g) && depth <= bot.maxDepth && m in g.moves(s)
    decreases bot.maxDepth - depth, 0, 0
  {
    var (next, result) := g.play(s, m);
    match result.value
    case Some(w) => Terminal(TerminalScore(w, player))
    case None => Searched(Minimax(bot, g, next, player, depth + 1))
  }

  /** The score `decide` gives to root move `m`. */
  function RootScore<S(!new), M(!new)>(bot: Bot<S>, g: Game<S, M>, s: S, m: M): Score
    requires Lawful(g) && m in g.moves(s)
  {
    Child(bot, g, s, g.turn(s), 0, m).score
  }

  // ---------------------------------------------------------------------------
  // The loop over children

  predicate NoTerminal(cs: seq<ChildValue>) {
    forall k :: 0 <= k < |cs| ==> cs[k].Searched?
  }

  /** Without game-ending children a maximising fold is the largest of the start value and
      the children's values, a minimising one the smallest. */
  lemma {:induction false} FoldSearched(cs: seq<ChildValue>, acc: Score, maximize: bool)
    requires NoTerminal(cs)
    ensures maximize ==> Le(acc, Fold(cs, acc, maximize))
    ensures maximize ==> forall k :: 0 <= k < |cs| ==> Le(cs[k].score, Fold(cs, acc, maximize))
    ensures !maximize ==> Le(Fold(cs, acc, maximize), acc)
    ensures !maximize ==> forall k :: 0 <= k < |cs| ==> Le(Fold(cs, acc, maximize), cs[k].score)
    ensures Fold(cs, acc, maximize) == acc || exists k :: 0 <= k < |cs| && Fold(cs, acc, maximize) == cs[k].score
  {
    if |cs| > 0 {
      var next := Step(acc, cs[0], maximize);
      var r := Fold(cs, acc, maximize);
      assert r == Fold(cs[1..], next, maximize);
      FoldSearched(cs[1..], next, maximize);
      LeTotalOrder();
      assert forall k :: 1 <= k < |cs| ==> cs[k] == cs[1..][k - 1];
      if r != next {
        var k :| 0 <= k < |cs[1..]| && r == cs[1..][k].score;
        assert r == cs[k + 1].score;
      }
    }
  }

  /** The overwrite: a game-ending child discards everything folded before it. */
  lemma {:induction false} FoldOverwrite(pre: seq<ChildValue>, s: Score, post: seq<ChildValue>, acc: Score, maximize: bool)
    ensures Fold(pre + [Terminal(s)] + post, acc, maximize) == Fold(post, s, maximize)
    decreases |pre|
  {
    var cs := pre + [Terminal(s)] + post;
    if |pre| == 0 {
      assert cs[1..] == post;
    } else {
      assert cs[1..] == pre[1..] + [Terminal(s)] + post;
      FoldOverwrite(pre[1..], s, post, Step(acc, cs[0], maximize), maximize);
    }
  }

  /** The overwrite on two game-ending children: a maximising node whose first child wins
      and whose last child loses scores as a loss. */
  lemma OverwriteExample()
    ensures Fold([Terminal(PosInf), Searched(Fin(0.0)), Terminal(NegInf)], NegInf, true) == NegInf
  {
    FoldOverwrite([Terminal(PosInf), Searched(Fin(0.0))], NegInf, [], NegInf, true);
  }

  // ---------------------------------------------------------------------------
  // Properties of minimax

  /** A node whose moves never end the game maximises over its children when the root player
      is to move (`NegInf` without moves) and minimises when the opponent is (`PosInf` without moves). */
  lemma MinimaxAlternates<S(!new), M(!new)>(bot: Bot<S>, g: Game<S, M>, s: S, player: Byte, depth: nat)
    requires Lawful(g) && depth < bot.maxDepth
    requires NoTerminal(Children(bot, g, s, player, depth, 0))
    ensures var cs, r := Children(bot, g, s, player, depth, 0), Minimax(bot, g, s, player, depth);
      && (player == g.turn(s) ==> forall k :: 0 <= k < |cs| ==> Le(cs[k].score, r))
      && (player != g.turn(s) ==> forall k :: 0 <= k < |cs| ==> Le(r, cs[k].score))
      && (|cs| == 0 ==> r == if player == g.turn(s) then NegInf else PosInf)
      && (|cs| > 0 ==> exists k :: 0 <= k < |cs| && r == cs[k].score)
  {
    var cs, r := Children(bot, g, s, player, depth, 0), Minimax(bot, g, s, player, depth);
    var maximize := player == g.turn(s);
    var init := if maximize then NegInf else PosInf;
    FoldSearched(cs, init, maximize);
    if |cs| > 0 && r == init {
      assert Le(cs[0].score, r) || Le(r, cs[0].score);
      assert r == cs[0].score;
    }
  }

  /** Only the last game-ending child and the children after it decide a fold's value. */
  lemma FoldAfterLastTerminal(cs: seq<ChildValue>, acc: Score, maximize: bool, t: nat)
    requires t < |cs| && cs[t].Terminal? && NoTerminal(cs[t + 1..])
    ensures var r := Fold(cs, acc, maximize);
      && (maximize ==> Le(cs[t].score, r) && forall k :: t < k < |cs| ==> Le(cs[k].score, r))
      && (!maximize ==> Le(r, cs[t].score) && forall k :: t < k < |cs| ==> Le(r, cs[k].score))
      && (r == cs[t].score || exists k :: t < k < |cs| && r == cs[k].score)
  {
    var post := cs[t + 1..];
    assert cs == cs[..t] + [Terminal(cs[t].score)] + post;
    FoldOverwrite(cs[..t], cs[t].score, post, acc, maximize);
    FoldSearched(post, cs[t].score, maximize);
    assert forall k :: t < k < |cs| ==> cs[k] == post[k - t - 1];
    var r := Fold(cs, acc, maximize);
    if r != cs[t].score {
      var k :| 0 <= k < |post| && r == post[k].score;
      assert r == cs[t + 1 + k].score;
    }
  }

  /** Only the last game-ending child and the children after it decide a node's value. */
  lemma MinimaxAfterLastTerminal<S(!new), M(!new)>(bot: Bot<S>, g: Game<S, M>, s: S, player: Byte, depth: nat, t: nat)
    requires Lawful(g) && depth < bot.maxDepth
    requires t < |Children(bot, g, s, player, depth, 0)|
    requires Children(bot, g, s, player, depth, 0)[t].Terminal?
    requires NoTerminal(Children(bot, g, s, player, depth, 0)[t + 1..])
    ensures var cs, r := Children(bot, g, s, player, depth, 0), Minimax(bot, g, s, player, depth);
      && (player == g.turn(s) ==> Le(cs[t].score, r) && forall k :: t < k < |cs| ==> Le(cs[k].score, r))
      && (player != g.turn(s) ==> Le(r, cs[t].score) && forall k :: t < k < |cs| ==> Le(r, cs[k].score))
      && (r == cs[t].score || exists k :: t < k < |cs| && r == cs[k].score)
  {
    var maximize := player == g.turn(s);
    FoldAfterLastTerminal(Children(bot, g, s, player, depth, 0), if maximize then NegInf else PosInf, maximize, t);
  }

  /** Each child works on its own copy of the state: child number `i` is determined by the
      state and the `i`-th move alone. */
  lemma {:induction false} ChildrenAt<S(!new), M(!new)>(bot: Bot<S>, g: Game<S, M>, s: S, player: Byte, depth: nat, k: nat, i: nat)
    requires Lawful(g) && depth < bot.maxDepth && k + i < |g.moves(s)|
    ensures Children(bot, g, s, player, depth, k)[i] == Child(bot, g, s, player, depth, g.moves(s)[k + i])
    decreases i
  {
    var moves := g.moves(s);
    var cs := Children(bot, g, s, player, depth, k);
    assert cs == [Child(bot, g, s, player, depth, moves[k])] + Children(bot, g, s, player, depth, k + 1);
    if i > 0 {
      var k', i' := k + 1, i - 1;
      ChildrenAt(bot, g, s, player, depth, k', i');
      assert k' + i' == k + i;
      assert cs[i] == Children(bot, g, s, player, depth, k')[i'];
    }
  }

  /** A root move that ends the game scores `PosInf` if the deciding player wins and
      `NegInf` otherwise, a draw included. */
  lemma RootTerminalScore<S(!new), M(!new)>(bot: Bot<S>, g: Game<S, M>, s: S, m: M)
    requires Lawful(g) && m in g.moves(s)
    requires g.play(s, m).1.value.Some?
    ensures RootScore(bot, g, s, m) == PosInf <==> g.play(s, m).1.value.value == g.turn(s)
    ensures RootScore(bot, g, s, m) == NegInf <==> g.play(s, m).1.value.value != g.turn(s)
    ensures g.turn(s) != 0 && g.play(s, m).1.value.value == 0 ==> RootScore(bot, g, s, m) == NegInf
  {
  }

  // ---------------------------------------------------------------------------
  // The root decision

  /** The root scores of all moves, in move order. */
  function RootScores<S(!new), M(!new)>(bot: Bot<S>, g: Game<S, M>, s: S): (r: seq<Score>)
    requires Lawful(g)
    ensures |r| == |g.moves(s)|
  {
    var moves := g.moves(s);
    seq(|moves|, j requires 0 <= j < |moves| => RootScore(bot, g, s, moves[j]))
  }

  /** Entry `k` is the largest, and every earlier entry is strictly smaller. */
  predicate FirstBest(scores: seq<Score>, k: int) {
    && 0 <= k < |scores|
    && (forall j :: 0 <= j < k ==> Lt(scores[j], scores[k]))
    && (forall j :: k < j < |scores| ==> Le(scores[j], scores[k]))
  }

  /** Appending a score keeps the first largest entry unless the new score beats it strictly. */
  lemma FirstBestStep(scores: seq<Score>, best: int, x: Score)
    requires FirstBest(scores, best)
    ensures Lt(scores[best], x) ==> FirstBest(scores + [x], |scores|)
    ensures !Lt(scores[best], x) ==> FirstBest(scores + [x], best)
  {
    var t := scores + [x];
    if Lt(scores[best], x) {
      forall j | 0 <= j < |scores|
        ensures Lt(t[j], x)
      {
        if j != best {
          LtLeTrans(scores[j], scores[best], x);
        }
      }
    }
  }

  /** `decide`: nothing when there is no move; otherwise the first move with the largest score. */
  method Decide<S(!new), M(!new)>(bot: Bot<S>, g: Game<S, M>, s: S) returns (r: Option<M>)
    requires Lawful(g)
    ensures r.None? <==> |g.moves(s)| == 0
    ensures r.Some? ==> r.value in g.moves(s) && g.play(s, r.value).1.Ok?
    ensures r.Some? ==> exists k :: FirstBest(RootScores(bot, g, s), k) && g.moves(s)[k] == r.value
    ensures |g.moves(s)| == 1 ==> r == Some(g.moves(s)[0])
  {
    var moves := g.moves(s);
    if |moves| == 0 {
      return None;
    }
    var value: Option<Score> := None;
    var good: Option<M> := None;
    ghost var seen: seq<Score> := [];
    ghost var best := 0;
    var i := 0;
    while i < |moves|
      invariant 0 <= i <= |moves| && |seen| == i
      invariant seen == RootScores(bot, g, s)[..i]
      invariant value.None? <==> i == 0
      invariant i == 0 ==> good.None?
      invariant i > 0 ==> FirstBest(seen, best) && good == Some(moves[best]) && value == Some(seen[best])
    {
      var m := moves[i];
      var newvalue := RootScore(bot, g, s, m);
      if i > 0 {
        FirstBestStep(seen, best, newvalue);
      }
      if value.None? || Lt(value.value, newvalue) {
        value := Some(newvalue);
        good := Some(m);
        best := i;
      }
      assert RootScores(bot, g, s)[..i + 1] == RootScores(bot, g, s)[..i] + [newvalue];
      seen := seen + [newvalue];
      i := i + 1;
    }
    assert seen == RootScores(bot, g, s);
    r := good;
  }
}
