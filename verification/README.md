# Infection: board engine and minimax bot

A Dafny model of the core of an Ataxx-like two-player game on a 6x6 board. In the
source it is called "infection". Each cell holds 0 (empty), 1 or 2, and player 1
moves first.

- **Moves.** A move takes a stone of the player to move to an empty cell.
  - If the destination is at distance 1 (in the king-move metric), the stone is cloned.
  - If it is at distance 2, the stone jumps and leaves its source empty.
- **Captures.** Every neighbour of the destination owned by the opponent changes hands.
  Then the turn passes.
- **End of the game.** The game ends when the player to move has no valid move. The
  player with more stones wins, and equal counts are a draw (winner 0).
- **The bot.** It chooses a move by depth-limited minimax. The root player maximises
  and the opponent minimises. A child position that ends the game scores +infinity
  or -infinity.

The model is split into these modules:

- `Wrappers`: `Option` and `Result`.
- `Moves`: the `Move` record and its distance.
  - Classification into clones and jumps.
  - Parsing from and printing to the text `"<letter><digit> <letter><digit>"`.
  - Parsing works on the UTF-8 bytes of the text. The source subtracts the bases `'a'`
    and `'1'` with `u8` wrap-around and then casts to `i8`, and the model does the same.
- `Board`: the field as a flat sequence of 36 cells (cell `(x, y)` at `y*6 + x`), the
  player to move, and `new`, `default`, `get`, `set`, `is_valid_position` and
  `is_valid_move`.
- `MoveGen`: `valid_moves`.
  - The source's nested loops become one walk over 36 x 24 candidate steps.
  - The walk is proved equal to a reference enumeration `Legal`.
  - It lists every legal move exactly once, in loop order.
- `Play`: `make_move` and `get_winner`.
  - `make_move` performs the clone or jump, then the neighbour sweep, then the turn
    change and the verdict.
  - `get_winner` counts stones once no move is left.
- `Scores`: the search values. They are `f32` in the source and the reals extended with
  both infinities here.
- `Search`: the `Game` interface as a record of functions, and the bot's `minimax` and
  `decide` over any lawful game. A game is lawful when every move it offers is accepted.
- `FieldBot`: the board offered through `Game`, and what the search's guarantees become
  on it.

One quirk of the source is modelled as written. Inside `minimax`, a child move that ends
the game *overwrites* the running value with +infinity or -infinity. Only non-terminal
children are folded with `max`/`min`. So a node's value depends only on its last
game-ending child and the children after it (`Search.FoldOverwrite`,
`Search.MinimaxAfterLastTerminal`).

## Model

| member | source | states |
|---|---|---|
| Moves.Distance | src/infection/field.rs:56-60 | The distance is the larger of the absolute coordinate differences, and it is 0 exactly when source and destination coincide |
| Moves.Classification | src/infection/field.rs:62-72 | Clones (distance 1) and jumps (distance 2) are disjoint and together make up the valid moves, which are the destinations in the 5x5 box around the source, centre excluded |
| Moves.Split | src/infection/field.rs:24 | Splitting yields one more part than there are separators, and no part contains the separator |
| Moves.SplitJoin | src/infection/field.rs:24 | Joining the parts of a split with the separator gives back the original text |
| Moves.FromText | src/infection/field.rs:22-45 | `from_string`: a parsed move is always valid (distance 1 or 2), and the text it came from holds exactly one space; `Moves.FromTextExact` characterises the accepted texts completely |
| Moves.FromTextExact | src/infection/field.rs:22-45 | Parsing succeeds exactly when the text is two 2-byte words around one space and the decoded move (with wrap-around) is valid, and then it yields that move |
| Moves.ToText | src/infection/field.rs:46-54 | Printing a move whose characters are ASCII gives a 5-byte text of the shape the parser accepts, which decodes back to the same coordinates |
| Moves.RoundTrip | src/infection/field.rs:22-54 | Parsing a printed move gives the move back if it is valid and nothing otherwise |
| Moves.OnBoardText | src/infection/field.rs:46-54 | On-board coordinates print as a letter `a`..`f`, a digit `1`..`6`, a space, then a letter and a digit again |
| Moves.DecodeClone | src/infection/field.rs:22-45 | `a1 b1` parses as the clone from (0,0) to (1,0) |
| Moves.DecodeOffBoard | src/infection/field.rs:31-44 | Parsing checks no board bounds: `z1 z2` yields a move at column 25 |
| Moves.DecodeRejectsStay | src/infection/field.rs:42 | A move onto its own source cell (`a1 a1`) is rejected |
| Moves.DecodeRejectsFar | src/infection/field.rs:42 | A move of distance 3 (`a1 d1`) is rejected |
| Moves.DecodeRejectsUnsplit | src/infection/field.rs:24-25 | Text without the separating space is rejected |
| Board.PosAt | src/infection/field.rs:87-91 | Raster order visits on-board positions, and position number `i` sits at cell index `i` |
| Board.Get | src/infection/field.rs:97-100 | A read yields a value exactly for on-board positions |
| Board.Set | src/infection/field.rs:102-106 | A write fails exactly off the board; otherwise the written cell reads back the value, and no other cell and not the player to move change |
| Board.New | src/infection/field.rs:85 | The new field is empty, well formed, and player 1 is to move |
| Board.Default | src/infection/field.rs:137-144 | The starting field has player 1 in corners (0,0) and (5,5), player 2 in (5,0) and (0,5), every other cell empty, and player 1 to move |
| Board.IsValidMove | src/infection/field.rs:108-115 | A move is legal exactly when it is a clone or jump between on-board cells, from a cell of the player to move to an empty cell |
| MoveGen.OffsetIndex | src/infection/field.rs:159-161 | Every non-zero offset in the 5x5 box is produced by some step of the inner loops (its dx-major step number) |
| MoveGen.OffsetIndexOfOffsetAt | src/infection/field.rs:159-161 | No two inner-loop steps produce the same offset: the step number of a step's offset is that step |
| MoveGen.CandidateAtIndex | src/infection/field.rs:154-163 | Every move within the 5x5 box of an on-board source is tried at loop step `CandidateIndex(m)`, which lies in its source cell's block |
| MoveGen.CandidateIndexOfCandidate | src/infection/field.rs:154-163 | No two loop steps try the same move: the step number of a step's move is that step, so with `MoveGen.CandidateAtIndex` each candidate is tried exactly once |
| MoveGen.PrecedesByIndex | src/infection/field.rs:154-163 | The loops try candidates in source raster order and then by `dx` and `dy`, and that order is the order of loop steps |
| MoveGen.LegalSound | src/infection/field.rs:164 | Only moves that pass `is_valid_move` are listed |
| MoveGen.KeptStepsOrdered | src/infection/field.rs:154-169 | Moves are pushed at strictly increasing loop steps |
| MoveGen.LegalAtSteps | src/infection/field.rs:154-169 | Each listed move is the candidate of the step that pushed it |
| MoveGen.Enumerate | src/infection/field.rs:151-174 | The loops of `valid_moves` with their `HashSet`: they only ever push, so the moves pushed earlier stay a prefix, and everything pushed is legal; `MoveGen.EnumerateIsLegal` gives the exact output |
| MoveGen.EnumerateIsLegal | src/infection/field.rs:152-169 | The `HashSet` check on clones never rejects anything: the loop's output equals the plain filter of the candidates |
| MoveGen.LegalComplete | src/infection/field.rs:154-169 | Every legal move whose step is not yet passed is listed |
| MoveGen.LegalExact | src/infection/field.rs:151-174 | The filtered candidates are exactly the legal moves, in loop order |
| MoveGen.ValidMoves | src/infection/field.rs:151-174 | `valid_moves` lists a move exactly when it is legal, in loop order |
| MoveGen.ValidMovesDistinct | src/infection/field.rs:165-169 | No move is listed twice |
| Play.Count | src/infection/field.rs:120-129 | Counting a player's stones gives the number of cells holding that value |
| Play.GetWinner | src/infection/field.rs:118-133 | No verdict while a legal move exists; otherwise 0 on equal stone counts and else the player with more stones |
| Play.NeighbourIndex | src/infection/field.rs:185-187 | Each of the eight neighbour offsets has its own step in the capture loops |
| Play.NeighbourPos | src/infection/field.rs:185-188 | Step `n` of the capture loops visits a neighbour of the destination that no later step visits again |
| Play.SweepStepCell | src/infection/field.rs:188-191 | Doing capture step `n` and then the rest of the sweep has the same effect on every cell as the sweep from step `n`: a visited cell owned by the opponent becomes the mover's, and any other cell keeps its value |
| Play.Capture | src/infection/field.rs:185-193 | The capture sweep never changes the player to move |
| Play.CaptureCells | src/infection/field.rs:185-193 | After the sweep, exactly the swept neighbours that belonged to the opponent are the mover's, and other cells are as before |
| Play.Apply | src/infection/field.rs:179-195 | The body of `make_move` after the legality check: the mover's stone ends on the destination and the turn passes with `1 + p % 2`; `Play.MakeMoveCells` gives every other cell |
| Play.MakeMove | src/infection/field.rs:176-198 | An illegal move is refused and leaves the field untouched; an accepted one hands the turn to the other player and reports the verdict of the new field |
| Play.MakeMoveCells | src/infection/field.rs:179-193 | After an accepted move, the destination is the mover's, a jump empties the source, a clone keeps it, opponent neighbours of the destination are the mover's, and no other cell changes |
| Play.ValidMovesApply | src/infection/field.rs:151-177 | `make_move` accepts every move `valid_moves` lists |
| Play.MakeMoveKeepsWellFormed | src/infection/field.rs:176-195 | A move keeps cells in {0,1,2} and the player to move in {1,2}, and it alternates the player |
| Play.VerdictMatchesMoves | src/infection/field.rs:118-119 | The game goes on after a move exactly when the next player has a valid move, and any verdict is 0, 1 or 2 |
| Play.DefaultOpening | src/infection/field.rs:137-198 | From the starting field, `a1 b1` parses, is legal, keeps the game going, gives (1,0) to player 1 and hands the turn to player 2 |
| Scores.LeTotalOrder | src/bot.rs:47 | The comparison of scores (non-NaN `f32`) is a total order |
| Scores.Max | src/bot.rs:68 | `max` yields one of its arguments and is above both |
| Scores.Min | src/bot.rs:81 | `min` yields one of its arguments and is below both |
| Search.Heuristic | src/bot.rs:23-25 | A leaf is scored by the evaluator from the root player's side, whoever is to move, and the score is never infinite |
| Search.Minimax | src/bot.rs:55-85 | `minimax`: at the depth limit the value is the evaluation for the root player; a node without moves is -infinity when the root player is to move and +infinity otherwise; `Search.MinimaxAlternates` and `Search.MinimaxAfterLastTerminal` give the general case |
| Search.Children | src/bot.rs:60-61 | A node has one child contribution per move offered |
| Search.ChildrenAt | src/bot.rs:60-67 | The `i`-th child contribution depends only on the state and the `i`-th move, because each is played on a fresh copy |
| Search.FoldSearched | src/bot.rs:67-69 | Without game-ending children, a maximising fold is above the start and every child and a minimising one below, and it equals the start or some child |
| Search.FoldOverwrite | src/bot.rs:62-65 | A game-ending child discards everything folded before it |
| Search.OverwriteExample | src/bot.rs:62-65 | A won child followed by a lost one gives -infinity however good the won one was |
| Search.FoldAfterLastTerminal | src/bot.rs:60-69 | A fold's value is bounded by, and equal to one of, the last game-ending child and the children after it |
| Search.MinimaxAlternates | src/bot.rs:57-84 | Without game-ending children, the root player's node is the maximum of its children and the opponent's node is their minimum; a node without moves is -infinity or +infinity respectively |
| Search.MinimaxAfterLastTerminal | src/bot.rs:57-84 | A node's value is determined by its last game-ending child and the children after it, max or min according to who is to move |
| Search.RootTerminalScore | src/bot.rs:40-41 | A root move that ends the game scores +infinity exactly when the deciding player wins and -infinity otherwise, draws included |
| Search.FirstBestStep | src/bot.rs:47-50 | The strict `>` update keeps the first of the best-scoring moves |
| Search.Decide | src/bot.rs:27-53 | Nothing exactly when there is no move; otherwise an offered move that is accepted and is the first with the largest root score; a single move is always chosen |
| FieldBot.FieldGameLawful | src/bot.rs:38-40 | On the board the `unwrap` of `make_move` never fails, because every listed move is accepted |
| FieldBot.SearchedChildHasMoves | src/bot.rs:62-67 | The search descends below a move exactly when the next player has a valid move |
| FieldBot.DrawIsLoss | src/bot.rs:40-41 | On the board, a root move that ends in a draw scores -infinity |
| FieldBot.DecideField | src/bot.rs:27-53 | On the board, `decide` gives nothing exactly when there is no valid move; otherwise a legal, accepted move, the first with the largest root score |

## Left out

- The terminal front end (`src/main.rs`) and all console I/O, including the `println!` of each root score in `decide` and the `Display` impl of `Move`: these are output only.
- Search.Heuristic: the analyzers behind `heuristic` and the random jitter it adds are one fixed function `eval` of the bot, so randomness is not modelled. In the source each call draws a fresh jitter in (-0.01, 0.01), while here two evaluations of one state agree, and nothing bounds `eval`'s distance from the analyzer's score.
- `f32` arithmetic: scores are exact reals plus the two infinities, so NaN, rounding and signed zero are not modelled.
- The integer widths of the bot: `max_depth` and `depth` are `u32` in the source and `nat` here, and `depth + 1` never wraps. Termination of the search follows from `max_depth - depth` decreasing.
- Debug builds panic on `u8` underflow in `from_string` (for example a byte below `'a'`). The model follows release builds, which wrap.
- Moves.ToText: requires every printed byte to be ASCII. The source's `as u8` wrap for negative or large coordinates, and the two-byte UTF-8 characters it then pushes, are not modelled.
- The `HashSet` in `valid_moves` is modelled as membership in the moves pushed so far. It is proved never to reject a move, which is `MoveGen.EnumerateIsLegal`.
- `Field::into_iter` is not modelled as an iterator. Its raster order is `Board.PosAt`, which the move generator uses. The stone count of `get_winner` counts over all 36 cells as a multiset, so its order does not matter.
- The field is a flat 36-cell sequence rather than the source's `data[y][x]` rows, and `clone()` is value semantics.
- `set` in the source mutates the field and returns `Result<(), ()>`. Here it returns the updated field or `Err`. The `?` error exits in `make_move` cannot happen after `is_valid_move` and are not modelled as separate paths.
- `Bot::new` only stores its two arguments and is not modelled separately.
- The search is written for any state type through the `Game` interface and instantiated with the board in `FieldBot`. The source's `Bot` is written for `Field` only.
