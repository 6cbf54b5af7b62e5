# Feature extraction and negamax search of a chess move picker

This project models the core of `play_game.py`, a small program that plays chess
against a human. It picks the computer's move with a depth-limited negamax
search with alpha-beta pruning. The search scores leaf positions with a
pre-trained regressor applied to a 37-number feature vector of the position.

The model has four parts:

- **`Chess`** covers colours, pieces and the 64 squares (square = rank * 8 + file).
  It also holds the constants `PIECE_VALUES` and `CENTER_SQUARES` (D4, E4, D5,
  E5 = 27, 28, 35, 36).
  - The queries the program makes of the python-chess rules engine are fields
    of a `Rules` value: piece placement, attackers, castling rights, king
    squares, side to move, move number, legal moves, applying a move, game over.
    Every theorem holds for every such value.
  - The mutable `Board` object is a class. Its `Push` saves the position and
    its `Pop` restores it.
- **`FeatureExtraction`** models `extract_features`.
  - `Features` is the specification: each accumulator is a count of squares
    that satisfy a `Criterion`, or a total or file set over the squares.
  - `ExtractFeatures` is the imperative version: the same 64-square pass
    (`ScanSquares`, one `Tally…` method per section of the loop body),
    followed by the emission in the same order. It is proved to return exactly
    `Features`.
- **`FeatureLemmas`** states what the features mean:
  - the fixed layout of the 37 entries;
  - material as the weighted sum of the piece-count features;
  - the centre, opponent-half, outpost, development and defence bounds;
  - the meaning of the pawn-structure features.
- **`Search`** and **`SearchTheorems`** model `negamax`.
  - `AlphaBeta` is the search as a pure function. `Negamax` is the recursive
    method that walks a `Board` with push and pop. It is proved to compute
    `AlphaBeta` and to leave the board as it found it.
  - `PlainNegamax` is the same search without window or cutoff, the reference
    for the theorems:
    - fail-soft correctness for every window with alpha < beta;
    - the same score and move at the root call with (-inf, +inf);
    - which moves are examined, and which move is chosen.

Scores are integers extended with -inf and +inf, `Score = NegInf | Fin(int) | PosInf`.
`Max` keeps its first argument unless the second is strictly greater, as
Python's `max` does.

The feature named "half-open files" (play_game.py:152-154) counts the distinct
files that hold the side's *own* pawns. The comment above it describes the
usual chess meaning, but the code adds a file when a pawn of the side is
found on it, and the model follows the code (`HalfOpenFeatures`).

## Model

| member | source | states |
|---|---|---|
| Chess.Opponent | play_game.py:84 | `not color` is the other colour |
| Chess.Rank | play_game.py:48 | `square_rank`: the rank r of a square is 0 to 7 and the square lies in r·8 … r·8+7 |
| Chess.File | play_game.py:49 | `square_file`: the file is 0 to 7 and the square is rank·8 + file |
| Chess.SquareAt | play_game.py:17 | the square built from a file and a rank has that rank and file (used for D4, E4, D5, E5) |
| Chess.PieceValue | play_game.py:9-15 | `PIECE_VALUES.get(ptype, 0)`: 0 exactly for the king, at most 9 |
| Chess.PieceKindsAreKeys | play_game.py:9-15 | the kinds iterated at line 105 are exactly the keys of PIECE_VALUES, each listed once (their order is that of the literal at lines 10-14) |
| Chess.Board.Push | play_game.py:186 | the position becomes the move applied to it; the old position is saved on the stack |
| Chess.Board.Pop | play_game.py:189 | the last saved position is restored and removed from the stack |
| FeatureExtraction.Count | play_game.py:42-97 | a per-square counter over the squares below n is at most n |
| FeatureExtraction.Matches | play_game.py:44-97 | the per-square conditions of the loop body; only an occupied square holding a piece of the counter's side matches, and a per-kind counter only matches that kind |
| FeatureExtraction.OpponentHalvesSplitRanks | play_game.py:70-73 | the opponent-half tests (White rank ≥ 4, Black rank ≤ 3) split the eight ranks between the two sides |
| FeatureExtraction.OffHomeRank | play_game.py:91-92 | a rank fails the development test exactly when it is the side's home rank (0 for White, 7 for Black) |
| FeatureExtraction.HasPawnAttacker | play_game.py:86-87 | the pawn-attacker test fails for an empty attacker set and succeeds only when some attacking square is occupied |
| FeatureExtraction.SquareValue | play_game.py:52-56 | a square adds to a side's material exactly when it holds a non-king piece of that side, and at most 9 |
| FeatureExtraction.Material | play_game.py:52-56 | a side's material over the squares below n is at most 9 per square |
| FeatureExtraction.PawnFiles | play_game.py:77 | the pawn files of a side are files 0 to 7 |
| FeatureExtraction.PawnSquares | play_game.py:78 | `all_pawns[color]` lists exactly as many squares as the side has pawns, each holding a pawn of the side |
| FeatureExtraction.OnFile | play_game.py:137 | the filtered list keeps exactly the squares on the file |
| FeatureExtraction.DoubledFiles | play_game.py:136-140 | doubled files are among the side's pawn files |
| FeatureExtraction.IsolatedFiles | play_game.py:143-150 | isolated files are among the side's pawn files |
| FeatureExtraction.OpenFiles | play_game.py:33 | open files are among files 0 to 7 |
| FeatureExtraction.Flag | play_game.py:110-113 | `int(b)` is 1 when b holds and 0 otherwise |
| FeatureExtraction.CastlingSection | play_game.py:110-113 | four 0/1 entries, each 1 exactly when the matching castling right (White king side, White queen side, Black king side, Black queen side) is held |
| FeatureExtraction.DoubledFeature | play_game.py:136-140 | the doubled-pawn sum lies between 0 and the total number of both sides' pawn files |
| FeatureExtraction.IsolatedFeature | play_game.py:143-150 | the isolated-pawn sum lies between 0 and the total number of both sides' pawn files |
| FeatureExtraction.KindCounts | play_game.py:105-107 | entries 2j and 2j+1 are White's and Black's count of the j-th kind of PIECE_VALUES |
| FeatureExtraction.Features | play_game.py:100-169 | the feature vector has exactly 37 entries |
| FeatureExtraction.TallyMaterial | play_game.py:52-56 | adding one occupied square updates both material totals to the totals over one more square |
| FeatureExtraction.TallyPieceCount | play_game.py:59-60 | the per-(colour, kind) counts stay the counts over one more square |
| FeatureExtraction.TallyCentre | play_game.py:63-67 | the centre counters stay the counts of each side's pieces on D4/E4/D5/E5 over one more square |
| FeatureExtraction.TallyOpponentHalf | play_game.py:70-73 | the opponent-half counters stay the counts of White pieces on ranks 4-7 and Black pieces on ranks 0-3 |
| FeatureExtraction.TallyPawn | play_game.py:76-80 | pawn files, pawn lists, open files and "half-open" files stay the sets and lists over one more square |
| FeatureExtraction.TallyOutpost | play_game.py:83-88 | the outpost counters stay the counts of knights in the opponent's half with no pawn among the enemy attackers |
| FeatureExtraction.TallyDevelopment | play_game.py:91-93 | the development counters stay the counts of bishops and knights off the home rank |
| FeatureExtraction.TallyDefence | play_game.py:96-97 | the defence counters stay the counts of pieces attacked by their own side |
| FeatureExtraction.TallySquare | play_game.py:46-97 | one occupied square advances every accumulator from the counts below it to the counts including it |
| FeatureExtraction.EmptySquareCountsNothing | play_game.py:44-45 | an empty square changes no count, total, file set or pawn list |
| FeatureExtraction.ScanSquares | play_game.py:23-97 | after the loop over the 64 squares every accumulator holds its count, total or set over the whole board |
| FeatureExtraction.AppendPieceCounts | play_game.py:105-107 | appends White's then Black's count for pawn, knight, bishop, rook, queen in that order |
| FeatureExtraction.ExtractFeatures | play_game.py:20-171 | the returned list is exactly `Features` of the board's position |
| FeatureLemmas.CountMonotone | play_game.py:42-97 | a criterion implied by another counts no more squares |
| FeatureLemmas.CountCovered | play_game.py:42-97 | a criterion covered by two others counts no more than both together |
| FeatureLemmas.FeatureSections | play_game.py:100-169 | each section of the emitted list sits at its fixed offset (material 0-2, counts 3-12, castling 13-16, kings 17-18, turn 19, centre 20-21, opponent half 22-23, mobility and move number 24-25, pawn structure 26-30, outposts 31-32, development 33-34, defence 35-36) |
| FeatureLemmas.PieceFeatureLayout | play_game.py:100-107 | features 0 and 1 are the material totals, feature 2 their difference, features 3+2j and 4+2j the counts of kind j |
| FeatureLemmas.CountFeatureLayout | play_game.py:122-169 | each counting feature is the count or set size over the whole board that its accumulator collects |
| FeatureLemmas.SquareValueByKind | play_game.py:52-56 | a square adds 1, 3, 3, 5, 9 or 0 to its side's material by the kind of piece on it |
| FeatureLemmas.MaterialByKind | play_game.py:52-60 | a side's material is 1·pawns + 3·knights + 3·bishops + 5·rooks + 9·queens |
| FeatureLemmas.MaterialFeatures | play_game.py:100-107 | features 0 and 1 are the weighted sums of that side's piece-count features; feature 2 is feature 0 minus feature 1 |
| FeatureLemmas.CentreSquaresBelow | play_game.py:17 | there are at most 4 centre squares |
| FeatureLemmas.CentreCountsBelow | play_game.py:63-67 | both sides together occupy no more centre squares than there are |
| FeatureLemmas.CentreBound | play_game.py:63-67 | the two centre features are non-negative and sum to at most 4 |
| FeatureLemmas.OpponentHalfBound | play_game.py:70-73 | each opponent-half feature is at most the side's number of pieces |
| FeatureLemmas.OutpostsAreKnights | play_game.py:83-88 | only the side's knights are counted as outposts |
| FeatureLemmas.DevelopedAreMinors | play_game.py:91-93 | only the side's knights and bishops are counted as developed |
| FeatureLemmas.OutpostBound | play_game.py:83-88 | each outpost feature is at most the side's knight-count feature |
| FeatureLemmas.DevelopedBound | play_game.py:91-93 | each development feature is at most the side's knight plus bishop count features |
| FeatureLemmas.DefendedBound | play_game.py:96-97 | each defence feature is at most the side's number of pieces |
| FeatureLemmas.PawnFileHasPawn | play_game.py:76-77 | a file is among a side's pawn files if and only if a pawn of the side stands on it |
| FeatureLemmas.PawnFilesAtMostPawns | play_game.py:76-77 | a side has no more pawn files than pawns, and none exactly when it has no pawns |
| FeatureLemmas.FilesComplement | play_game.py:33 | a set of files has at most 8 members, and 8 minus its size lie outside it |
| FeatureLemmas.HalfOpenFeatures | play_game.py:153-154 | each "half-open" feature lies between 0 and 8, is at most the side's pawn count, and is 0 exactly when the side has no pawns |
| FeatureLemmas.OpenFilesFeature | play_game.py:157 | the open-file feature is 8 minus the number of files holding a pawn of either side |
| FeatureLemmas.OnFileAppend | play_game.py:137 | filtering pawns by file distributes over appending |
| FeatureLemmas.PawnsOnFile | play_game.py:137 | the pawns `all_pawns` lists on a file are exactly the side's pawns on that file |
| FeatureLemmas.DoubledFileHasTwoPawns | play_game.py:136-140 | a file counts as doubled for a side if and only if at least two of its pawns stand on it |
| FeatureLemmas.IsolatedFileHasNoNeighbours | play_game.py:143-150 | a file counts as isolated for a side if and only if a pawn of the side stands on it and none on file-1 or file+1 |
| FeatureLemmas.NoPawnsNoWeaknesses | play_game.py:136-150 | a side without pawns has no doubled and no isolated files |
| FeatureLemmas.PawnStructureBounds | play_game.py:136-157 | doubled and isolated features lie between 0 and the total of the two "half-open" features; without pawns they are 0 and all 8 files are open |
| Search.Max | play_game.py:195 | `max(alpha, eval)` is at least both arguments and is one of them |
| Search.Le | play_game.py:191 | score comparison: -inf is below and +inf above every score, finite scores compare as integers |
| Search.Less | play_game.py:191 | strict comparison: +inf is never below and -inf never above, finite scores compare as integers |
| Search.Neg | play_game.py:187-188 | `-eval` and `(-beta, -alpha)`: finite scores change sign, -inf and +inf swap |
| Search.LeTotalOrder | play_game.py:191 | the score comparison is a total order |
| Search.NegReverses | play_game.py:187-188 | negating a score is an involution that reverses the order |
| Search.LeafScore | play_game.py:175-180 | the leaf score is finite: the evaluation of the features when White is to move, its negation when Black is |
| Search.IsLeaf | play_game.py:175 | the search stops at depth 0 and when the game is over; an interior node has depth at least 1 |
| Search.MoveValue | play_game.py:186-188 | the value of move i is the negated child score; a child that is a leaf gives the negated leaf score |
| Search.AlphaBeta | play_game.py:174-199 | a returned move is legal; at depth 0 or game over the result is the leaf score and no move |
| Search.AlphaBetaLoop | play_game.py:185-199 | the loop never lowers the best score and returns the best move so far or a legal move |
| Search.PlainNegamax | play_game.py:174-199 | the same search without window: a returned move is legal |
| Search.PlainLoop | play_game.py:185-193 | the unpruned loop never lowers the best score and returns the best move so far or a legal move |
| Search.Evaluate | play_game.py:175-180 | the leaf score is the evaluation of the features of the position, negated when Black is to move, and finite |
| Search.Negamax | play_game.py:174-199 | the recursive search on the board returns exactly `AlphaBeta` of its entry position and leaves position and saved stack unchanged |
| Search.SearchMove | play_game.py:186-189 | push, search the child with (-beta, -alpha), negate, pop: the value is the negated child score and the board is restored |
| SearchTheorems.FailSoftNeg | play_game.py:187-188 | negating the child's answer for (-beta, -alpha) gives a fail-soft answer for (alpha, beta) |
| SearchTheorems.FailSoftStep | play_game.py:191-197 | a move that leaves alpha below beta keeps the loop's best score fail-soft |
| SearchTheorems.FailSoftCut | play_game.py:195-197 | a move that raises alpha to beta ends the loop with a fail-soft best score whatever the later moves are worth |
| SearchTheorems.AlphaBetaBounds | play_game.py:174-199 | for alpha < beta the pruned score is fail-soft for the unpruned value: exact inside the window, an upper bound at or below alpha, a lower bound at or above beta |
| SearchTheorems.AlphaBetaLoopBounds | play_game.py:185-199 | the loop invariant of the fail-soft proof carries through the rest of the moves |
| SearchTheorems.FailSoftResult | play_game.py:174-199 | a score strictly inside the window is the unpruned value; a score at most alpha bounds it from above; a score at least beta bounds it from below |
| SearchTheorems.MoveValueExact | play_game.py:186-188 | a move whose unpruned value lies strictly inside the window gets exactly that value from the pruned child search |
| SearchTheorems.PlainLoopSaturated | play_game.py:191-193 | once the best score is +inf no later move replaces it |
| SearchTheorems.RootLoopAgrees | play_game.py:185-199 | with beta = +inf and alpha equal to the best so far, the pruned loop makes the same choices as the unpruned one |
| SearchTheorems.PruningPreservesRootResult | play_game.py:233 | the root call with (-inf, +inf) returns the same score and the same move as the unpruned search |
| SearchTheorems.Examined | play_game.py:185-197 | the loop examines at most the remaining moves, and at least one when any remain |
| SearchTheorems.ExaminedWindows | play_game.py:185-197 | the first move is searched with the initial alpha, each later one with alpha raised by the previous value and still below beta, each value the negated child score |
| SearchTheorems.ExaminedStopsAtCutoff | play_game.py:195-197 | the loop stops before the last move only after a value that raised alpha to beta or more |
| SearchTheorems.FirstBestIsFirstMaximum | play_game.py:191-193 | the strict `>` scan returns a maximum of the values, and its move is the first one that attains it |
| SearchTheorems.AlphaBetaLoopIsFirstBest | play_game.py:185-199 | the pruned loop selects by the strict `>` scan over the values it examines |
| SearchTheorems.AlphaBetaSelects | play_game.py:182-199 | at an interior node the score is at least every examined value; no move means -inf and all values -inf; otherwise the move is the first examined move whose value is the score |
| SearchTheorems.PlainLoopIsFirstBest | play_game.py:185-193 | the unpruned loop selects by the strict `>` scan over all remaining move values |
| SearchTheorems.PlainNegamaxSelects | play_game.py:182-199 | without pruning the score is the maximum value over all legal moves, and the move is the first legal move of that value |

## Left out

- The regressor is left out. `joblib.load` and `model.predict` (play_game.py:5, 177) are foreign calls with a floating-point result. The evaluator is a parameter `eval: seq<int> -> int`, so leaf scores are integers.
- Scores use `Score = NegInf | Fin(int) | PosInf` in place of Python floats. NaN and rounding are not modelled.
- The python-chess rules engine is a library outside this program. Its queries are the fields of a `Rules` value, and no consistency between them is assumed.
- Chess.Board.Pop: restores the position saved by `Push` rather than undoing the move. It requires a saved position, where python-chess raises an error on an empty move stack; `Negamax` pops only after its own push.
- `attackers_cache` (play_game.py:39-40) is computed but never read, so it is not modelled.
- The interactive game loop (play_game.py:203-243) is I/O and presentation: reading moves with `input`, UCI parsing, printing, writing `Board.svg`.
- The `warnings` filter (play_game.py:1-2) is left out.
- `board.king` returning `None` on a board without a king is not modelled. A king square is always a square, as it is in every legal position.
- `negamax`'s default `depth=4` is not modelled. `Negamax` always takes the depth explicitly, as the root call at play_game.py:233 does.
- `Negamax` reads the list of legal moves once per node, where the source iterates `board.legal_moves` while pushing and popping. The two agree because every iteration restores the board before the next move is generated.
- Search.Negamax: takes `depth: nat`, so negative depths are excluded. For a negative depth the source's `depth == 0` test (play_game.py:175) never fires, and the search runs until the game is over or Python's recursion limit is hit. No call passes one: the root call at play_game.py:233 passes 2, and the recursion decrements only positive depths.
- Python integers are unbounded, and so are the model's, so no wrap-around is involved.

