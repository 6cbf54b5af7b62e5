/**
 * The board-to-feature-vector transform `extract_features`: a single pass over
 * the 64 squares that fills per-side accumulators, followed by the emission of
 * 37 numbers in a fixed order that the pre-trained regressor relies on.
 *
 * The specification counts, for each accumulator, the squares below `n` that
 * satisfy a `Criterion`; `ExtractFeatures` is the imperative pass, proved to
 * produce exactly `Features`.
 */
module FeatureExtraction {
  import opened Wrappers
  import opened Chess

  /** Length of every feature vector. */
  const FeatureCount := 37

  /** What a per-square counter of the pass looks for. */
  datatype Criterion =
    | OfKind(color: Color, kind: PieceType)      // piece_counts[(color, kind)]
    | Owned(color: Color)                        // any piece of that side
    | InCenter(color: Color)                     // center_control_*
    | InOpponentHalf(color: Color)               // white_in_black_half / black_in_white_half
    | OutpostKnight(color: Color)                // outpost_knights
    | DevelopedMinor(color: Color)               // developed_minors
    | Defended(color: Color)                     // defended_pieces
    | PawnOnFile(color: Color, file: int)        // pawns of that side on one file

  /** Rank 4 and above for White, rank 3 and below for Black. */
  predicate InOpponentHalfRank(c: Color, rank: int)
  {
    if c == White then rank >= 4 else rank <= 3
  }

  /** Each rank lies in exactly one side's opponent half: the halves split the board. */
  lemma OpponentHalvesSplitRanks(rank: int)
    requires 0 <= rank < 8
    ensures InOpponentHalfRank(White, rank) <==> !InOpponentHalfRank(Black, rank)
  {
  }

  /** Not on the side's home rank (rank 0 for White, rank 7 for Black). */
  predicate OffHomeRank(c: Color, rank: int)
    ensures 0 <= rank < 8 ==> (!OffHomeRank(c, rank) <==> rank == (if c == White then 0 else 7))
  {
    if c == White then rank > 0 else rank < 7
  }

  /** Some square of `attackers` holds a pawn (of either colour). */
  predicate HasPawnAttacker(b: BoardSquares, attackers: set<Square>)
    ensures attackers == {} ==> !HasPawnAttacker(b, attackers)
    ensures HasPawnAttacker(b, attackers) ==> exists a :: a in attackers && b[a].Some?
  {
    exists a :: a in attackers && b[a].Some? && b[a].value.kind == Pawn
  }

  /**
   * Square `sq` satisfies `crit`.  Only an occupied square with a piece of the
   * criterion's side can match: empty squares are skipped and every counter
   * is kept per side.
   */
  predicate Matches<P, M>(rules: Rules<P, M>, p: P, crit: Criterion, sq: Square)
    ensures Matches(rules, p, crit, sq) ==>
              rules.pieces(p)[sq].Some? && rules.pieces(p)[sq].value.color == crit.color
    ensures Matches(rules, p, crit, sq) && crit.OfKind? ==> rules.pieces(p)[sq].value.kind == crit.kind
  {
    match rules.pieces(p)[sq]
    case None => false
    case Some(pc) =>
      match crit
      case OfKind(c, k) => pc.color == c && pc.kind == k
      case Owned(c) => pc.color == c
      case InCenter(c) => pc.color == c && sq in CenterSquares
      case InOpponentHalf(c) => pc.color == c && InOpponentHalfRank(c, Rank(sq))
      case OutpostKnight(c) =>
        pc.color == c && pc.kind == Knight && InOpponentHalfRank(c, Rank(sq))
        && !HasPawnAttacker(rules.pieces(p), rules.attackers(p, Opponent(c), sq))
      case DevelopedMinor(c) =>
        pc.color == c && (pc.kind == Bishop || pc.kind == Knight) && OffHomeRank(c, Rank(sq))
      case Defended(c) => pc.color == c && |rules.attackers(p, c, sq)| > 0
      case PawnOnFile(c, f) => pc.color == c && pc.kind == Pawn && File(sq) == f
  }

  /** Number of squares below `n` that satisfy `crit`. */
  function Count<P, M>(rules: Rules<P, M>, p: P, crit: Criterion, n: nat): (k: nat)
    requires n <= 64
    ensures k <= n
  {
    if n == 0 then 0
    else Count(rules, p, crit, n - 1) + (if Matches(rules, p, crit, n - 1) then 1 else 0)
  }

  /** The value a square contributes to side `c`'s material. */
  function SquareValue(sq: Option<Piece>, c: Color): (v: nat)
    ensures v <= 9
    ensures v > 0 <==> sq.Some? && sq.value.color == c && sq.value.kind != King
  {
    match sq
    case None => 0
    case Some(pc) => if pc.color == c then PieceValue(pc.kind) else 0
  }

  /** Material of side `c` on the squares below `n`. */
  function Material<P, M>(rules: Rules<P, M>, p: P, c: Color, n: nat): (m: nat)
    requires n <= 64
    ensures m <= 9 * n
  {
    if n == 0 then 0
    else Material(rules, p, c, n - 1) + SquareValue(rules.pieces(p)[n - 1], c)
  }

  /** Files holding a pawn of side `c` among the squares below `n`. */
  function PawnFiles<P, M>(rules: Rules<P, M>, p: P, c: Color, n: nat): (files: set<int>)
    requires n <= 64
    ensures files <= AllFiles
  {
    if n == 0 then {}
    else PawnFiles(rules, p, c, n - 1)
         + (if Matches(rules, p, OfKind(c, Pawn), n - 1) then {File(n - 1)} else {})
  }

  /** The squares of side `c`'s pawns below `n`, in increasing order (`all_pawns[c]`). */
  function PawnSquares<P, M>(rules: Rules<P, M>, p: P, c: Color, n: nat): (squares: seq<Square>)
    requires n <= 64
    ensures |squares| == Count(rules, p, OfKind(c, Pawn), n)
    ensures forall i :: 0 <= i < |squares| ==> squares[i] < n && Matches(rules, p, OfKind(c, Pawn), squares[i])
  {
    if n == 0 then []
    else PawnSquares(rules, p, c, n - 1)
         + (if Matches(rules, p, OfKind(c, Pawn), n - 1) then [n - 1] else [])
  }

  /** The squares of `squares` on file `f`, in order. */
  function OnFile(squares: seq<Square>, f: int): (r: seq<Square>)
    ensures |r| <= |squares|
    ensures forall sq :: sq in r <==> sq in squares && File(sq) == f
  {
    if squares == [] then []
    else (if File(squares[0]) == f then [squares[0]] else []) + OnFile(squares[1..], f)
  }

  /** Files of `files` holding more than one of `pawns`. */
  function DoubledFiles(files: set<int>, pawns: seq<Square>): (doubled: set<int>)
    ensures doubled <= files
  {
    set f | f in files && |OnFile(pawns, f)| > 1
  }

  /** Neither file `f - 1` nor file `f + 1` is in `files`. */
  predicate NoNeighbour(files: set<int>, f: int)
  {
    f - 1 !in files && f + 1 !in files
  }

  /** Files of `files` with neither neighbouring file in `files`. */
  function IsolatedFiles(files: set<int>): (isolated: set<int>)
    ensures isolated <= files
  {
    set f | f in files && NoNeighbour(files, f)
  }

  /** Files holding no pawn of either side. */
  function OpenFiles<P, M>(rules: Rules<P, M>, p: P): (open: set<int>)
    ensures open <= AllFiles
  {
    AllFiles - (PawnFiles(rules, p, White, 64) + PawnFiles(rules, p, Black, 64))
  }

  /** `int(b)` */
  function Flag(b: bool): (i: int)
    ensures i == 0 || i == 1
    ensures i == 1 <==> b
  {
    if b then 1 else 0
  }

  /** White's then Black's count for each kind of `kinds`, in order. */
  function KindCounts<P, M>(rules: Rules<P, M>, p: P, kinds: seq<PieceType>): (counts: seq<int>)
    ensures |counts| == 2 * |kinds|
    ensures forall j :: 0 <= j < |kinds| ==>
              counts[2 * j] == Count(rules, p, OfKind(White, kinds[j]), 64)
              && counts[2 * j + 1] == Count(rules, p, OfKind(Black, kinds[j]), 64)
  {
    if kinds == [] then []
    else
      var k := kinds[|kinds| - 1];
      KindCounts(rules, p, kinds[..|kinds| - 1])
      + [Count(rules, p, OfKind(White, k), 64), Count(rules, p, OfKind(Black, k), 64)]
  }

  /** A subset is no larger than the set containing it. */
  lemma SubsetAtMost(a: set<int>, b: set<int>)
    requires a <= b
    ensures |a| <= |b|
  {
    assert b == a + (b - a);
  }

  /** The doubled-pawn feature: (side, file) pairs with more than one pawn of the side. */
  function DoubledFeature<P, M>(rules: Rules<P, M>, p: P): (d: int)
    ensures 0 <= d <= |PawnFiles(rules, p, White, 64)| + |PawnFiles(rules, p, Black, 64)|
  {
    SubsetAtMost(DoubledFiles(PawnFiles(rules, p, White, 64), PawnSquares(rules, p, White, 64)), PawnFiles(rules, p, White, 64));
    SubsetAtMost(DoubledFiles(PawnFiles(rules, p, Black, 64), PawnSquares(rules, p, Black, 64)), PawnFiles(rules, p, Black, 64));
    |DoubledFiles(PawnFiles(rules, p, White, 64), PawnSquares(rules, p, White, 64))|
    + |DoubledFiles(PawnFiles(rules, p, Black, 64), PawnSquares(rules, p, Black, 64))|
  }

  /** The isolated-pawn feature: (side, file) pairs with no pawn of the side on a neighbouring file. */
  function IsolatedFeature<P, M>(rules: Rules<P, M>, p: P): (i: int)
    ensures 0 <= i <= |PawnFiles(rules, p, White, 64)| + |PawnFiles(rules, p, Black, 64)|
  {
    SubsetAtMost(IsolatedFiles(PawnFiles(rules, p, White, 64)), PawnFiles(rules, p, White, 64));
    SubsetAtMost(IsolatedFiles(PawnFiles(rules, p, Black, 64)), PawnFiles(rules, p, Black, 64));
    |IsolatedFiles(PawnFiles(rules, p, White, 64))| + |IsolatedFiles(PawnFiles(rules, p, Black, 64))|
  }

  /** Material of each side and White's material advantage. */
  function MaterialSection<P, M>(rules: Rules<P, M>, p: P): (s: seq<int>)
    ensures |s| == 3
  {
    [Material(rules, p, White, 64), Material(rules, p, Black, 64),
     Material(rules, p, White, 64) - Material(rules, p, Black, 64)]
  }

  /** Kingside and queenside castling rights, White's then Black's. */
  function CastlingSection<P, M>(rules: Rules<P, M>, p: P): (s: seq<int>)
    ensures |s| == 4
    ensures forall i :: 0 <= i < 4 ==> s[i] == 0 || s[i] == 1
    ensures (s[0] == 1 <==> rules.hasKingsideCastlingRights(p, White))
         && (s[1] == 1 <==> rules.hasQueensideCastlingRights(p, White))
         && (s[2] == 1 <==> rules.hasKingsideCastlingRights(p, Black))
         && (s[3] == 1 <==> rules.hasQueensideCastlingRights(p, Black))
  {
    [Flag(rules.hasKingsideCastlingRights(p, White)), Flag(rules.hasQueensideCastlingRights(p, White)),
     Flag(rules.hasKingsideCastlingRights(p, Black)), Flag(rules.hasQueensideCastlingRights(p, Black))]
  }

  /** Pawn structure: doubled, isolated, files with own pawns per side, open files. */
  function PawnSection<P, M>(rules: Rules<P, M>, p: P): (s: seq<int>)
    ensures |s| == 5
  {
    [DoubledFeature(rules, p), IsolatedFeature(rules, p),
     |PawnFiles(rules, p, White, 64)|, |PawnFiles(rules, p, Black, 64)|, |OpenFiles(rules, p)|]
  }

  /** White's then Black's count of the squares matching `white` and `black`. */
  function SideSection<P, M>(rules: Rules<P, M>, p: P, white: Criterion, black: Criterion): (s: seq<int>)
    ensures |s| == 2
  {
    [Count(rules, p, white, 64), Count(rules, p, black, 64)]
  }

  /** The feature vector of position `p`, in the order the regressor was trained on. */
  function Features<P, M>(rules: Rules<P, M>, p: P): (f: seq<int>)
    ensures |f| == FeatureCount
  {
    MaterialSection(rules, p)
    + KindCounts(rules, p, PieceKinds)
    + CastlingSection(rules, p)
    + [rules.king(p, White), rules.king(p, Black)]
    + [Flag(rules.turn(p) == White)]
    + SideSection(rules, p, InCenter(White), InCenter(Black))
    + SideSection(rules, p, InOpponentHalf(White), InOpponentHalf(Black))
    + [|rules.legalMoves(p)|, rules.fullmoveNumber(p)]
    + PawnSection(rules, p)
    + SideSection(rules, p, OutpostKnight(White), OutpostKnight(Black))
    + SideSection(rules, p, DevelopedMinor(White), DevelopedMinor(Black))
    + SideSection(rules, p, Defended(White), Defended(Black))
  }

  ghost predicate PieceCountsBelow<P, M>(rules: Rules<P, M>, p: P, counts: map<(Color, PieceType), int>, n: nat)
    requires n <= 64
  {
    forall k | k in PieceValues ::
      (White, k) in counts && counts[(White, k)] == Count(rules, p, OfKind(White, k), n)
      && (Black, k) in counts && counts[(Black, k)] == Count(rules, p, OfKind(Black, k), n)
  }

  /** A per-side counter holds the counts of `white` and `black` over the squares below `n`. */
  ghost predicate SideCountsBelow<P, M>(rules: Rules<P, M>, p: P, counter: map<Color, int>, white: Criterion, black: Criterion, n: nat)
    requires n <= 64
  {
    White in counter && counter[White] == Count(rules, p, white, n)
    && Black in counter && counter[Black] == Count(rules, p, black, n)
  }

  /** A per-side file set holds each side's pawn files over the squares below `n`. */
  ghost predicate PawnFilesBelow<P, M>(rules: Rules<P, M>, p: P, files: map<Color, set<int>>, n: nat)
    requires n <= 64
  {
    White in files && files[White] == PawnFiles(rules, p, White, n)
    && Black in files && files[Black] == PawnFiles(rules, p, Black, n)
  }

  /** Material section of the pass, for one occupied square. */
  method TallyMaterial<P, M>(rules: Rules<P, M>, p: P, square: Square, piece: Piece, materialWhite: int, materialBlack: int)
    returns (white: int, black: int)
    requires rules.pieces(p)[square] == Some(piece)
    requires materialWhite == Material(rules, p, White, square) && materialBlack == Material(rules, p, Black, square)
    ensures white == Material(rules, p, White, square + 1) && black == Material(rules, p, Black, square + 1)
  {
    white, black := materialWhite, materialBlack;
    var value := PieceValue(piece.kind);
    if piece.color == White {
      white := white + value;
    } else {
      black := black + value;
    }
  }

  /** Piece-count section of the pass, for one occupied square. */
  method TallyPieceCount<P, M>(rules: Rules<P, M>, p: P, square: Square, piece: Piece, pieceCounts: map<(Color, PieceType), int>)
    returns (counts: map<(Color, PieceType), int>)
    requires rules.pieces(p)[square] == Some(piece)
    requires PieceCountsBelow(rules, p, pieceCounts, square)
    ensures PieceCountsBelow(rules, p, counts, square + 1)
  {
    counts := pieceCounts;
    assert piece.color.White? || piece.color.Black?;
    if piece.kind in PieceValues {
      counts := counts[(piece.color, piece.kind) := counts[(piece.color, piece.kind)] + 1];
    }
  }

  /** Centre section of the pass, for one occupied square. */
  method TallyCentre<P, M>(rules: Rules<P, M>, p: P, square: Square, piece: Piece, centerControlWhite: int, centerControlBlack: int)
    returns (white: int, black: int)
    requires rules.pieces(p)[square] == Some(piece)
    requires centerControlWhite == Count(rules, p, InCenter(White), square)
    requires centerControlBlack == Count(rules, p, InCenter(Black), square)
    ensures white == Count(rules, p, InCenter(White), square + 1)
    ensures black == Count(rules, p, InCenter(Black), square + 1)
  {
    white, black := centerControlWhite, centerControlBlack;
    if square in CenterSquares {
      if piece.color == White {
        white := white + 1;
      } else {
        black := black + 1;
      }
    }
  }

  /** Opponent's-half section of the pass, for one occupied square. */
  method TallyOpponentHalf<P, M>(rules: Rules<P, M>, p: P, square: Square, piece: Piece, whiteInBlackHalf: int, blackInWhiteHalf: int)
    returns (white: int, black: int)
    requires rules.pieces(p)[square] == Some(piece)
    requires whiteInBlackHalf == Count(rules, p, InOpponentHalf(White), square)
    requires blackInWhiteHalf == Count(rules, p, InOpponentHalf(Black), square)
    ensures white == Count(rules, p, InOpponentHalf(White), square + 1)
    ensures black == Count(rules, p, InOpponentHalf(Black), square + 1)
  {
    white, black := whiteInBlackHalf, blackInWhiteHalf;
    var rank := Rank(square);
    if piece.color == White && rank >= 4 {
      white := white + 1;
    } else if piece.color == Black && rank <= 3 {
      black := black + 1;
    }
  }

  /** Pawn-structure section of the pass, for one occupied square. */
  method TallyPawn<P, M>(rules: Rules<P, M>, p: P, square: Square, piece: Piece,
                         pawnFiles: map<Color, set<int>>, allPawns: map<Color, seq<Square>>,
                         openFiles: set<int>, halfopenFiles: map<Color, set<int>>)
    returns (files: map<Color, set<int>>, pawns: map<Color, seq<Square>>, open: set<int>, halfopen: map<Color, set<int>>)
    requires rules.pieces(p)[square] == Some(piece)
    requires PawnFilesBelow(rules, p, pawnFiles, square) && PawnFilesBelow(rules, p, halfopenFiles, square)
    requires White in allPawns && allPawns[White] == PawnSquares(rules, p, White, square)
    requires Black in allPawns && allPawns[Black] == PawnSquares(rules, p, Black, square)
    requires openFiles == AllFiles - (PawnFiles(rules, p, White, square) + PawnFiles(rules, p, Black, square))
    ensures PawnFilesBelow(rules, p, files, square + 1) && PawnFilesBelow(rules, p, halfopen, square + 1)
    ensures White in pawns && pawns[White] == PawnSquares(rules, p, White, square + 1)
    ensures Black in pawns && pawns[Black] == PawnSquares(rules, p, Black, square + 1)
    ensures open == AllFiles - (PawnFiles(rules, p, White, square + 1) + PawnFiles(rules, p, Black, square + 1))
  {
    files, pawns, open, halfopen := pawnFiles, allPawns, openFiles, halfopenFiles;
    if piece.kind == Pawn {
      var color, file := piece.color, File(square);
      assert color.White? || color.Black?;
      files := files[color := files[color] + {file}];
      pawns := pawns[color := pawns[color] + [square]];
      open := open - {file};
      halfopen := halfopen[color := halfopen[color] + {file}];
    }
  }

  /** Outpost section of the pass, for one occupied square. */
  method TallyOutpost<P, M>(rules: Rules<P, M>, p: P, square: Square, piece: Piece, outpostKnights: map<Color, int>)
    returns (outposts: map<Color, int>)
    requires rules.pieces(p)[square] == Some(piece)
    requires SideCountsBelow(rules, p, outpostKnights, OutpostKnight(White), OutpostKnight(Black), square)
    ensures SideCountsBelow(rules, p, outposts, OutpostKnight(White), OutpostKnight(Black), square + 1)
  {
    outposts := outpostKnights;
    assert piece.color.White? || piece.color.Black?;
    var color, rank := piece.color, Rank(square);
    if piece.kind == Knight && ((color == White && rank >= 4) || (color == Black && rank <= 3)) {
      var oppColor := Opponent(color);
      var attackers := rules.attackers(p, oppColor, square);
      if !HasPawnAttacker(rules.pieces(p), attackers) {
        outposts := outposts[color := outposts[color] + 1];
      }
    }
  }

  /** Development section of the pass, for one occupied square. */
  method TallyDevelopment<P, M>(rules: Rules<P, M>, p: P, square: Square, piece: Piece, developedMinors: map<Color, int>)
    returns (developed: map<Color, int>)
    requires rules.pieces(p)[square] == Some(piece)
    requires SideCountsBelow(rules, p, developedMinors, DevelopedMinor(White), DevelopedMinor(Black), square)
    ensures SideCountsBelow(rules, p, developed, DevelopedMinor(White), DevelopedMinor(Black), square + 1)
  {
    developed := developedMinors;
    assert piece.color.White? || piece.color.Black?;
    var color, rank := piece.color, Rank(square);
    if (piece.kind == Bishop || piece.kind == Knight) && ((color == White && rank > 0) || (color == Black && rank < 7)) {
      developed := developed[color := developed[color] + 1];
    }
  }

  /** Defended-piece section of the pass, for one occupied square. */
  method TallyDefence<P, M>(rules: Rules<P, M>, p: P, square: Square, piece: Piece, defendedPieces: map<Color, int>)
    returns (defended: map<Color, int>)
    requires rules.pieces(p)[square] == Some(piece)
    requires SideCountsBelow(rules, p, defendedPieces, Defended(White), Defended(Black), square)
    ensures SideCountsBelow(rules, p, defended, Defended(White), Defended(Black), square + 1)
  {
    defended := defendedPieces;
    assert piece.color.White? || piece.color.Black?;
    if |rules.attackers(p, piece.color, square)| > 0 {
      defended := defended[piece.color := defended[piece.color] + 1];
    }
  }

  /** One occupied square's contribution to every accumulator of the scan. */
  method TallySquare<P, M>(rules: Rules<P, M>, p: P, square: Square, piece: Piece,
                           materialWhite0: int, materialBlack0: int, pieceCounts0: map<(Color, PieceType), int>,
                           centerControlWhite0: int, centerControlBlack0: int, whiteInBlackHalf0: int, blackInWhiteHalf0: int,
                           pawnFiles0: map<Color, set<int>>, allPawns0: map<Color, seq<Square>>, openFiles0: set<int>,
                           halfopenFiles0: map<Color, set<int>>, outpostKnights0: map<Color, int>,
                           developedMinors0: map<Color, int>, defendedPieces0: map<Color, int>)
    returns (materialWhite: int, materialBlack: int, pieceCounts: map<(Color, PieceType), int>,
             centerControlWhite: int, centerControlBlack: int, whiteInBlackHalf: int, blackInWhiteHalf: int,
             pawnFiles: map<Color, set<int>>, allPawns: map<Color, seq<Square>>, openFiles: set<int>,
             halfopenFiles: map<Color, set<int>>, outpostKnights: map<Color, int>,
             developedMinors: map<Color, int>, defendedPieces: map<Color, int>)
    requires rules.pieces(p)[square] == Some(piece)
    requires materialWhite0 == Material(rules, p, White, square)
    requires materialBlack0 == Material(rules, p, Black, square)
    requires PieceCountsBelow(rules, p, pieceCounts0, square)
    requires centerControlWhite0 == Count(rules, p, InCenter(White), square)
    requires centerControlBlack0 == Count(rules, p, InCenter(Black), square)
    requires whiteInBlackHalf0 == Count(rules, p, InOpponentHalf(White), square)
    requires blackInWhiteHalf0 == Count(rules, p, InOpponentHalf(Black), square)
    requires PawnFilesBelow(rules, p, pawnFiles0, square) && PawnFilesBelow(rules, p, halfopenFiles0, square)
    requires White in allPawns0 && allPawns0[White] == PawnSquares(rules, p, White, square)
    requires Black in allPawns0 && allPawns0[Black] == PawnSquares(rules, p, Black, square)
    requires openFiles0 == AllFiles - (PawnFiles(rules, p, White, square) + PawnFiles(rules, p, Black, square))
    requires SideCountsBelow(rules, p, outpostKnights0, OutpostKnight(White), OutpostKnight(Black), square)
    requires SideCountsBelow(rules, p, developedMinors0, DevelopedMinor(White), DevelopedMinor(Black), square)
    requires SideCountsBelow(rules, p, defendedPieces0, Defended(White), Defended(Black), square)
    ensures materialWhite == Material(rules, p, White, square + 1)
    ensures materialBlack == Material(rules, p, Black, square + 1)
    ensures PieceCountsBelow(rules, p, pieceCounts, square + 1)
    ensures centerControlWhite == Count(rules, p, InCenter(White), square + 1)
    ensures centerControlBlack == Count(rules, p, InCenter(Black), square + 1)
    ensures whiteInBlackHalf == Count(rules, p, InOpponentHalf(White), square + 1)
    ensures blackInWhiteHalf == Count(rules, p, InOpponentHalf(Black), square + 1)
    ensures PawnFilesBelow(rules, p, pawnFiles, square + 1) && PawnFilesBelow(rules, p, halfopenFiles, square + 1)
    ensures White in allPawns && allPawns[White] == PawnSquares(rules, p, White, square + 1)
    ensures Black in allPawns && allPawns[Black] == PawnSquares(rules, p, Black, square + 1)
    ensures openFiles == AllFiles - (PawnFiles(rules, p, White, square + 1) + PawnFiles(rules, p, Black, square + 1))
    ensures SideCountsBelow(rules, p, outpostKnights, OutpostKnight(White), OutpostKnight(Black), square + 1)
    ensures SideCountsBelow(rules, p, developedMinors, DevelopedMinor(White), DevelopedMinor(Black), square + 1)
    ensures SideCountsBelow(rules, p, defendedPieces, Defended(White), Defended(Black), square + 1)
  {
    materialWhite, materialBlack, pieceCounts, centerControlWhite, centerControlBlack, whiteInBlackHalf, blackInWhiteHalf,
      pawnFiles, allPawns, openFiles, halfopenFiles, outpostKnights, developedMinors, defendedPieces :=
      materialWhite0, materialBlack0, pieceCounts0, centerControlWhite0, centerControlBlack0, whiteInBlackHalf0, blackInWhiteHalf0,
      pawnFiles0, allPawns0, openFiles0, halfopenFiles0, outpostKnights0, developedMinors0, defendedPieces0;
    materialWhite, materialBlack := TallyMaterial(rules, p, square, piece, materialWhite, materialBlack);
    pieceCounts := TallyPieceCount(rules, p, square, piece, pieceCounts);
    centerControlWhite, centerControlBlack := TallyCentre(rules, p, square, piece, centerControlWhite, centerControlBlack);
    whiteInBlackHalf, blackInWhiteHalf := TallyOpponentHalf(rules, p, square, piece, whiteInBlackHalf, blackInWhiteHalf);
    pawnFiles, allPawns, openFiles, halfopenFiles :=
      TallyPawn(rules, p, square, piece, pawnFiles, allPawns, openFiles, halfopenFiles);
    outpostKnights := TallyOutpost(rules, p, square, piece, outpostKnights);
    developedMinors := TallyDevelopment(rules, p, square, piece, developedMinors);
    defendedPieces := TallyDefence(rules, p, square, piece, defendedPieces);
  }

  /** An empty square adds nothing to any count, total or pawn list. */
  lemma EmptySquareCountsNothing<P, M>(rules: Rules<P, M>, p: P, square: Square)
    requires rules.pieces(p)[square].None?
    ensures forall crit :: Count(rules, p, crit, square + 1) == Count(rules, p, crit, square)
    ensures forall c :: Material(rules, p, c, square + 1) == Material(rules, p, c, square)
    ensures forall c :: PawnFiles(rules, p, c, square + 1) == PawnFiles(rules, p, c, square)
    ensures forall c :: PawnSquares(rules, p, c, square + 1) == PawnSquares(rules, p, c, square)
  {
    assert forall c :: PawnSquares(rules, p, c, square + 1) == PawnSquares(rules, p, c, square) + [];
  }

  /**
   * The scan over the 64 squares: every accumulator ends up holding its
   * count, total or file set over the whole board.
   */
  method ScanSquares<P, M>(rules: Rules<P, M>, p: P)
    returns (materialWhite: int, materialBlack: int, pieceCounts: map<(Color, PieceType), int>,
             centerControlWhite: int, centerControlBlack: int, whiteInBlackHalf: int, blackInWhiteHalf: int,
             pawnFiles: map<Color, set<int>>, allPawns: map<Color, seq<Square>>, openFiles: set<int>,
             halfopenFiles: map<Color, set<int>>, outpostKnights: map<Color, int>,
             developedMinors: map<Color, int>, defendedPieces: map<Color, int>)
    ensures materialWhite == Material(rules, p, White, 64) && materialBlack == Material(rules, p, Black, 64)
    ensures PieceCountsBelow(rules, p, pieceCounts, 64)
    ensures centerControlWhite == Count(rules, p, InCenter(White), 64)
    ensures centerControlBlack == Count(rules, p, InCenter(Black), 64)
    ensures whiteInBlackHalf == Count(rules, p, InOpponentHalf(White), 64)
    ensures blackInWhiteHalf == Count(rules, p, InOpponentHalf(Black), 64)
    ensures PawnFilesBelow(rules, p, pawnFiles, 64) && PawnFilesBelow(rules, p, halfopenFiles, 64)
    ensures White in allPawns && allPawns[White] == PawnSquares(rules, p, White, 64)
    ensures Black in allPawns && allPawns[Black] == PawnSquares(rules, p, Black, 64)
    ensures openFiles == OpenFiles(rules, p)
    ensures SideCountsBelow(rules, p, outpostKnights, OutpostKnight(White), OutpostKnight(Black), 64)
    ensures SideCountsBelow(rules, p, developedMinors, DevelopedMinor(White), DevelopedMinor(Black), 64)
    ensures SideCountsBelow(rules, p, defendedPieces, Defended(White), Defended(Black), 64)
  {
    var squares := rules.pieces(p);
    materialWhite, materialBlack := 0, 0;
    pieceCounts := map[
      (White, Pawn) := 0, (White, Knight) := 0, (White, Bishop) := 0, (White, Rook) := 0, (White, Queen) := 0,
      (Black, Pawn) := 0, (Black, Knight) := 0, (Black, Bishop) := 0, (Black, Rook) := 0, (Black, Queen) := 0];
    centerControlWhite, centerControlBlack := 0, 0;
    whiteInBlackHalf, blackInWhiteHalf := 0, 0;
    pawnFiles := map[White := {}, Black := {}];
    allPawns := map[White := [], Black := []];
    openFiles := AllFiles;
    halfopenFiles := map[White := {}, Black := {}];
    outpostKnights := map[White := 0, Black := 0];
    developedMinors := map[White := 0, Black := 0];
    defendedPieces := map[White := 0, Black := 0];
    assert PieceCountsBelow(rules, p, pieceCounts, 0);

    for square := 0 to 64
      invariant materialWhite == Material(rules, p, White, square)
      invariant materialBlack == Material(rules, p, Black, square)
      invariant PieceCountsBelow(rules, p, pieceCounts, square)
      invariant centerControlWhite == Count(rules, p, InCenter(White), square)
      invariant centerControlBlack == Count(rules, p, InCenter(Black), square)
      invariant whiteInBlackHalf == Count(rules, p, InOpponentHalf(White), square)
      invariant blackInWhiteHalf == Count(rules, p, InOpponentHalf(Black), square)
      invariant PawnFilesBelow(rules, p, pawnFiles, square) && PawnFilesBelow(rules, p, halfopenFiles, square)
      invariant White in allPawns && allPawns[White] == PawnSquares(rules, p, White, square)
      invariant Black in allPawns && allPawns[Black] == PawnSquares(rules, p, Black, square)
      invariant openFiles == AllFiles - (PawnFiles(rules, p, White, square) + PawnFiles(rules, p, Black, square))
      invariant SideCountsBelow(rules, p, outpostKnights, OutpostKnight(White), OutpostKnight(Black), square)
      invariant SideCountsBelow(rules, p, developedMinors, DevelopedMinor(White), DevelopedMinor(Black), square)
      invariant SideCountsBelow(rules, p, defendedPieces, Defended(White), Defended(Black), square)
    {
      var piece := squares[square];
      if piece.None? {
        EmptySquareCountsNothing(rules, p, square);
        continue;
      }
      materialWhite, materialBlack, pieceCounts, centerControlWhite, centerControlBlack, whiteInBlackHalf, blackInWhiteHalf,
        pawnFiles, allPawns, openFiles, halfopenFiles, outpostKnights, developedMinors, defendedPieces :=
        TallySquare(rules, p, square, piece.value,
                    materialWhite, materialBlack, pieceCounts, centerControlWhite, centerControlBlack, whiteInBlackHalf, blackInWhiteHalf,
                    pawnFiles, allPawns, openFiles, halfopenFiles, outpostKnights, developedMinors, defendedPieces);
    }
  }

  /** Appends White's then Black's count of each kind, as the scan left them in `pieceCounts`. */
  method AppendPieceCounts<P, M>(rules: Rules<P, M>, p: P, pieceCounts: map<(Color, PieceType), int>, prefix: seq<int>)
    returns (features: seq<int>)
    requires PieceCountsBelow(rules, p, pieceCounts, 64)
    ensures features == prefix + KindCounts(rules, p, PieceKinds)
  {
    features := prefix;
    for j := 0 to |PieceKinds|
      invariant features == prefix + KindCounts(rules, p, PieceKinds[..j])
    {
      var ptype := PieceKinds[j];
      assert ptype in PieceValues;
      assert PieceKinds[..j + 1][..j] == PieceKinds[..j];
      assert KindCounts(rules, p, PieceKinds[..j + 1])
          == KindCounts(rules, p, PieceKinds[..j]) + [Count(rules, p, OfKind(White, ptype), 64), Count(rules, p, OfKind(Black, ptype), 64)];
      features := features + [pieceCounts[(White, ptype)]];
      features := features + [pieceCounts[(Black, ptype)]];
    }
    assert PieceKinds[..|PieceKinds|] == PieceKinds;
  }

  /** `extract_features`: the scan over the squares, then the 37 features in order. */
  method ExtractFeatures<P, M>(board: Board<P, M>) returns (features: seq<int>)
    ensures features == Features(board.rules, board.position)
  {
    var rules, p := board.rules, board.position;
    var materialWhite, materialBlack, pieceCounts, centerControlWhite, centerControlBlack,
        whiteInBlackHalf, blackInWhiteHalf, pawnFiles, allPawns, openFiles, halfopenFiles,
        outpostKnights, developedMinors, defendedPieces := ScanSquares(rules, p);
    assert allPawns[White] == PawnSquares(rules, p, White, 64) && allPawns[Black] == PawnSquares(rules, p, Black, 64);
    assert pawnFiles[White] == PawnFiles(rules, p, White, 64) && pawnFiles[Black] == PawnFiles(rules, p, Black, 64);
    assert halfopenFiles[White] == PawnFiles(rules, p, White, 64) && halfopenFiles[Black] == PawnFiles(rules, p, Black, 64);

    // Material
    features := [materialWhite, materialBlack, materialWhite - materialBlack];

    // Piece counts, White then Black for each kind
    features := AppendPieceCounts(rules, p, pieceCounts, features);
    ghost var expected := MaterialSection(rules, p) + KindCounts(rules, p, PieceKinds);
    assert features == expected;

    // Castling rights
    var section := [Flag(rules.hasKingsideCastlingRights(p, White)), Flag(rules.hasQueensideCastlingRights(p, White)),
                Flag(rules.hasKingsideCastlingRights(p, Black)), Flag(rules.hasQueensideCastlingRights(p, Black))];
    features, expected := features + section, expected + CastlingSection(rules, p);

    // King squares
    section := [rules.king(p, White), rules.king(p, Black)];
    features, expected := features + section, expected + section;

    // Side to move
    section := [Flag(rules.turn(p) == White)];
    features, expected := features + section, expected + section;

    // Centre
    section := [centerControlWhite, centerControlBlack];
    features, expected := features + section, expected + SideSection(rules, p, InCenter(White), InCenter(Black));

    // Pieces in the opponent's half
    section := [whiteInBlackHalf, blackInWhiteHalf];
    features, expected := features + section, expected + SideSection(rules, p, InOpponentHalf(White), InOpponentHalf(Black));

    // Mobility and move number
    section := [|rules.legalMoves(p)|, rules.fullmoveNumber(p)];
    features, expected := features + section, expected + section;

    // Doubled pawns, isolated pawns, files holding each side's pawns, open files
    var doubled := |DoubledFiles(pawnFiles[White], allPawns[White])| + |DoubledFiles(pawnFiles[Black], allPawns[Black])|;
    assert doubled == DoubledFeature(rules, p);
    var isolated := |IsolatedFiles(pawnFiles[White])| + |IsolatedFiles(pawnFiles[Black])|;
    assert isolated == IsolatedFeature(rules, p);
    section := [doubled, isolated, |halfopenFiles[White]|, |halfopenFiles[Black]|, |openFiles|];
    assert section == PawnSection(rules, p);
    features, expected := features + section, expected + PawnSection(rules, p);

    // Knight outposts, developed minor pieces, defended pieces
    section := [outpostKnights[White], outpostKnights[Black]];
    assert section == SideSection(rules, p, OutpostKnight(White), OutpostKnight(Black));
    features, expected := features + section, expected + section;
    section := [developedMinors[White], developedMinors[Black]];
    assert section == SideSection(rules, p, DevelopedMinor(White), DevelopedMinor(Black));
    features, expected := features + section, expected + section;
    section := [defendedPieces[White], defendedPieces[Black]];
    assert section == SideSection(rules, p, Defended(White), Defended(Black));
    features, expected := features + section, expected + section;
  }
}
