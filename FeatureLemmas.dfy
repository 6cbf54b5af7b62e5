/**
 * What the 37 features mean: where each one sits in the vector, how material
 * follows from the per-kind counts, and the bounds that the counting rules of
 * the square pass guarantee.
 */
module FeatureLemmas {
  import opened Wrappers
  import opened Chess
  import opened FeatureExtraction

  /*
   * Counting
   */

  /** A criterion whose every match also matches `wide` counts no more squares than `wide`. */
  lemma {:induction false} CountMonotone<P, M>(rules: Rules<P, M>, p: P, narrow: Criterion, wide: Criterion, n: nat)
    requires n <= 64
    requires forall sq: Square :: Matches(rules, p, narrow, sq) ==> Matches(rules, p, wide, sq)
    ensures Count(rules, p, narrow, n) <= Count(rules, p, wide, n)
  {
    if n > 0 {
      CountMonotone(rules, p, narrow, wide, n - 1);
    }
  }

  /** A criterion whose every match matches `a` or `b` counts no more squares than both together. */
  lemma {:induction false} CountCovered<P, M>(rules: Rules<P, M>, p: P, crit: Criterion, a: Criterion, b: Criterion, n: nat)
    requires n <= 64
    requires forall sq: Square :: Matches(rules, p, crit, sq) ==> Matches(rules, p, a, sq) || Matches(rules, p, b, sq)
    ensures Count(rules, p, crit, n) <= Count(rules, p, a, n) + Count(rules, p, b, n)
  {
    if n > 0 {
      CountCovered(rules, p, crit, a, b, n - 1);
    }
  }

  /*
   * The layout of the vector
   */

  /** Offsets of twelve consecutive pieces of the section lengths used by `Features`. */
  lemma ConcatOffsets(a: seq<int>, b: seq<int>, c: seq<int>, d: seq<int>, e: seq<int>, f: seq<int>,
                      g: seq<int>, h: seq<int>, i: seq<int>, j: seq<int>, k: seq<int>, l: seq<int>)
    requires |a| == 3 && |b| == 10 && |c| == 4 && |d| == 2 && |e| == 1 && |f| == 2
    requires |g| == 2 && |h| == 2 && |i| == 5 && |j| == 2 && |k| == 2 && |l| == 2
    ensures var s := a + b + c + d + e + f + g + h + i + j + k + l;
      && s[..3] == a && s[3..13] == b && s[13..17] == c && s[17..19] == d && s[19..20] == e
      && s[20..22] == f && s[22..24] == g && s[24..26] == h && s[26..31] == i
      && s[31..33] == j && s[33..35] == k && s[35..] == l
  {
  }

  /** The vector is the concatenation of its sections, each at a fixed offset. */
  lemma FeatureSections<P, M>(rules: Rules<P, M>, p: P)
    ensures var f := Features(rules, p);
      && f[..3] == MaterialSection(rules, p)
      && f[3..13] == KindCounts(rules, p, PieceKinds)
      && f[13..17] == CastlingSection(rules, p)
      && f[17..19] == [rules.king(p, White), rules.king(p, Black)]
      && f[19..20] == [Flag(rules.turn(p) == White)]
      && f[20..22] == SideSection(rules, p, InCenter(White), InCenter(Black))
      && f[22..24] == SideSection(rules, p, InOpponentHalf(White), InOpponentHalf(Black))
      && f[24..26] == [|rules.legalMoves(p)|, rules.fullmoveNumber(p)]
      && f[26..31] == PawnSection(rules, p)
      && f[31..33] == SideSection(rules, p, OutpostKnight(White), OutpostKnight(Black))
      && f[33..35] == SideSection(rules, p, DevelopedMinor(White), DevelopedMinor(Black))
      && f[35..] == SideSection(rules, p, Defended(White), Defended(Black))
  {
    ConcatOffsets(MaterialSection(rules, p), KindCounts(rules, p, PieceKinds), CastlingSection(rules, p),
                  [rules.king(p, White), rules.king(p, Black)], [Flag(rules.turn(p) == White)],
                  SideSection(rules, p, InCenter(White), InCenter(Black)),
                  SideSection(rules, p, InOpponentHalf(White), InOpponentHalf(Black)),
                  [|rules.legalMoves(p)|, rules.fullmoveNumber(p)], PawnSection(rules, p),
                  SideSection(rules, p, OutpostKnight(White), OutpostKnight(Black)),
                  SideSection(rules, p, DevelopedMinor(White), DevelopedMinor(Black)),
                  SideSection(rules, p, Defended(White), Defended(Black)));
  }

  /** The material and piece-count features, features 0 to 12. */
  lemma PieceFeatureLayout<P, M>(rules: Rules<P, M>, p: P)
    ensures var f := Features(rules, p);
      && f[0] == Material(rules, p, White, 64)
      && f[1] == Material(rules, p, Black, 64)
      && f[2] == f[0] - f[1]
      && (forall j :: 0 <= j < |PieceKinds| ==>
            f[3 + 2 * j] == Count(rules, p, OfKind(White, PieceKinds[j]), 64)
            && f[4 + 2 * j] == Count(rules, p, OfKind(Black, PieceKinds[j]), 64))
  {
    var f := Features(rules, p);
    FeatureSections(rules, p);
    assert f[..3][0] == f[0] && f[..3][1] == f[1] && f[..3][2] == f[2];
    assert forall j :: 0 <= j < 10 ==> f[3..13][j] == f[3 + j];
  }

  /** The counting features of the square pass, features 20 to 23 and 26 to 36. */
  lemma CountFeatureLayout<P, M>(rules: Rules<P, M>, p: P)
    ensures var f := Features(rules, p);
      && f[20] == Count(rules, p, InCenter(White), 64)
      && f[21] == Count(rules, p, InCenter(Black), 64)
      && f[22] == Count(rules, p, InOpponentHalf(White), 64)
      && f[23] == Count(rules, p, InOpponentHalf(Black), 64)
      && f[26] == DoubledFeature(rules, p)
      && f[27] == IsolatedFeature(rules, p)
      && f[28] == |PawnFiles(rules, p, White, 64)|
      && f[29] == |PawnFiles(rules, p, Black, 64)|
      && f[30] == |OpenFiles(rules, p)|
      && f[31] == Count(rules, p, OutpostKnight(White), 64)
      && f[32] == Count(rules, p, OutpostKnight(Black), 64)
      && f[33] == Count(rules, p, DevelopedMinor(White), 64)
      && f[34] == Count(rules, p, DevelopedMinor(Black), 64)
      && f[35] == Count(rules, p, Defended(White), 64)
      && f[36] == Count(rules, p, Defended(Black), 64)
  {
    var f := Features(rules, p);
    FeatureSections(rules, p);
    assert f[20..22][0] == f[20] && f[20..22][1] == f[21] && f[22..24][0] == f[22] && f[22..24][1] == f[23];
    assert forall j :: 0 <= j < 5 ==> f[26..31][j] == f[26 + j];
    assert f[31..33][0] == f[31] && f[31..33][1] == f[32] && f[33..35][0] == f[33] && f[33..35][1] == f[34];
    assert f[35..][0] == f[35] && f[35..][1] == f[36];
  }

  /*
   * Material
   */

  /** Side `c`'s material is 1 per pawn, 3 per knight or bishop, 5 per rook and 9 per queen; kings add nothing. */
  lemma {:induction false} MaterialByKind<P, M>(rules: Rules<P, M>, p: P, c: Color, n: nat)
    requires n <= 64
    ensures Material(rules, p, c, n)
         == Count(rules, p, OfKind(c, Pawn), n) + 3 * Count(rules, p, OfKind(c, Knight), n)
          + 3 * Count(rules, p, OfKind(c, Bishop), n) + 5 * Count(rules, p, OfKind(c, Rook), n)
          + 9 * Count(rules, p, OfKind(c, Queen), n)
  {
    if n > 0 {
      MaterialByKind(rules, p, c, n - 1);
      SquareValueByKind(rules, p, c, n - 1);
      var pawns, knights, bishops, rooks, queens :=
        Count(rules, p, OfKind(c, Pawn), n - 1), Count(rules, p, OfKind(c, Knight), n - 1),
        Count(rules, p, OfKind(c, Bishop), n - 1), Count(rules, p, OfKind(c, Rook), n - 1),
        Count(rules, p, OfKind(c, Queen), n - 1);
      assert Material(rules, p, c, n - 1) == pawns + 3 * knights + 3 * bishops + 5 * rooks + 9 * queens;
    }
  }

  /** What one square adds to side `c`'s material, by the kind of piece on it. */
  lemma SquareValueByKind<P, M>(rules: Rules<P, M>, p: P, c: Color, sq: Square)
    ensures SquareValue(rules.pieces(p)[sq], c)
         == (if Matches(rules, p, OfKind(c, Pawn), sq) then 1 else 0)
          + (if Matches(rules, p, OfKind(c, Knight), sq) then 3 else 0)
          + (if Matches(rules, p, OfKind(c, Bishop), sq) then 3 else 0)
          + (if Matches(rules, p, OfKind(c, Rook), sq) then 5 else 0)
          + (if Matches(rules, p, OfKind(c, Queen), sq) then 9 else 0)
  {
    if rules.pieces(p)[sq].Some? {
      var k := rules.pieces(p)[sq].value.kind;
      assert k.Pawn? || k.Knight? || k.Bishop? || k.Rook? || k.Queen? || k.King?;
    }
  }

  /**
   * The first two features are each side's material as the weighted sum of
   * that side's piece-count features, and the third is their difference.
   */
  lemma MaterialFeatures<P, M>(rules: Rules<P, M>, p: P)
    ensures var f := Features(rules, p);
      && f[0] == f[3] + 3 * f[5] + 3 * f[7] + 5 * f[9] + 9 * f[11]
      && f[1] == f[4] + 3 * f[6] + 3 * f[8] + 5 * f[10] + 9 * f[12]
      && f[2] == f[0] - f[1]
  {
    PieceFeatureLayout(rules, p);
    var f := Features(rules, p);
    assert f[3] == Count(rules, p, OfKind(White, PieceKinds[0]), 64);
    assert f[4] == Count(rules, p, OfKind(Black, PieceKinds[0]), 64);
    assert f[5] == Count(rules, p, OfKind(White, PieceKinds[1]), 64);
    assert f[6] == Count(rules, p, OfKind(Black, PieceKinds[1]), 64);
    assert f[7] == Count(rules, p, OfKind(White, PieceKinds[2]), 64);
    assert f[8] == Count(rules, p, OfKind(Black, PieceKinds[2]), 64);
    assert f[9] == Count(rules, p, OfKind(White, PieceKinds[3]), 64);
    assert f[10] == Count(rules, p, OfKind(Black, PieceKinds[3]), 64);
    assert f[11] == Count(rules, p, OfKind(White, PieceKinds[4]), 64);
    assert f[12] == Count(rules, p, OfKind(Black, PieceKinds[4]), 64);
    MaterialByKind(rules, p, White, 64);
    MaterialByKind(rules, p, Black, 64);
  }

  /*
   * Occupancy bounds
   */

  /** Number of the centre squares D4 (27), E4 (28), D5 (35) and E5 (36) below `n`. */
  function CentreSquaresBelow(n: nat): (k: nat)
    ensures k <= 4
  {
    if n <= 27 then 0 else if n <= 28 then 1 else if n <= 35 then 2 else if n <= 36 then 3 else 4
  }

  /** One piece per square, so both sides together occupy at most the centre squares below `n`. */
  lemma {:induction false} CentreCountsBelow<P, M>(rules: Rules<P, M>, p: P, n: nat)
    requires n <= 64
    ensures Count(rules, p, InCenter(White), n) + Count(rules, p, InCenter(Black), n) <= CentreSquaresBelow(n)
  {
    if n > 0 {
      CentreCountsBelow(rules, p, n - 1);
      var sq := n - 1;
      if sq in CenterSquares {
        assert sq == 27 || sq == 28 || sq == 35 || sq == 36;
        assert CentreSquaresBelow(n) == CentreSquaresBelow(n - 1) + 1;
      } else {
        assert !Matches(rules, p, InCenter(White), sq) && !Matches(rules, p, InCenter(Black), sq);
      }
    }
  }

  /** The two centre features together count at most the four centre squares. */
  lemma CentreBound<P, M>(rules: Rules<P, M>, p: P)
    ensures var f := Features(rules, p);
      0 <= f[20] && 0 <= f[21] && f[20] + f[21] <= 4
  {
    CountFeatureLayout(rules, p);
    CentreCountsBelow(rules, p, 64);
  }

  /** Each side's opponent-half feature (22, 23) is at most its number of pieces. */
  lemma OpponentHalfBound<P, M>(rules: Rules<P, M>, p: P)
    ensures var f := Features(rules, p);
      f[22] <= Count(rules, p, Owned(White), 64) && f[23] <= Count(rules, p, Owned(Black), 64)
  {
    CountFeatureLayout(rules, p);
    CountMonotone(rules, p, InOpponentHalf(White), Owned(White), 64);
    CountMonotone(rules, p, InOpponentHalf(Black), Owned(Black), 64);
  }

  /** Only knights of the side are outposts. */
  lemma OutpostsAreKnights<P, M>(rules: Rules<P, M>, p: P, c: Color)
    ensures Count(rules, p, OutpostKnight(c), 64) <= Count(rules, p, OfKind(c, Knight), 64)
  {
    CountMonotone(rules, p, OutpostKnight(c), OfKind(c, Knight), 64);
  }

  /** Only knights and bishops of the side are developed minor pieces. */
  lemma DevelopedAreMinors<P, M>(rules: Rules<P, M>, p: P, c: Color)
    ensures Count(rules, p, DevelopedMinor(c), 64) <= Count(rules, p, OfKind(c, Knight), 64) + Count(rules, p, OfKind(c, Bishop), 64)
  {
    CountCovered(rules, p, DevelopedMinor(c), OfKind(c, Knight), OfKind(c, Bishop), 64);
  }

  /** Each side's outpost feature (31, 32) is at most its knight-count feature (5, 6). */
  lemma OutpostBound<P, M>(rules: Rules<P, M>, p: P)
    ensures var f := Features(rules, p);
      f[31] <= f[5] && f[32] <= f[6]
  {
    PieceFeatureLayout(rules, p);
    CountFeatureLayout(rules, p);
    assert PieceKinds[1] == Knight;
    OutpostsAreKnights(rules, p, White);
    OutpostsAreKnights(rules, p, Black);
  }

  /** Each side's development feature (33, 34) is at most its knight plus bishop counts (5 + 7, 6 + 8). */
  lemma DevelopedBound<P, M>(rules: Rules<P, M>, p: P)
    ensures var f := Features(rules, p);
      f[33] <= f[5] + f[7] && f[34] <= f[6] + f[8]
  {
    PieceFeatureLayout(rules, p);
    CountFeatureLayout(rules, p);
    assert PieceKinds[1] == Knight && PieceKinds[2] == Bishop;
    DevelopedAreMinors(rules, p, White);
    DevelopedAreMinors(rules, p, Black);
  }

  /** Each side's defended-piece feature (35, 36) is at most its number of pieces. */
  lemma DefendedBound<P, M>(rules: Rules<P, M>, p: P)
    ensures var f := Features(rules, p);
      f[35] <= Count(rules, p, Owned(White), 64) && f[36] <= Count(rules, p, Owned(Black), 64)
  {
    CountFeatureLayout(rules, p);
    CountMonotone(rules, p, Defended(White), Owned(White), 64);
    CountMonotone(rules, p, Defended(Black), Owned(Black), 64);
  }

  /*
   * Pawn structure
   */

  /** A file is among side `c`'s pawn files exactly when some pawn of `c` below `n` stands on it. */
  lemma {:induction false} PawnFileHasPawn<P, M>(rules: Rules<P, M>, p: P, c: Color, n: nat)
    requires n <= 64
    ensures forall f :: f in PawnFiles(rules, p, c, n) <==> Count(rules, p, PawnOnFile(c, f), n) > 0
  {
    if n > 0 {
      PawnFileHasPawn(rules, p, c, n - 1);
    }
  }

  /** Each pawn file needs a pawn of its own, so there are no more pawn files than pawns. */
  lemma {:induction false} PawnFilesAtMostPawns<P, M>(rules: Rules<P, M>, p: P, c: Color, n: nat)
    requires n <= 64
    ensures |PawnFiles(rules, p, c, n)| <= Count(rules, p, OfKind(c, Pawn), n)
    ensures PawnFiles(rules, p, c, n) == {} <==> Count(rules, p, OfKind(c, Pawn), n) == 0
  {
    if n > 0 {
      PawnFilesAtMostPawns(rules, p, c, n - 1);
      if Matches(rules, p, OfKind(c, Pawn), n - 1) {
        assert File(n - 1) in PawnFiles(rules, p, c, n);
      }
    }
  }

  /** A set of files has at most eight members, and the files outside it number eight minus its size. */
  lemma FilesComplement(files: set<int>)
    requires files <= AllFiles
    ensures |files| <= 8
    ensures |AllFiles - files| == 8 - |files|
  {
    assert |AllFiles| == 8;
    assert AllFiles == files + (AllFiles - files);
  }

  /**
   * The half-open features (features 28 and 29) count the distinct files
   * holding the side's pawns: between 0 and 8, no more than the side's pawns,
   * and 0 exactly when the side has no pawns.
   */
  lemma HalfOpenFeatures<P, M>(rules: Rules<P, M>, p: P)
    ensures var f := Features(rules, p);
      && 0 <= f[28] <= 8 && f[28] <= f[3] && (f[28] == 0 <==> f[3] == 0)
      && 0 <= f[29] <= 8 && f[29] <= f[4] && (f[29] == 0 <==> f[4] == 0)
  {
    PieceFeatureLayout(rules, p);
    CountFeatureLayout(rules, p);
    assert PieceKinds[0] == Pawn;
    PawnFilesAtMostPawns(rules, p, White, 64);
    PawnFilesAtMostPawns(rules, p, Black, 64);
    FilesComplement(PawnFiles(rules, p, White, 64));
    FilesComplement(PawnFiles(rules, p, Black, 64));
  }

  /** The open-file feature (feature 30) is 8 minus the number of files holding a pawn of either side. */
  lemma OpenFilesFeature<P, M>(rules: Rules<P, M>, p: P)
    ensures var f := Features(rules, p);
      f[30] == 8 - |PawnFiles(rules, p, White, 64) + PawnFiles(rules, p, Black, 64)|
  {
    CountFeatureLayout(rules, p);
    FilesComplement(PawnFiles(rules, p, White, 64) + PawnFiles(rules, p, Black, 64));
  }

  /** Filtering by file distributes over concatenation. */
  lemma {:induction false} OnFileAppend(a: seq<Square>, b: seq<Square>, f: int)
    ensures OnFile(a + b, f) == OnFile(a, f) + OnFile(b, f)
  {
    if a != [] {
      assert (a + b)[0] == a[0];
      assert (a + b)[1..] == a[1..] + b;
      OnFileAppend(a[1..], b, f);
    } else {
      assert a + b == b;
    }
  }

  /** The pawns of side `c` that `all_pawns` lists on file `f` are exactly its pawns on that file. */
  lemma {:induction false} PawnsOnFile<P, M>(rules: Rules<P, M>, p: P, c: Color, f: int, n: nat)
    requires n <= 64
    ensures |OnFile(PawnSquares(rules, p, c, n), f)| == Count(rules, p, PawnOnFile(c, f), n)
  {
    if n > 0 {
      PawnsOnFile(rules, p, c, f, n - 1);
      var last := if Matches(rules, p, OfKind(c, Pawn), n - 1) then [n - 1] else [];
      OnFileAppend(PawnSquares(rules, p, c, n - 1), last, f);
      assert OnFile(last, f) == if Matches(rules, p, PawnOnFile(c, f), n - 1) then [n - 1] else [];
    }
  }

  /** A file counts as doubled for side `c` exactly when at least two of its pawns stand on it. */
  lemma DoubledFileHasTwoPawns<P, M>(rules: Rules<P, M>, p: P, c: Color)
    ensures forall f :: f in DoubledFiles(PawnFiles(rules, p, c, 64), PawnSquares(rules, p, c, 64))
                    <==> Count(rules, p, PawnOnFile(c, f), 64) >= 2
  {
    PawnFileHasPawn(rules, p, c, 64);
    forall f {
      PawnsOnFile(rules, p, c, f, 64);
    }
  }

  /**
   * A file counts as isolated for side `c` exactly when one of its pawns
   * stands on it and none on either neighbouring file.
   */
  lemma IsolatedFileHasNoNeighbours<P, M>(rules: Rules<P, M>, p: P, c: Color)
    ensures forall f :: f in IsolatedFiles(PawnFiles(rules, p, c, 64))
                    <==> Count(rules, p, PawnOnFile(c, f), 64) > 0
                         && Count(rules, p, PawnOnFile(c, f - 1), 64) == 0
                         && Count(rules, p, PawnOnFile(c, f + 1), 64) == 0
  {
    var files := PawnFiles(rules, p, c, 64);
    PawnFileHasPawn(rules, p, c, 64);
    forall f
      ensures f in IsolatedFiles(files)
          <==> Count(rules, p, PawnOnFile(c, f), 64) > 0
               && Count(rules, p, PawnOnFile(c, f - 1), 64) == 0
               && Count(rules, p, PawnOnFile(c, f + 1), 64) == 0
    {
      assert f in IsolatedFiles(files) <==> f in files && f - 1 !in files && f + 1 !in files;
      assert f - 1 in files <==> Count(rules, p, PawnOnFile(c, f - 1), 64) > 0;
      assert f + 1 in files <==> Count(rules, p, PawnOnFile(c, f + 1), 64) > 0;
    }
  }

  /** A side without pawns has neither doubled nor isolated pawn files. */
  lemma NoPawnsNoWeaknesses<P, M>(rules: Rules<P, M>, p: P, c: Color)
    requires Count(rules, p, OfKind(c, Pawn), 64) == 0
    ensures DoubledFiles(PawnFiles(rules, p, c, 64), PawnSquares(rules, p, c, 64)) == {}
    ensures IsolatedFiles(PawnFiles(rules, p, c, 64)) == {}
  {
    PawnFilesAtMostPawns(rules, p, c, 64);
  }

  /**
   * The doubled and isolated features (26 and 27) each count (side, file)
   * pairs among the pawn files, so each lies between 0 and the total of the
   * half-open features (28 and 29); without pawns all of them are 0 and every
   * file is open.
   */
  lemma PawnStructureBounds<P, M>(rules: Rules<P, M>, p: P)
    ensures var f := Features(rules, p);
      && 0 <= f[26] <= f[28] + f[29]
      && 0 <= f[27] <= f[28] + f[29]
      && (f[3] == 0 && f[4] == 0 ==> f[26] == 0 && f[27] == 0 && f[28] == 0 && f[29] == 0 && f[30] == 8)
  {
    CountFeatureLayout(rules, p);
    HalfOpenFeatures(rules, p);
    OpenFilesFeature(rules, p);
  }
}
