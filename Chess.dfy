/**
 * Board geometry, pieces and the interface of the rules engine (python-chess)
 * that the evaluator and the search consult.  The rules engine itself is not
 * modelled: each query is a field of a `Rules` value, and every property proved
 * in this project holds for every such value.
 */
module Chess {
  import opened Wrappers

  datatype Color = White | Black

  function Opponent(c: Color): (o: Color)
    ensures o != c
  {
    if c == White then Black else White
  }

  datatype PieceType = Pawn | Knight | Bishop | Rook | Queen | King

  datatype Piece = Piece(color: Color, kind: PieceType)

  /** Squares are numbered rank * 8 + file, a1 = 0 … h8 = 63. */
  type Square = s: int | 0 <= s < 64

  /** What `piece_at` answers for each of the 64 squares. */
  type BoardSquares = b: seq<Option<Piece>> | |b| == 64 witness seq(64, _ => None)

  /** `square_rank`: the row of the square, counted from White's side. */
  function Rank(sq: Square): (r: int)
    ensures 0 <= r < 8 && r * 8 <= sq < r * 8 + 8
  {
    sq / 8
  }

  /** `square_file`: the column of the square, a = 0 … h = 7. */
  function File(sq: Square): (f: int)
    ensures 0 <= f < 8 && sq == Rank(sq) * 8 + f
  {
    sq % 8
  }

  function SquareAt(file: int, rank: int): (sq: Square)
    requires 0 <= file < 8 && 0 <= rank < 8
    ensures Rank(sq) == rank && File(sq) == file
  {
    rank * 8 + file
  }

  const D4: Square := SquareAt(3, 3)
  const E4: Square := SquareAt(4, 3)
  const D5: Square := SquareAt(3, 4)
  const E5: Square := SquareAt(4, 4)

  /** CENTER_SQUARES */
  const CenterSquares: seq<Square> := [D4, E4, D5, E5]

  /** PIECE_VALUES; the king has no entry. */
  const PieceValues: map<PieceType, nat> := map[Pawn := 1, Knight := 3, Bishop := 3, Rook := 5, Queen := 9]

  /** The keys of PIECE_VALUES in the dictionary's insertion (= iteration) order. */
  const PieceKinds: seq<PieceType> := [Pawn, Knight, Bishop, Rook, Queen]

  /** `PIECE_VALUES.get(ptype, 0)` */
  function PieceValue(k: PieceType): (v: nat)
    ensures v == 0 <==> k == King
    ensures v <= 9
  {
    assert k.Pawn? || k.Knight? || k.Bishop? || k.Rook? || k.Queen? || k.King?;
    if k in PieceValues then PieceValues[k] else 0
  }

  /** `PieceKinds` lists each key of `PieceValues` exactly once. */
  lemma PieceKindsAreKeys()
    ensures forall k :: k in PieceValues <==> k in PieceKinds
    ensures forall i, j :: 0 <= i < j < |PieceKinds| ==> PieceKinds[i] != PieceKinds[j]
  {
    forall k
      ensures k in PieceValues <==> k in PieceKinds
    {
      assert k.Pawn? || k.Knight? || k.Bishop? || k.Rook? || k.Queen? || k.King?;
    }
  }

  /** Every square index that can be a file: `set(range(8))`. */
  const AllFiles: set<int> := {0, 1, 2, 3, 4, 5, 6, 7}

  /**
   * The queries of the rules engine, as total functions of a position `P`;
   * `M` is the type of moves.  `legalMoves` lists the legal moves in
   * generation order and `push` applies a move.
   */
  datatype Rules<!P, !M> = Rules(
    pieces: P -> BoardSquares,
    attackers: (P, Color, Square) -> set<Square>,
    hasKingsideCastlingRights: (P, Color) -> bool,
    hasQueensideCastlingRights: (P, Color) -> bool,
    king: (P, Color) -> Square,
    turn: P -> Color,
    fullmoveNumber: P -> int,
    legalMoves: P -> seq<M>,
    push: (P, M) -> P,
    isGameOver: P -> bool)

  /**
   * The mutable board object: the current position and the stack of positions
   * saved by `Push`, which `Pop` restores.
   */
  class Board<P, M> {
    const rules: Rules<P, M>
    var position: P
    var stack: seq<P>

    constructor (rules: Rules<P, M>, start: P)
      ensures this.rules == rules && position == start && stack == []
    {
      this.rules := rules;
      position := start;
      stack := [];
    }

    method Push(m: M)
      modifies this
      ensures position == rules.push(old(position), m)
      ensures stack == old(stack) + [old(position)]
    {
      stack := stack + [position];
      position := rules.push(position, m);
    }

    method Pop()
      requires stack != []
      modifies this
      ensures position == old(stack)[|old(stack)| - 1]
      ensures stack == old(stack)[..|old(stack)| - 1]
    {
      position := stack[|stack| - 1];
      stack := stack[..|stack| - 1];
    }
  }
}
