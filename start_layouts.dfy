/** The three start layouts agree: GameEngine.ResetBoard on the 8x8 PieceType
    board, and the two CreateInitialBoard copies (window and hub) on the
    64-cell string board, both of which are proved to build StartBoard. The
    engines also agree on colours and on crowning under the obvious
    correspondence of their piece encodings. */
module StartLayouts {
  import opened Squares
  import opened Shared
  import opened ClientEngine
  import LocalRules

  /** PieceType as a cell code: None as "", White as "w", Black as "b",
      WhiteKing as "W", BlackKing as "B". */
  function ToCode(p: PieceType): (q: Code)
    ensures (q == Empty) <==> p == None
  {
    match p
    case None => Empty
    case White => WhiteMan
    case Black => BlackMan
    case WhiteKing => Shared.WhiteKing
    case BlackKing => Shared.BlackKing
  }

  /** The correspondence keeps colour and rank. */
  lemma ToCodeAgrees(p: PieceType)
    ensures IsWhiteCode(ToCode(p)) <==> p != None && IsWhite(p)
    ensures IsBlackCode(ToCode(p)) <==> p != None && !IsWhite(p)
    ensures IsKingCode(ToCode(p)) <==> IsKing(p)
  {
  }

  /** Both engines crown the same men on the same rows. */
  lemma CrowningAgrees(p: PieceType, row: int)
    ensures ToCode(Landed(p, row)) == LocalRules.PromoteCell(ToCode(p), row)
  {
  }

  /** ResetBoard's position, read in row-major order, is the string start
      board: `(r + c) % 2 == 1` and `(i / 8 + i) % 2 == 1` pick the same
      squares, and rows 0-2 and 5-7 are indices 0-23 and 40-63. */
  lemma ResetMatchesStartBoard(r: int, c: int)
    requires InBounds(r, c)
    ensures ToCode(StartPiece(r, c)) == StartBoard()[Idx(r, c)]
  {
    DarkIsOddRowPlusCol(r, c);
    assert Idx(r, c) < 24 <==> r < 3;
    assert Idx(r, c) >= 40 <==> r >= 5;
  }

  /** The engine's colour test is the window's friend test under ToCode. */
  lemma SameColorAgrees(p: PieceType, q: PieceType)
    requires p != None && q != None
    ensures IsSameColor(p, q) <==> LocalRules.IsFriend(ToCode(p), IsWhiteCode(ToCode(q)))
  {
  }

  /** The start board is point-symmetric with the colours swapped: turning it
      half a turn, which sends cell `i` to cell `63 - i`, puts a white man
      wherever a black man stood and the reverse. */
  lemma StartBoardSymmetric(i: int)
    requires 0 <= i < 64
    ensures StartBoard()[i] == BlackMan <==> StartBoard()[63 - i] == WhiteMan
    ensures StartBoard()[i] == WhiteMan <==> StartBoard()[63 - i] == BlackMan
    ensures StartBoard()[i] == Empty <==> StartBoard()[63 - i] == Empty
  {
    assert StartBoard()[i] == StartCode(i);
    assert StartBoard()[63 - i] == StartCode(63 - i);
    DarkMirror(i);
  }

  /** The half turn maps dark squares to dark squares. */
  lemma DarkMirror(i: int)
    requires 0 <= i < 64
    ensures Dark(i) <==> Dark(63 - i)
  {
    var r, c := i / 8, i % 8;
    CoordsIdx(i);
    DarkMirrorAt(r, c);
    var j, k := Idx(r, c), Idx(7 - r, 7 - c);
    assert j == i && k == 63 - i;
  }

  lemma DarkMirrorAt(r: int, c: int)
    requires InBounds(r, c)
    ensures Idx(7 - r, 7 - c) == 63 - Idx(r, c)
    ensures Dark(Idx(r, c)) <==> Dark(Idx(7 - r, 7 - c))
  {
    DarkIsOddRowPlusCol(r, c);
    DarkIsOddRowPlusCol(7 - r, 7 - c);
    EvenShift(14 - r - c, 7 - r - c, r + c);
  }
}
