/** The client's GameEngine (Checkers.Client/GameEngine.cs): an 8x8 board of
    PieceType and the side to move. ValidateMove accepts a diagonal step or a
    single diagonal jump over an enemy; men move forward only, kings either
    way but never further than two squares. MakeMove applies a valid move,
    promotes men on the far row and passes the turn only after a non-capture. */
module ClientEngine {
  import opened Squares
  import Wrappers

  datatype PieceType = None | White | Black | WhiteKing | BlackKing

  /** MoveResult; a freshly built result is all false with no captured square. */
  datatype MoveResult = MoveResult(
    IsValid: bool,
    IsCapture: bool,
    CapturedPiece: Wrappers.Option<(int, int)>,
    BecameKing: bool)

  const Rejected := MoveResult(false, false, Wrappers.None, false)

  /** A king of either colour; an empty square is not one. */
  predicate IsKing(p: PieceType) {
    p == WhiteKing || p == BlackKing
  }

  predicate IsWhite(p: PieceType) {
    p == White || p == WhiteKing
  }

  /** Two pieces of the same colour; an empty square has no colour. */
  predicate IsSameColor(a: PieceType, b: PieceType) {
    if a == None || b == None then false
    else (a == White || a == WhiteKing) == (b == White || b == WhiteKing)
  }

  /** Forward row step of a piece: -1 for white (towards row 0), +1 for black. */
  function Direction(p: PieceType): (d: int)
    ensures d == -1 || d == 1
  {
    if p == White || p == WhiteKing then -1 else 1
  }

  /** The side that moves next when the turn passes: White and Black swap. */
  function Opponent(turn: PieceType): (t: PieceType)
    ensures t == White || t == Black
    ensures turn == White || turn == Black ==> t != turn
  {
    if turn == White then Black else White
  }

  /** Passing the turn twice gives it back. */
  lemma OpponentSwaps(turn: PieceType)
    requires turn == White || turn == Black
    ensures Opponent(turn) != turn && Opponent(Opponent(turn)) == turn
  {
  }

  /** The start position laid out by ResetBoard. */
  function StartPiece(r: int, c: int): PieceType {
    if (r + c) % 2 == 1 && 0 <= r < 3 then Black
    else if (r + c) % 2 == 1 && 5 <= r < 8 then White
    else None
  }

  /** The piece a move leaves on its target: a man reaching the far row is crowned. */
  function Landed(p: PieceType, tr: int): PieceType {
    if p == White && tr == 0 then WhiteKing
    else if p == Black && tr == 7 then BlackKing
    else p
  }

  function PieceCount(s: seq<PieceType>, white: bool): nat {
    if white then multiset(s)[White] + multiset(s)[WhiteKing]
    else multiset(s)[Black] + multiset(s)[BlackKing]
  }

  /** Each side has 12 men in the start position. */
  lemma StartPieceCounts()
    ensures PieceCount(seq(64, i requires 0 <= i < 64 => StartPiece(i / 8, i % 8)), true) == 12
    ensures PieceCount(seq(64, i requires 0 <= i < 64 => StartPiece(i / 8, i % 8)), false) == 12
  {
    var s := seq(64, i requires 0 <= i < 64 => StartPiece(i / 8, i % 8));
    forall i | 0 <= i < 64
      ensures Dark(i) <==> (i / 8 + i % 8) % 2 == 1
    {
      DarkIsOddRowPlusCol(i / 8, i % 8);
    }
    DarkBandCount(s, Black, 0, 3);
    DarkBandCount(s, White, 5, 8);
    assert WhiteKing !in multiset(s);
    assert BlackKing !in multiset(s);
  }

  /** A piece's colour count is unaffected by crowning it. */
  lemma LandedKeepsColor(p: PieceType, tr: int)
    ensures IsWhite(Landed(p, tr)) == IsWhite(p)
    ensures Landed(p, tr) != None <==> p != None
    ensures IsKing(p) ==> Landed(p, tr) == p
  {
  }

  /** A piece is a king after its move exactly when it was one already or is
      a man reaching its far row. */
  lemma KingAfterLanding(p: PieceType, tr: int)
    ensures IsKing(Landed(p, tr)) <==> IsKing(p) || (p == White && tr == 0) || (p == Black && tr == 7)
  {
  }

  /** Having the same colour is an equivalence on the pieces, and the empty
      square is related to nothing. */
  lemma SameColorEquivalence(a: PieceType, b: PieceType, c: PieceType)
    ensures IsSameColor(a, b) ==> a != None && b != None
    ensures a != None ==> IsSameColor(a, a)
    ensures IsSameColor(a, b) == IsSameColor(b, a)
    ensures IsSameColor(a, b) && IsSameColor(b, c) ==> IsSameColor(a, c)
  {
  }

  /** Crowning keeps a piece on its side. */
  lemma SameColorLanded(a: PieceType, tr: int)
    requires a != None
    ensures IsSameColor(Landed(a, tr), a)
  {
  }

  /** Every piece belongs to exactly one of the side to move and the side the
      turn passes to. */
  lemma SameColorOpponent(p: PieceType, turn: PieceType)
    requires p != None && (turn == White || turn == Black)
    ensures IsSameColor(p, turn) != IsSameColor(p, Opponent(turn))
  {
  }

  /** Crowning keeps the forward direction, pieces of one colour share it, and
      the two colours move in opposite directions. */
  lemma DirectionByColor(p: PieceType, q: PieceType, tr: int)
    ensures Direction(Landed(p, tr)) == Direction(p)
    ensures IsSameColor(p, q) ==> Direction(p) == Direction(q)
    ensures p != None && q != None && !IsSameColor(p, q) ==> Direction(p) == -Direction(q)
  {
  }

  class GameEngine {
    var Board: array2<PieceType>
    var CurrentTurn: PieceType

    ghost predicate Valid()
      reads this
    {
      Board.Length0 == 8 && Board.Length1 == 8 &&
      (CurrentTurn == White || CurrentTurn == Black)
    }

    /** The board as a 64-cell row-major sequence, for counting pieces. */
    ghost function Cells(): (s: seq<PieceType>)
      requires Valid()
      reads this, Board
      ensures |s| == 64
      ensures forall r, c :: InBounds(r, c) ==> s[Idx(r, c)] == Board[r, c]
    {
      var b := Board;
      seq(64, i requires 0 <= i < 64 reads b => b[i / 8, i % 8])
    }

    constructor ()
      ensures Valid() && fresh(Board)
      ensures CurrentTurn == White
      ensures forall r, c :: InBounds(r, c) ==> Board[r, c] == StartPiece(r, c)
      ensures PieceCount(Cells(), true) == 12 && PieceCount(Cells(), false) == 12
    {
      Board := new PieceType[8, 8]((r, c) => None);
      CurrentTurn := White;
      new;
      ResetBoard();
    }

    /** A fresh board in the start position, white to move. */
    method ResetBoard()
      modifies this
      ensures Valid() && fresh(Board)
      ensures CurrentTurn == White
      ensures forall r, c :: InBounds(r, c) ==> Board[r, c] == StartPiece(r, c)
      ensures PieceCount(Cells(), true) == 12 && PieceCount(Cells(), false) == 12
    {
      Board := new PieceType[8, 8]((r, c) => None);
      CurrentTurn := White;

      for r := 0 to 3
        invariant fresh(Board) && Board.Length0 == 8 && Board.Length1 == 8 && CurrentTurn == White
        invariant forall r', c' :: InBounds(r', c') ==>
          Board[r', c'] == (if r' < r && (r' + c') % 2 == 1 then Black else None)
      {
        for c := 0 to 8
          invariant fresh(Board) && Board.Length0 == 8 && Board.Length1 == 8 && CurrentTurn == White
          invariant forall r', c' :: InBounds(r', c') ==>
            Board[r', c'] == (if (r' < r || (r' == r && c' < c)) && (r' + c') % 2 == 1 then Black else None)
        {
          if (r + c) % 2 == 1 {
            Board[r, c] := Black;
          }
        }
      }

      for r := 5 to 8
        invariant fresh(Board) && Board.Length0 == 8 && Board.Length1 == 8 && CurrentTurn == White
        invariant forall r', c' :: InBounds(r', c') ==>
          Board[r', c'] == (if r' < 3 && (r' + c') % 2 == 1 then Black
                            else if 5 <= r' < r && (r' + c') % 2 == 1 then White
                            else None)
      {
        for c := 0 to 8
          invariant fresh(Board) && Board.Length0 == 8 && Board.Length1 == 8 && CurrentTurn == White
          invariant forall r', c' :: InBounds(r', c') ==>
            Board[r', c'] == (if r' < 3 && (r' + c') % 2 == 1 then Black
                              else if (5 <= r' < r || (r' == r && c' < c)) && (r' + c') % 2 == 1 then White
                              else None)
        {
          if (r + c) % 2 == 1 {
            Board[r, c] := White;
          }
        }
      }
      StartCellsCounts(this);
    }

    /** Legality of moving the piece on (sr, sc) to (tr, tc); reads the board and
        the turn and changes nothing. */
    function ValidateMove(sr: int, sc: int, tr: int, tc: int): (result: MoveResult)
      requires Valid() && InBounds(sr, sc) && InBounds(tr, tc)
      reads this, Board
      // a validation never reports a promotion; MakeMove decides that
      ensures !result.BecameKing
      // the four early rejections
      ensures Board[sr, sc] == None ==> !result.IsValid
      ensures !IsSameColor(Board[sr, sc], CurrentTurn) ==> !result.IsValid
      ensures Abs(tr - sr) != Abs(tc - sc) ==> !result.IsValid
      ensures Abs(tr - sr) != 1 && Abs(tr - sr) != 2 ==> !result.IsValid
      // a simple step
      ensures Abs(tr - sr) == 1 && Abs(tc - sc) == 1 ==>
        (result.IsValid <==>
          IsSameColor(Board[sr, sc], CurrentTurn) && Board[tr, tc] == None &&
          (IsKing(Board[sr, sc]) || tr - sr == Direction(Board[sr, sc])))
      // a jump over the midpoint
      ensures Abs(tr - sr) == 2 && Abs(tc - sc) == 2 ==>
        (result.IsValid <==>
          IsSameColor(Board[sr, sc], CurrentTurn) && Board[tr, tc] == None &&
          Board[(sr + tr) / 2, (sc + tc) / 2] != None &&
          !IsSameColor(Board[(sr + tr) / 2, (sc + tc) / 2], Board[sr, sc]) &&
          (IsKing(Board[sr, sc]) || tr - sr == 2 * Direction(Board[sr, sc])))
      // a valid move is a capture exactly when it is a jump, and then names the midpoint
      ensures result.IsCapture <==> result.IsValid && Abs(tr - sr) == 2
      ensures result.CapturedPiece == if result.IsCapture then Wrappers.Some(((sr + tr) / 2, (sc + tc) / 2)) else Wrappers.None
    {
      var piece := Board[sr, sc];
      if piece == None then Rejected
      else if !IsSameColor(piece, CurrentTurn) then Rejected
      else
        var dr := tr - sr;
        var dc := tc - sc;
        if Abs(dr) != Abs(dc) then Rejected
        else
          var isKing := IsKing(piece);
          var direction := if piece == White || piece == WhiteKing then -1 else 1;
          if Abs(dr) == 1 then
            if !isKing && dr != direction then Rejected
            else if Board[tr, tc] != None then Rejected
            else MoveResult(true, false, Wrappers.None, false)
          else if Abs(dr) == 2 then
            var mr := (sr + tr) / 2;
            var mc := (sc + tc) / 2;
            var middle := Board[mr, mc];
            if middle == None then Rejected
            else if IsSameColor(middle, piece) then Rejected
            else if !isKing && dr != 2 * direction then Rejected
            else if Board[tr, tc] != None then Rejected
            else MoveResult(true, true, Wrappers.Some((mr, mc)), false)
          else Rejected
    }

    /** Applies a valid move in place; an invalid one changes nothing. */
    method MakeMove(sr: int, sc: int, tr: int, tc: int) returns (vr: MoveResult)
      requires Valid() && InBounds(sr, sc) && InBounds(tr, tc)
      modifies this, Board
      ensures Valid() && Board == old(Board)
      // the outcome is the validation's, plus the promotion flag
      ensures vr.IsValid == old(ValidateMove(sr, sc, tr, tc)).IsValid
      ensures vr.IsCapture == old(ValidateMove(sr, sc, tr, tc)).IsCapture
      ensures vr.CapturedPiece == old(ValidateMove(sr, sc, tr, tc)).CapturedPiece
      // an invalid move is reported as validated and leaves everything alone
      ensures !vr.IsValid ==> vr == old(ValidateMove(sr, sc, tr, tc))
      ensures !vr.IsValid ==> CurrentTurn == old(CurrentTurn) && Cells() == old(Cells())
      // a valid move: source emptied, target holds the (possibly crowned) piece,
      // the jumped piece is removed, nothing else changes
      ensures vr.IsValid ==> Board[sr, sc] == None
      ensures vr.IsValid ==> Board[tr, tc] == Landed(old(Board[sr, sc]), tr)
      ensures vr.IsValid && vr.IsCapture ==> Board[(sr + tr) / 2, (sc + tc) / 2] == None
      ensures vr.IsValid ==>
        forall r, c ::
          InBounds(r, c) && (r, c) != (sr, sc) && (r, c) != (tr, tc) &&
          (vr.IsCapture ==> (r, c) != ((sr + tr) / 2, (sc + tc) / 2))
          ==> Board[r, c] == old(Board[r, c])
      // crowning: exactly a white man on row 0 or a black man on row 7
      ensures vr.BecameKing <==> vr.IsValid && ((old(Board[sr, sc]) == White && tr == 0) ||
                                               (old(Board[sr, sc]) == Black && tr == 7))
      // the turn passes after a non-capture and stays after a capture
      ensures vr.IsValid ==> CurrentTurn == if vr.IsCapture then old(CurrentTurn) else Opponent(old(CurrentTurn))
      // the mover keeps all its pieces, the opponent loses exactly the captured one
      ensures vr.IsValid ==> PieceCount(Cells(), IsWhite(old(Board[sr, sc]))) ==
                             old(PieceCount(Cells(), IsWhite(Board[sr, sc])))
      ensures vr.IsValid ==> PieceCount(Cells(), !IsWhite(old(Board[sr, sc]))) ==
                             old(PieceCount(Cells(), !IsWhite(Board[sr, sc]))) - (if vr.IsCapture then 1 else 0)
    {
      ghost var before := Cells();
      vr := ValidateMove(sr, sc, tr, tc);
      if !vr.IsValid {
        return;
      }

      var piece := Board[sr, sc];

      Board[sr, sc] := None;
      Board[tr, tc] := piece;

      if vr.IsCapture && vr.CapturedPiece != Wrappers.None {
        var (cr, cc) := vr.CapturedPiece.value;
        Board[cr, cc] := None;
      }

      if piece == White && tr == 0 {
        Board[tr, tc] := WhiteKing;
        vr := vr.(BecameKing := true);
      }
      if piece == Black && tr == 7 {
        Board[tr, tc] := BlackKing;
        vr := vr.(BecameKing := true);
      }

      if !vr.IsCapture {
        CurrentTurn := if CurrentTurn == White then Black else White;
      }

      MoveCountsOnBoard(this, before, piece, sr, sc, tr, tc, vr.IsCapture);
    }
  }

  /** MoveCounts stated on the engine's board: `before` is the board before the
      move, read cell by cell. */
  /** An engine whose board holds the start position has 12 pieces a side. */
  lemma StartCellsCounts(e: GameEngine)
    requires e.Valid()
    requires forall r, c :: InBounds(r, c) ==> e.Board[r, c] == StartPiece(r, c)
    ensures PieceCount(e.Cells(), true) == 12 && PieceCount(e.Cells(), false) == 12
  {
    var s := seq(64, i requires 0 <= i < 64 => StartPiece(i / 8, i % 8));
    forall i | 0 <= i < 64
      ensures e.Cells()[i] == s[i]
    {
      CoordsIdx(i);
    }
    assert e.Cells() == s;
    StartPieceCounts();
  }

  lemma MoveCountsOnBoard(e: GameEngine, before: seq<PieceType>, piece: PieceType,
                          sr: int, sc: int, tr: int, tc: int, capture: bool)
    requires e.Valid() && InBounds(sr, sc) && InBounds(tr, tc) && (sr, sc) != (tr, tc)
    requires |before| == 64 && piece != None
    requires before[Idx(sr, sc)] == piece && before[Idx(tr, tc)] == None
    requires capture ==> Abs(tr - sr) == 2 && Abs(tc - sc) == 2
    requires capture ==> before[Idx((sr + tr) / 2, (sc + tc) / 2)] != None &&
                         IsWhite(before[Idx((sr + tr) / 2, (sc + tc) / 2)]) != IsWhite(piece)
    requires e.Board[sr, sc] == None && e.Board[tr, tc] == Landed(piece, tr)
    requires capture ==> e.Board[(sr + tr) / 2, (sc + tc) / 2] == None
    requires forall r, c ::
               InBounds(r, c) && (r, c) != (sr, sc) && (r, c) != (tr, tc) &&
               (capture ==> (r, c) != ((sr + tr) / 2, (sc + tc) / 2))
               ==> e.Board[r, c] == before[Idx(r, c)]
    ensures PieceCount(e.Cells(), IsWhite(piece)) == PieceCount(before, IsWhite(piece))
    ensures PieceCount(e.Cells(), !IsWhite(piece)) == PieceCount(before, !IsWhite(piece)) - (if capture then 1 else 0)
  {
    var after := e.Cells();
    var si, ti := Idx(sr, sc), Idx(tr, tc);
    var ci := if capture then Wrappers.Some(Idx((sr + tr) / 2, (sc + tc) / 2)) else Wrappers.None;
    forall i | 0 <= i < 64 && i != si && i != ti && (ci.Some? ==> i != ci.value)
      ensures after[i] == before[i]
    {
      var r, c := i / 8, i % 8;
      assert i == Idx(r, c);
    }
    MoveCounts(before, after, piece, tr, si, ti, ci);
  }

  /** Emptying an occupied square takes one piece from its owner's count only. */
  lemma Vacate(s: seq<PieceType>, i: int)
    requires 0 <= i < |s| && s[i] != None
    ensures PieceCount(s[i := None], IsWhite(s[i])) == PieceCount(s, IsWhite(s[i])) - 1
    ensures PieceCount(s[i := None], !IsWhite(s[i])) == PieceCount(s, !IsWhite(s[i]))
  {
    assert multiset(s[i := None]) == multiset(s) - multiset{s[i]} + multiset{None};
    assert s[i] in multiset(s);
  }

  /** Putting a piece on an empty square adds one to its owner's count only. */
  lemma Occupy(s: seq<PieceType>, i: int, v: PieceType)
    requires 0 <= i < |s| && s[i] == None && v != None
    ensures PieceCount(s[i := v], IsWhite(v)) == PieceCount(s, IsWhite(v)) + 1
    ensures PieceCount(s[i := v], !IsWhite(v)) == PieceCount(s, !IsWhite(v))
  {
    assert multiset(s[i := v]) == multiset(s) - multiset{None} + multiset{v};
    assert None in multiset(s);
  }

  /** A move conserves the mover's pieces and takes exactly the captured one from the opponent. */
  lemma MoveCounts(before: seq<PieceType>, after: seq<PieceType>, piece: PieceType, tr: int,
                   si: int, ti: int, ci: Wrappers.Option<int>)
    requires |before| == |after| == 64 && 0 <= si < 64 && 0 <= ti < 64 && si != ti
    requires piece != None && before[si] == piece && before[ti] == None
    requires ci.Some? ==> 0 <= ci.value < 64 && ci.value != si && ci.value != ti &&
                          before[ci.value] != None && IsWhite(before[ci.value]) != IsWhite(piece)
    requires after[si] == None && after[ti] == Landed(piece, tr)
    requires ci.Some? ==> after[ci.value] == None
    requires forall i :: 0 <= i < 64 && i != si && i != ti && (ci.Some? ==> i != ci.value) ==> after[i] == before[i]
    ensures PieceCount(after, IsWhite(piece)) == PieceCount(before, IsWhite(piece))
    ensures PieceCount(after, !IsWhite(piece)) == PieceCount(before, !IsWhite(piece)) - (if ci.Some? then 1 else 0)
  {
    var s1 := before[si := None];
    Vacate(before, si);
    var s2 := s1[ti := Landed(piece, tr)];
    LandedKeepsColor(piece, tr);
    Occupy(s1, ti, Landed(piece, tr));
    if ci.Some? {
      var s3 := s2[ci.value := None];
      Vacate(s2, ci.value);
      assert after == s3;
    } else {
      assert after == s2;
    }
  }

}
