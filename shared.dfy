/** The data shapes shared by client and server (Checkers.Shared.Models) and
    the 64-cell board they carry: one code per square in row-major order,
    spelt "" for an empty square, "w"/"b" for a white/black man and
    "W"/"B" for a white/black king. */
module Shared {
  import opened Squares
  import opened Wrappers

  /** The five cell codes. The source stores them as the strings that
      Spelling gives; every board it builds or receives holds only these. */
  datatype Code = Empty | WhiteMan | BlackMan | WhiteKing | BlackKing

  /** The string the source stores for a code: "", "w", "b", "W" or "B". */
  function Spelling(p: Code): (s: string)
    ensures (s == "") <==> p == Empty
  {
    match p
    case Empty => ""
    case WhiteMan => "w"
    case BlackMan => "b"
    case WhiteKing => "W"
    case BlackKing => "B"
  }

  /** Reads a cell string back; anything but the five spellings is not a code. */
  function Parse(s: string): (p: Option<Code>)
    ensures p.Some? ==> Spelling(p.value) == s
  {
    if s == "" then Some(Empty)
    else if s == "w" then Some(WhiteMan)
    else if s == "b" then Some(BlackMan)
    else if s == "W" then Some(WhiteKing)
    else if s == "B" then Some(BlackKing)
    else None
  }

  /** Spelling loses nothing: Parse inverts it, so two codes with one spelling are equal. */
  lemma ParseSpelling(p: Code)
    ensures Parse(Spelling(p)) == Some(p)
  {
    match p
    case Empty =>
    case WhiteMan =>
      assert "w" != "";
    case BlackMan =>
      assert "b" != "" && "b" != "w";
    case WhiteKing =>
      assert "W" != "" && "W" != "w" && "W" != "b";
    case BlackKing =>
      assert "B" != "" && "B" != "w" && "B" != "b" && "B" != "W";
  }

  predicate IsWhiteCode(p: Code) {
    p == WhiteMan || p == WhiteKing
  }

  predicate IsBlackCode(p: Code) {
    p == BlackMan || p == BlackKing
  }

  predicate IsKingCode(p: Code) {
    p == WhiteKing || p == BlackKing
  }

  /** A board as GameStateDto.Board is documented: one code per square. */
  predicate WellFormed(b: seq<Code>) {
    |b| == 64
  }

  /** Number of pieces of one colour, men and kings together. */
  function ColorCount(b: seq<Code>, white: bool): nat {
    if white then multiset(b)[WhiteMan] + multiset(b)[WhiteKing]
    else multiset(b)[BlackMan] + multiset(b)[BlackKing]
  }

  /** The standard start position in the string encoding: black men on the
      dark squares of rows 0-2, white men on the dark squares of rows 5-7. */
  function StartCode(i: int): Code
    requires 0 <= i < 64
  {
    if i < 24 && Dark(i) then BlackMan
    else if 40 <= i && Dark(i) then WhiteMan
    else Empty
  }

  function StartBoard(): (b: seq<Code>)
    ensures WellFormed(b)
  {
    seq(64, i requires 0 <= i < 64 => StartCode(i))
  }

  /** Each side starts with 12 men and no kings; there is nothing else on the board. */
  lemma StartBoardCounts()
    ensures multiset(StartBoard())[BlackMan] == 12
    ensures multiset(StartBoard())[WhiteMan] == 12
    ensures multiset(StartBoard())[WhiteKing] == 0 && multiset(StartBoard())[BlackKing] == 0
    ensures ColorCount(StartBoard(), true) == 12 && ColorCount(StartBoard(), false) == 12
  {
    var b := StartBoard();
    DarkBandCount(b, BlackMan, 0, 3);
    DarkBandCount(b, WhiteMan, 5, 8);
    assert WhiteKing !in multiset(b);
    assert BlackKing !in multiset(b);
  }

  /** MoveDto: source and target square and the client's capture flag. */
  datatype MoveDto = MoveDto(Sr: int, Sc: int, Tr: int, Tc: int, Capture: bool)

  /** PlayerDto; a null connection id is `None`. */
  datatype PlayerDto = PlayerDto(ConnectionId: Option<string>, Name: string, IsWhite: bool)

  /** GameStateDto; the nullable players and winner are options. */
  datatype GameStateDto = GameStateDto(
    GameId: string,
    PlayerWhite: Option<PlayerDto>,
    PlayerBlack: Option<PlayerDto>,
    Board: seq<Code>,
    WhiteTurn: bool,
    IsFinished: bool,
    Winner: Option<string>,
    Moves: seq<MoveDto>)
}
