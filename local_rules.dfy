/** The rules the WPF window applies to its own copy of the game state
    (Checkers.Client/MainWindow.xaml.cs). The state is the 64-cell string
    board of GameStateDto and its WhiteTurn flag. Kings slide any distance
    along a diagonal and may jump one enemy on the way; men step forward and
    jump in both directions. After a capture the turn stays with the mover
    while the landing square offers another capture. */
module LocalRules {
  import opened Squares
  import opened Wrappers
  import opened Shared

  /** A piece of the side `white` (the source's "own piece" test). */
  predicate IsFriend(p: Code, white: bool) {
    (white && (p == WhiteMan || p == WhiteKing)) || (!white && (p == BlackMan || p == BlackKing))
  }

  /** A piece of the other side. */
  predicate IsEnemy(p: Code, white: bool) {
    (white && (p == BlackMan || p == BlackKing)) || (!white && (p == WhiteMan || p == WhiteKing))
  }

  /** The cell `k` steps from (r, c) along the diagonal whose row and column
      signs are those of `dr` and `dc`; off the board it reads as empty, which
      every use below rules out or does not rely on. */
  function RayCell(b: seq<Code>, r: int, c: int, dr: int, dc: int, k: int): Code
    requires |b| == 64
  {
    if InBounds(Along(r, dr, k), Along(c, dc, k)) then b[Idx(Along(r, dr, k), Along(c, dc, k))] else Empty
  }

  // ---------------------------------------------------------------- queries

  /** A man on (r, c) can jump in direction (dr, dc): the adjacent cell holds an
      enemy and the cell beyond it is on the board and empty. */
  predicate JumpOpen(b: seq<Code>, r: int, c: int, dr: int, dc: int, white: bool)
    requires |b| == 64
  {
    InBounds(r + dr, c + dc) && InBounds(r + 2 * dr, c + 2 * dc) &&
    IsEnemy(b[Idx(r + dr, c + dc)], white) && b[Idx(r + 2 * dr, c + 2 * dc)] == Empty
  }

  /** What HasMoreCaptures decides: a jump is open in one of the four directions. */
  predicate ManCaptureAvailable(b: seq<Code>, r: int, c: int, white: bool)
    requires |b| == 64
  {
    JumpOpen(b, r, c, 1, 1, white) || JumpOpen(b, r, c, 1, -1, white) ||
    JumpOpen(b, r, c, -1, 1, white) || JumpOpen(b, r, c, -1, -1, white)
  }

  /** The first step at or after `k` along the ray (dr, dc) from (r, c) that is
      off the board or occupied; every step before it is an empty square. */
  function FirstStop(b: seq<Code>, r: int, c: int, dr: int, dc: int, k: int): (s: int)
    requires |b| == 64 && InBounds(r, c) && 1 <= k <= 8
    ensures k <= s <= 8
    ensures !InBounds(Along(r, dr, s), Along(c, dc, s)) || RayCell(b, r, c, dr, dc, s) != Empty
    decreases 8 - k
  {
    if !InBounds(Along(r, dr, k), Along(c, dc, k)) || RayCell(b, r, c, dr, dc, k) != Empty then k
    else FirstStop(b, r, c, dr, dc, k + 1)
  }

  /** Every step before the stop is an empty square on the board. */
  lemma {:induction false} FirstStopClear(b: seq<Code>, r: int, c: int, dr: int, dc: int, k: int, j: int)
    requires |b| == 64 && InBounds(r, c) && 1 <= k <= 8
    requires k <= j < FirstStop(b, r, c, dr, dc, k)
    ensures InBounds(Along(r, dr, j), Along(c, dc, j)) && RayCell(b, r, c, dr, dc, j) == Empty
    decreases 8 - k
  {
    if j > k {
      FirstStopClear(b, r, c, dr, dc, k + 1, j);
    }
  }

  /** What one ray of HasMoreKingCaptures decides: the first piece along the
      ray is an enemy and the square right behind it is on the board and empty. */
  predicate RayCapture(b: seq<Code>, r: int, c: int, dr: int, dc: int, white: bool)
    requires |b| == 64 && InBounds(r, c)
  {
    var s := FirstStop(b, r, c, dr, dc, 1);
    InBounds(Along(r, dr, s), Along(c, dc, s)) && IsEnemy(RayCell(b, r, c, dr, dc, s), white) &&
    InBounds(Along(r, dr, s + 1), Along(c, dc, s + 1)) && RayCell(b, r, c, dr, dc, s + 1) == Empty
  }

  /** What HasMoreKingCaptures decides: one of the four rays offers a capture. */
  predicate KingCaptureAvailable(b: seq<Code>, r: int, c: int, white: bool)
    requires |b| == 64 && InBounds(r, c)
  {
    RayCapture(b, r, c, -1, -1, white) || RayCapture(b, r, c, -1, 1, white) ||
    RayCapture(b, r, c, 1, -1, white) || RayCapture(b, r, c, 1, 1, white)
  }

  /** A jump over the `k`-th square of the ray: all squares before it are empty,
      it holds an enemy, and the square after it is on the board and empty. */
  predicate RayWitness(b: seq<Code>, r: int, c: int, dr: int, dc: int, white: bool, k: int)
    requires |b| == 64 && InBounds(r, c)
  {
    1 <= k && InBounds(Along(r, dr, k + 1), Along(c, dc, k + 1)) &&
    (forall j :: 1 <= j < k ==> RayCell(b, r, c, dr, dc, j) == Empty) &&
    IsEnemy(RayCell(b, r, c, dr, dc, k), white) &&
    RayCell(b, r, c, dr, dc, k + 1) == Empty
  }

  /** The scan and the declarative reading agree: a ray offers a capture exactly
      when some square of it can be jumped. */
  lemma RayCaptureWitness(b: seq<Code>, r: int, c: int, dr: int, dc: int, white: bool)
    requires |b| == 64 && InBounds(r, c)
    ensures RayCapture(b, r, c, dr, dc, white) <==> exists k :: RayWitness(b, r, c, dr, dc, white, k)
  {
    if RayCapture(b, r, c, dr, dc, white) {
      var s := CaptureWitness(b, r, c, dr, dc, white);
    }
    if k :| RayWitness(b, r, c, dr, dc, white, k) {
      WitnessCaptures(b, r, c, dr, dc, white, k);
    }
  }

  /** The jump RayCapture finds is over the square where the ray stops. */
  lemma CaptureWitness(b: seq<Code>, r: int, c: int, dr: int, dc: int, white: bool) returns (s: int)
    requires |b| == 64 && InBounds(r, c)
    requires RayCapture(b, r, c, dr, dc, white)
    ensures RayWitness(b, r, c, dr, dc, white, s)
  {
    s := FirstStop(b, r, c, dr, dc, 1);
    forall j | 1 <= j < s
      ensures RayCell(b, r, c, dr, dc, j) == Empty
    {
      FirstStopClear(b, r, c, dr, dc, 1, j);
    }
  }

  /** A square that can be jumped is where the ray stops. */
  lemma WitnessCaptures(b: seq<Code>, r: int, c: int, dr: int, dc: int, white: bool, k: int)
    requires |b| == 64 && InBounds(r, c)
    requires RayWitness(b, r, c, dr, dc, white, k)
    ensures RayCapture(b, r, c, dr, dc, white)
  {
    var s := FirstStop(b, r, c, dr, dc, 1);
    if s > k {
      FirstStopClear(b, r, c, dr, dc, 1, k);
    }
    assert s == k;
  }

  /** The `while` loop of HasMoreKingCaptures for one ray, as a recursive
      reading: the answer from step `k` on, `enemyFound` telling whether the
      previous square held the first enemy met. */
  predicate RayFrom(b: seq<Code>, r: int, c: int, dr: int, dc: int, white: bool, k: int, enemyFound: bool)
    requires |b| == 64 && InBounds(r, c) && 1 <= k <= 8
    decreases 8 - k
  {
    if !InBounds(Along(r, dr, k), Along(c, dc, k)) then false
    else
      var p := RayCell(b, r, c, dr, dc, k);
      if p != Empty then
        if IsFriend(p, white) || enemyFound then false
        else RayFrom(b, r, c, dr, dc, white, k + 1, true)
      else enemyFound || RayFrom(b, r, c, dr, dc, white, k + 1, false)
  }

  /** Walking the ray step by step answers the same question as RayCapture:
      from any step `k` with no enemy seen yet, the scan finds a capture exactly
      when the first piece at or after `k` is an enemy with an empty square behind it. */
  lemma {:induction false} RayFromStop(b: seq<Code>, r: int, c: int, dr: int, dc: int, white: bool, k: int)
    requires |b| == 64 && InBounds(r, c) && 1 <= k <= 8
    ensures var s := FirstStop(b, r, c, dr, dc, k);
            RayFrom(b, r, c, dr, dc, white, k, false) <==>
              InBounds(Along(r, dr, s), Along(c, dc, s)) && IsEnemy(RayCell(b, r, c, dr, dc, s), white) &&
              InBounds(Along(r, dr, s + 1), Along(c, dc, s + 1)) && RayCell(b, r, c, dr, dc, s + 1) == Empty
    decreases 8 - k
  {
    if InBounds(Along(r, dr, k), Along(c, dc, k)) && RayCell(b, r, c, dr, dc, k) == Empty {
      RayFromStop(b, r, c, dr, dc, white, k + 1);
    } else if InBounds(Along(r, dr, k), Along(c, dc, k)) && !IsFriend(RayCell(b, r, c, dr, dc, k), white) {
      assert k + 1 <= 8;
      assert RayFrom(b, r, c, dr, dc, white, k + 1, true) <==>
             InBounds(Along(r, dr, k + 1), Along(c, dc, k + 1)) && RayCell(b, r, c, dr, dc, k + 1) == Empty;
    }
  }

  /** The four rays of KingCaptureAvailable, read as scans. */
  lemma KingRays(b: seq<Code>, r: int, c: int, white: bool)
    requires |b| == 64 && InBounds(r, c)
    ensures KingCaptureAvailable(b, r, c, white) <==>
              RayFrom(b, r, c, -1, -1, white, 1, false) || RayFrom(b, r, c, -1, 1, white, 1, false) ||
              RayFrom(b, r, c, 1, -1, white, 1, false) || RayFrom(b, r, c, 1, 1, white, 1, false)
  {
    RayFromStop(b, r, c, -1, -1, white, 1);
    RayFromStop(b, r, c, -1, 1, white, 1);
    RayFromStop(b, r, c, 1, -1, white, 1);
    RayFromStop(b, r, c, 1, 1, white, 1);
  }

  // ------------------------------------------------------ promotion, rays

  /** The code TryPromoteToKing leaves in a cell on `row`. */
  function PromoteCell(p: Code, row: int): (q: Code)
    ensures IsWhiteCode(q) == IsWhiteCode(p) && IsBlackCode(q) == IsBlackCode(p)
    ensures (q == Empty) == (p == Empty)
    ensures IsKingCode(q) <==> IsKingCode(p) || (p == WhiteMan && row == 0) || (p == BlackMan && row == 7)
    ensures !IsKingCode(q) ==> q == p
  {
    if p == WhiteMan && row == 0 then WhiteKing
    else if p == BlackMan && row == 7 then BlackKing
    else p
  }

  /** A friend stands on one of the steps 1 .. n-1 of the ray: strictly
      between the source and the target `n` steps away. */
  predicate RayHasFriend(b: seq<Code>, sr: int, sc: int, dr: int, dc: int, n: int, white: bool)
    requires |b| == 64
  {
    exists j :: 1 <= j < n && IsFriend(RayCell(b, sr, sc, dr, dc, j), white)
  }

  /** At least two of the steps 1 .. n-1 of the ray are occupied. */
  predicate RayTwoOccupied(b: seq<Code>, sr: int, sc: int, dr: int, dc: int, n: int)
    requires |b| == 64
  {
    exists i, j :: 1 <= i < j < n && RayCell(b, sr, sc, dr, dc, i) != Empty && RayCell(b, sr, sc, dr, dc, j) != Empty
  }

  // ------------------------------------------------ the move, as a value

  /** The verdict ApplyMoveLocal reaches before it writes anything: refused, or
      accepted with the index of the captured cell if there is one. */
  datatype LocalCheck = Refused | Accepted(captured: Option<int>)

  datatype LocalState = LocalState(Board: seq<Code>, WhiteTurn: bool)

  predicate MoveInBounds(m: MoveDto) {
    InBounds(m.Sr, m.Sc) && InBounds(m.Tr, m.Tc)
  }

  /** The king branch of ApplyMoveLocal: the diagonal must be clear of friends
      and hold at most one piece, which is then captured. */
  function KingVerdict(b: seq<Code>, m: MoveDto, isWhite: bool): (chk: LocalCheck)
    requires WellFormed(b) && MoveInBounds(m) && (m.Sr, m.Sc) != (m.Tr, m.Tc)
    ensures chk.Accepted? ==> Abs(m.Tr - m.Sr) == Abs(m.Tc - m.Sc)
    ensures chk.Accepted? && chk.captured.Some? ==>
              0 <= chk.captured.value < 64 && b[chk.captured.value] != Empty &&
              !IsFriend(b[chk.captured.value], isWhite) &&
              chk.captured.value != Idx(m.Sr, m.Sc) && chk.captured.value != Idx(m.Tr, m.Tc)
  {
    var dr, dc, n := m.Tr - m.Sr, m.Tc - m.Sc, Abs(m.Tr - m.Sr);
    if Abs(dr) == Abs(dc) && !RayHasFriend(b, m.Sr, m.Sc, dr, dc, n, isWhite) && !RayTwoOccupied(b, m.Sr, m.Sc, dr, dc, n)
    then Accepted(KingCapture(b, m.Sr, m.Sc, dr, dc, n))
    else Refused
  }

  /** The piece an accepted king move captures: the first occupied square
      strictly before the target `n` steps along the ray, if there is one. */
  function KingCapture(b: seq<Code>, sr: int, sc: int, dr: int, dc: int, n: int): (cap: Option<int>)
    requires WellFormed(b) && InBounds(sr, sc) && 1 <= n <= 8
    requires InBounds(Along(sr, dr, n), Along(sc, dc, n))
  {
    var f := FirstStop(b, sr, sc, dr, dc, 1);
    if f >= n then None
    else
      assert InBounds(Along(sr, dr, f), Along(sc, dc, f));
      Some(Idx(Along(sr, dr, f), Along(sc, dc, f)))
  }

  /** The scan of the king branch of ApplyMoveLocal as a recursive reading:
      the verdict from step `k` of `n` on, `cap` holding the cell of the one
      piece already met. A friend, or a second piece, refuses the move. */
  function KingScan(b: seq<Code>, sr: int, sc: int, dr: int, dc: int, white: bool,
                    n: int, k: int, cap: Option<int>): LocalCheck
    requires |b| == 64 && 1 <= k <= n
    decreases n - k
  {
    if k == n then Accepted(cap)
    else
      var p := RayCell(b, sr, sc, dr, dc, k);
      if p == Empty then KingScan(b, sr, sc, dr, dc, white, n, k + 1, cap)
      else if IsFriend(p, white) || cap.Some? then Refused
      else KingScan(b, sr, sc, dr, dc, white, n, k + 1, Some(Idx(Along(sr, dr, k), Along(sc, dc, k))))
  }

  /** One step of the king's scan. */
  lemma KingScanStep(b: seq<Code>, sr: int, sc: int, dr: int, dc: int, white: bool,
                     n: int, k: int, cap: Option<int>)
    requires |b| == 64 && 1 <= k < n
    ensures RayCell(b, sr, sc, dr, dc, k) == Empty ==>
              KingScan(b, sr, sc, dr, dc, white, n, k, cap) == KingScan(b, sr, sc, dr, dc, white, n, k + 1, cap)
    ensures RayCell(b, sr, sc, dr, dc, k) != Empty && (IsFriend(RayCell(b, sr, sc, dr, dc, k), white) || cap.Some?) ==>
              KingScan(b, sr, sc, dr, dc, white, n, k, cap) == Refused
    ensures RayCell(b, sr, sc, dr, dc, k) != Empty && !IsFriend(RayCell(b, sr, sc, dr, dc, k), white) && cap.None? ==>
              InBounds(Along(sr, dr, k), Along(sc, dc, k)) &&
              KingScan(b, sr, sc, dr, dc, white, n, k, cap) ==
              KingScan(b, sr, sc, dr, dc, white, n, k + 1, Some(Idx(Along(sr, dr, k), Along(sc, dc, k))))
  {
  }

  /** The square a two-square diagonal move passes over, `(sr + dr / 2, sc + dc / 2)`. */
  function JumpedSquare(m: MoveDto): (i: int)
    requires MoveInBounds(m) && Abs(m.Tr - m.Sr) == 2 && Abs(m.Tc - m.Sc) == 2
    ensures 0 <= i < 64
  {
    Idx(Along(m.Sr, m.Tr - m.Sr, 1), Along(m.Sc, m.Tc - m.Sc, 1))
  }

  /** The man branch of ApplyMoveLocal: a forward step, or a jump in either
      direction over an enemy. */
  function ManVerdict(b: seq<Code>, m: MoveDto, piece: Code, isWhite: bool): (chk: LocalCheck)
    requires WellFormed(b) && MoveInBounds(m)
    ensures chk.Accepted? && chk.captured.Some? ==>
              0 <= chk.captured.value < 64 && b[chk.captured.value] != Empty &&
              !IsFriend(b[chk.captured.value], isWhite) &&
              chk.captured.value != Idx(m.Sr, m.Sc) && chk.captured.value != Idx(m.Tr, m.Tc)
  {
    var dr, dc := m.Tr - m.Sr, m.Tc - m.Sc;
    if Abs(dr) == 1 && Abs(dc) == 1 then
      if (piece == WhiteMan && dr != -1) || (piece == BlackMan && dr != 1) then Refused
      else Accepted(None)
    else if Abs(dr) == 2 && Abs(dc) == 2 then
      var ci := JumpedSquare(m);
      if b[ci] == Empty || IsFriend(b[ci], isWhite) then Refused
      else Accepted(Some(ci))
    else Refused
  }

  /** The verdict of ApplyMoveLocal on `m`: the early rejections, then the
      king or the man rules. */
  function CheckLocal(b: seq<Code>, whiteTurn: bool, m: MoveDto): (chk: LocalCheck)
    requires WellFormed(b) && MoveInBounds(m)
    ensures chk.Accepted? ==> b[Idx(m.Sr, m.Sc)] != Empty && b[Idx(m.Tr, m.Tc)] == Empty
    ensures chk.Accepted? ==> IsWhiteCode(b[Idx(m.Sr, m.Sc)]) == whiteTurn
    ensures chk.Accepted? && chk.captured.Some? ==>
              0 <= chk.captured.value < 64 &&
              IsEnemy(b[chk.captured.value], IsWhiteCode(b[Idx(m.Sr, m.Sc)])) &&
              chk.captured.value != Idx(m.Sr, m.Sc) && chk.captured.value != Idx(m.Tr, m.Tc)
  {
    var si, ti := Idx(m.Sr, m.Sc), Idx(m.Tr, m.Tc);
    var piece := b[si];
    if piece == Empty then Refused
    else if IsWhiteCode(piece) != whiteTurn then Refused
    else if b[ti] != Empty then Refused
    else if IsKingCode(piece) then KingVerdict(b, m, IsWhiteCode(piece))
    else ManVerdict(b, m, piece, IsWhiteCode(piece))
  }

  /** What an accepted move writes: the captured cell cleared, the piece moved
      (and crowned on the far row), and the turn kept only after a capture that
      leaves another capture open from the landing square. */
  function Commit(s: LocalState, m: MoveDto, cap: Option<int>): (t: LocalState)
    requires WellFormed(s.Board) && MoveInBounds(m)
    requires cap.Some? ==> 0 <= cap.value < 64
    ensures WellFormed(t.Board)
  {
    var si, ti := Idx(m.Sr, m.Sc), Idx(m.Tr, m.Tc);
    var piece := s.Board[si];
    var cleared := if cap.Some? then s.Board[cap.value := Empty] else s.Board;
    var after := cleared[ti := PromoteCell(piece, m.Tr)][si := Empty];
    var keepsTurn :=
      cap.Some? &&
      if IsKingCode(piece) then KingCaptureAvailable(after, m.Tr, m.Tc, piece == WhiteKing)
      else ManCaptureAvailable(after, m.Tr, m.Tc, IsWhiteCode(piece));
    LocalState(after, if keepsTurn then s.WhiteTurn else !s.WhiteTurn)
  }

  /** The state ApplyMoveLocal leaves: unchanged when the move is refused. */
  function ApplyLocal(s: LocalState, m: MoveDto): (t: LocalState)
    requires WellFormed(s.Board) && MoveInBounds(m)
    ensures WellFormed(t.Board)
  {
    match CheckLocal(s.Board, s.WhiteTurn, m)
    case Refused => s
    case Accepted(cap) => Commit(s, m, cap)
  }

  // ------------------------------------------------------------ the window

  /** The window's game state: `_state.Board` and `_state.WhiteTurn`. */
  class MainWindow {
    var Board: seq<Code>
    var WhiteTurn: bool

    ghost predicate Valid()
      reads this
    {
      WellFormed(Board)
    }

    /** The "GameState" handler: the window adopts the state the server sent. */
    constructor FromState(state: GameStateDto)
      requires WellFormed(state.Board)
      ensures Valid() && Board == state.Board && WhiteTurn == state.WhiteTurn
    {
      Board := state.Board;
      WhiteTurn := state.WhiteTurn;
    }

    /** The start layout the window draws when it has no state yet. */
    method CreateInitialBoard() returns (board: seq<Code>)
      ensures board == StartBoard()
    {
      board := seq(64, _ => Empty);
      for i := 0 to 24
        invariant |board| == 64
        invariant forall j :: 0 <= j < 64 ==> board[j] == if j < i then StartCode(j) else Empty
      {
        board := board[i := if (i / 8 + i) % 2 == 1 then BlackMan else Empty];
      }
      for i := 40 to 64
        invariant |board| == 64
        invariant forall j :: 0 <= j < 64 ==> board[j] == if j < 24 || 40 <= j < i then StartCode(j) else Empty
      {
        board := board[i := if (i / 8 + i) % 2 == 1 then WhiteMan else Empty];
      }
    }

    /** Crowns a man standing on `index` when `row` is its far row; only that cell can change. */
    method TryPromoteToKing(row: int, index: int)
      requires Valid() && 0 <= index < 64
      modifies this
      ensures Valid()
      ensures Board == old(Board)[index := PromoteCell(old(Board)[index], row)]
      ensures WhiteTurn == old(WhiteTurn)
    {
      var p := Board[index];
      if p == WhiteMan && row == 0 {
        Board := Board[index := WhiteKing];
      }
      if p == BlackMan && row == 7 {
        Board := Board[index := BlackKing];
      }
    }

    /** Whether a man of `piece`'s colour on (r, c) has a jump in any direction; reads only. */
    method HasMoreCaptures(r: int, c: int, piece: Code) returns (found: bool)
      requires Valid() && InBounds(r, c)
      ensures found <==> ManCaptureAvailable(Board, r, c, IsWhiteCode(piece))
    {
      var isWhite := IsWhiteCode(piece);
      var dirs := [(1, 1), (1, -1), (-1, 1), (-1, -1)];
      for i := 0 to 4
        invariant forall i' :: 0 <= i' < i ==> !JumpOpen(Board, r, c, dirs[i'].0, dirs[i'].1, isWhite)
      {
        var dr, dc := dirs[i].0, dirs[i].1;
        var cr, cc := r + dr, c + dc;
        var tr, tc := r + dr * 2, c + dc * 2;
        if cr < 0 || cr >= 8 || cc < 0 || cc >= 8 || tr < 0 || tr >= 8 || tc < 0 || tc >= 8 {
          continue;
        }
        var captured := Board[Idx(cr, cc)];
        if captured == Empty {
          continue;
        }
        if Board[Idx(tr, tc)] != Empty {
          continue;
        }
        if IsEnemy(captured, isWhite) {
          return true;
        }
      }
      assert dirs[0] == (1, 1) && dirs[1] == (1, -1) && dirs[2] == (-1, 1) && dirs[3] == (-1, -1);
      return false;
    }

    /** Whether a king of `piece`'s colour on (r, c) can capture along one of the
        four rays; reads only. */
    method HasMoreKingCaptures(r: int, c: int, piece: Code) returns (found: bool)
      requires Valid() && InBounds(r, c)
      ensures found <==> KingCaptureAvailable(Board, r, c, piece == WhiteKing)
    {
      var isWhite := piece == WhiteKing;
      KingRays(Board, r, c, isWhite);
      var dirs := [-1, 1];
      assert dirs[0] == -1 && dirs[1] == 1;
      for i := 0 to 2
        invariant i >= 1 ==> !RayFrom(Board, r, c, -1, -1, isWhite, 1, false) && !RayFrom(Board, r, c, -1, 1, isWhite, 1, false)
        invariant i >= 2 ==> !RayFrom(Board, r, c, 1, -1, isWhite, 1, false) && !RayFrom(Board, r, c, 1, 1, isWhite, 1, false)
      {
        var dr := dirs[i];
        for j := 0 to 2
          invariant j >= 1 ==> !RayFrom(Board, r, c, dr, -1, isWhite, 1, false)
          invariant j >= 2 ==> !RayFrom(Board, r, c, dr, 1, isWhite, 1, false)
        {
          var dc := dirs[j];
          var captures := ScanRay(r, c, dr, dc, isWhite);
          if captures {
            return true;
          }
        }
      }
      return false;
    }

    /** The `while` loop of HasMoreKingCaptures for one direction: walks from
        (r, c) until it leaves the board, meets a friend, meets a second piece
        right after an enemy (no capture), or finds an empty square right after
        the first piece, an enemy (capture). */
    method ScanRay(r: int, c: int, dr: int, dc: int, isWhite: bool) returns (captures: bool)
      requires Valid() && InBounds(r, c)
      requires (dr == -1 || dr == 1) && (dc == -1 || dc == 1)
      ensures captures == RayFrom(Board, r, c, dr, dc, isWhite, 1, false)
    {
      var rr, cc := r + dr, c + dc;
      var enemyFound := false;
      ghost var k := 1;
      while rr >= 0 && rr < 8 && cc >= 0 && cc < 8
        invariant 1 <= k <= 8 && rr == Along(r, dr, k) && cc == Along(c, dc, k)
        invariant RayFrom(Board, r, c, dr, dc, isWhite, 1, false) == RayFrom(Board, r, c, dr, dc, isWhite, k, enemyFound)
        decreases 8 - k
      {
        var mid := Board[Idx(rr, cc)];
        assert mid == RayCell(Board, r, c, dr, dc, k);
        if mid != Empty {
          if IsFriend(mid, isWhite) {
            return false;
          }
          if enemyFound {
            return false;
          }
          enemyFound := true;
        } else {
          if enemyFound {
            return true;
          }
        }
        rr := rr + dr;
        cc := cc + dc;
        k := k + 1;
      }
      return false;
    }

    /** The scan of the king branch of ApplyMoveLocal: walks the diagonal from the
        source towards the target, stopping (`clear` false, the move refused) at a
        friend or at a second occupied cell, and otherwise reports how many
        enemies it met and where the last one stood. */
    method ScanKingPath(move: MoveDto, isWhite: bool)
      returns (clear: bool, enemyCount: int, capturedR: int, capturedC: int)
      requires Valid() && MoveInBounds(move) && (move.Sr, move.Sc) != (move.Tr, move.Tc)
      requires Abs(move.Tr - move.Sr) == Abs(move.Tc - move.Sc)
      ensures clear ==> (enemyCount == 0 || enemyCount == 1) && (enemyCount == 1 ==> InBounds(capturedR, capturedC))
      ensures KingScan(Board, move.Sr, move.Sc, move.Tr - move.Sr, move.Tc - move.Sc, isWhite, Abs(move.Tr - move.Sr), 1, None) ==
              if !clear then Refused
              else Accepted(if enemyCount == 1 then Some(Idx(capturedR, capturedC)) else None)
    {
      var sr, sc, tr, tc := move.Sr, move.Sc, move.Tr, move.Tc;
      var dr, dc := tr - sr, tc - sc;
      var adr := Abs(dr);
      var stepR := if dr > 0 then 1 else -1;
      var stepC := if dc > 0 then 1 else -1;
      var r, c := sr + stepR, sc + stepC;
      enemyCount := 0;
      capturedR, capturedC := -1, -1;
      ghost var k, cap := 1, None;
      while r != tr && c != tc
        invariant 1 <= k <= adr && r == Along(sr, dr, k) && c == Along(sc, dc, k)
        invariant enemyCount == 0 ==> cap == None
        invariant enemyCount != 0 ==> enemyCount == 1 && InBounds(capturedR, capturedC) && cap == Some(Idx(capturedR, capturedC))
        invariant KingScan(Board, sr, sc, dr, dc, isWhite, adr, 1, None) ==
                  KingScan(Board, sr, sc, dr, dc, isWhite, adr, k, cap)
        decreases adr - k
      {
        var mid := Board[Idx(r, c)];
        assert mid == RayCell(Board, sr, sc, dr, dc, k);
        KingScanStep(Board, sr, sc, dr, dc, isWhite, adr, k, cap);
        if mid != Empty {
          if IsFriend(mid, isWhite) {
            return false, enemyCount, capturedR, capturedC;
          }
          enemyCount := enemyCount + 1;
          capturedR, capturedC := r, c;
          if enemyCount > 1 {
            return false, enemyCount, capturedR, capturedC;
          }
          cap := Some(Idx(r, c));
        }
        r, c := r + stepR, c + stepC;
        k := k + 1;
      }
      clear := true;
    }

    /** The king branch of ApplyMoveLocal, entered once the source holds a king
        of the side to move and the target is empty. */
    method MoveKingLocal(move: MoveDto, piece: Code)
      requires Valid() && MoveInBounds(move)
      requires piece == Board[Idx(move.Sr, move.Sc)] && IsKingCode(piece)
      requires IsWhiteCode(piece) == WhiteTurn && Board[Idx(move.Tr, move.Tc)] == Empty
      modifies this
      ensures Valid()
      ensures LocalState(Board, WhiteTurn) == ApplyLocal(old(LocalState(Board, WhiteTurn)), move)
    {
      ghost var s0 := LocalState(Board, WhiteTurn);
      var sr, sc, tr, tc := move.Sr, move.Sc, move.Tr, move.Tc;
      var si, ti := Idx(sr, sc), Idx(tr, tc);
      var isWhite := piece == WhiteKing;
      var dr, dc := tr - sr, tc - sc;
      var adr, adc := Abs(dr), Abs(dc);
      if adr != adc {
        assert CheckLocal(s0.Board, s0.WhiteTurn, move) == Refused;
        return;
      }
      var clear, enemyCount, capturedR, capturedC := ScanKingPath(move, isWhite);
      KingScanVerdict(Board, move, isWhite);
      if !clear {
        return;
      }
      ghost var cap := if enemyCount == 1 then Some(Idx(capturedR, capturedC)) else None;
      assert CheckLocal(s0.Board, s0.WhiteTurn, move) == KingVerdict(Board, move, isWhite) == Accepted(cap);

      if Board[ti] != Empty {
        return;
      }

      if enemyCount == 1 {
        Board := Board[Idx(capturedR, capturedC) := Empty];
      }

      Board := Board[ti := piece];
      Board := Board[si := Empty];
      assert PromoteCell(piece, tr) == piece;

      if enemyCount == 1 {
        var more := HasMoreKingCaptures(tr, tc, piece);
        if more {
          return;
        }
      }

      WhiteTurn := !WhiteTurn;
      return;
    }

    /** Validates and applies `move` to the window's state in place. */
    method ApplyMoveLocal(move: MoveDto)
      requires Valid() && MoveInBounds(move)
      modifies this
      ensures Valid()
      ensures LocalState(Board, WhiteTurn) == ApplyLocal(old(LocalState(Board, WhiteTurn)), move)
    {
      ghost var s0 := LocalState(Board, WhiteTurn);
      var sr, sc, tr, tc := move.Sr, move.Sc, move.Tr, move.Tc;
      var si, ti := Idx(sr, sc), Idx(tr, tc);

      var piece := Board[si];
      if piece == Empty {
        return;
      }

      var isWhite := IsWhiteCode(piece);
      var isKing := piece == WhiteKing || piece == BlackKing;

      if isWhite != WhiteTurn {
        return;
      }
      if Board[ti] != Empty {
        return;
      }

      var dr, dc := tr - sr, tc - sc;

      if isKing {
        MoveKingLocal(move, piece);
        return;
      }

      if Abs(dr) == 1 && Abs(dc) == 1 {
        StepManLocal(move, piece);
        return;
      }

      if Abs(dr) == 2 && Abs(dc) == 2 {
        ghost var ci := JumpedSquare(move);
        ghost var jumps := Board[ci] != Empty && !IsFriend(Board[ci], WhiteTurn);
        ghost var after := Board[ci := Empty][ti := PromoteCell(piece, tr)][si := Empty];
        if jumps {
          JumpOutcome(s0, move, ci);
        } else {
          assert ManVerdict(s0.Board, move, piece, isWhite) == Refused;
          assert ApplyLocal(s0, move) == s0;
        }
        JumpManLocal(move, piece);
        assert jumps ==> Board == after;
        assert !jumps ==> LocalState(Board, WhiteTurn) == s0;
        return;
      }
    }

    /** The one-square branch of ApplyMoveLocal for a man of the side to move
        with an empty target: forward steps only, then crowning on the far row. */
    method StepManLocal(move: MoveDto, piece: Code)
      requires Valid() && MoveInBounds(move)
      requires piece == Board[Idx(move.Sr, move.Sc)] && (piece == WhiteMan || piece == BlackMan)
      requires IsWhiteCode(piece) == WhiteTurn && Board[Idx(move.Tr, move.Tc)] == Empty
      requires Abs(move.Tr - move.Sr) == 1 && Abs(move.Tc - move.Sc) == 1
      modifies this
      ensures Valid()
      ensures LocalState(Board, WhiteTurn) == ApplyLocal(old(LocalState(Board, WhiteTurn)), move)
    {
      ghost var s0 := LocalState(Board, WhiteTurn);
      var sr, sc, tr, tc := move.Sr, move.Sc, move.Tr, move.Tc;
      var si, ti := Idx(sr, sc), Idx(tr, tc);
      var isWhite := IsWhiteCode(piece);
      var dr, dc := tr - sr, tc - sc;
      if piece == WhiteMan && dr != -1 {
        return;
      }
      if piece == BlackMan && dr != 1 {
        return;
      }
      assert CheckLocal(s0.Board, s0.WhiteTurn, move) == ManVerdict(Board, move, piece, isWhite) == Accepted(None);

      Board := Board[ti := piece];
      Board := Board[si := Empty];

      TryPromoteToKing(tr, ti);
      RewriteCell(s0.Board, ti, si, piece, Empty, PromoteCell(piece, tr));

      WhiteTurn := !WhiteTurn;
      return;
    }

    /** The two-square branch of ApplyMoveLocal for a man of the side to move
        with an empty target: a jump over an enemy in any direction, crowning,
        and the turn kept while another jump is open. */
    method JumpManLocal(move: MoveDto, piece: Code)
      requires Valid() && MoveInBounds(move)
      requires piece == Board[Idx(move.Sr, move.Sc)] && (piece == WhiteMan || piece == BlackMan)
      requires IsWhiteCode(piece) == WhiteTurn && Board[Idx(move.Tr, move.Tc)] == Empty
      requires Abs(move.Tr - move.Sr) == 2 && Abs(move.Tc - move.Sc) == 2
      modifies this
      ensures Valid()
      ensures var ci := JumpedSquare(move);
              if old(Board)[ci] == Empty || IsFriend(old(Board)[ci], old(WhiteTurn))
              then Board == old(Board) && WhiteTurn == old(WhiteTurn)
              else Board == old(Board)[ci := Empty][Idx(move.Tr, move.Tc) := PromoteCell(piece, move.Tr)][Idx(move.Sr, move.Sc) := Empty] &&
                   WhiteTurn == (if ManCaptureAvailable(Board, move.Tr, move.Tc, old(WhiteTurn)) then old(WhiteTurn) else !old(WhiteTurn))
    {
      ghost var s0 := LocalState(Board, WhiteTurn);
      var sr, sc, tr, tc := move.Sr, move.Sc, move.Tr, move.Tc;
      var si, ti := Idx(sr, sc), Idx(tr, tc);
      var isWhite := IsWhiteCode(piece);
      var dr, dc := tr - sr, tc - sc;
      var cr, cc := sr + dr / 2, sc + dc / 2;
      var ci := Idx(cr, cc);
      assert ci == JumpedSquare(move);

      var captured := Board[ci];
      if captured == Empty || IsFriend(captured, isWhite) {
        return;
      }
      if Board[ti] != Empty {
        return;
      }
      Board := Board[ci := Empty];
      Board := Board[ti := piece];
      Board := Board[si := Empty];

      TryPromoteToKing(tr, ti);
      RewriteCell(s0.Board[ci := Empty], ti, si, piece, Empty, PromoteCell(piece, tr));

      if piece == WhiteMan && tr == 0 {
        RewriteSame(Board, ti);
        Board := Board[ti := WhiteKing];
      }
      if piece == BlackMan && tr == 7 {
        RewriteSame(Board, ti);
        Board := Board[ti := BlackKing];
      }

      var more := HasMoreCaptures(tr, tc, piece);
      if more {
        return;
      }

      WhiteTurn := !WhiteTurn;
      return;
    }
  }

  /** The outcome of a man's jump that ApplyMoveLocal accepts: the jumped cell
      and the source emptied, the (possibly crowned) man on the target, and the
      turn kept exactly when another jump is open from there. */
  lemma JumpOutcome(s: LocalState, m: MoveDto, ci: int)
    requires WellFormed(s.Board) && MoveInBounds(m)
    requires Abs(m.Tr - m.Sr) == 2 && Abs(m.Tc - m.Sc) == 2
    requires ci == JumpedSquare(m)
    requires s.Board[Idx(m.Sr, m.Sc)] == WhiteMan || s.Board[Idx(m.Sr, m.Sc)] == BlackMan
    requires IsWhiteCode(s.Board[Idx(m.Sr, m.Sc)]) == s.WhiteTurn && s.Board[Idx(m.Tr, m.Tc)] == Empty
    requires s.Board[ci] != Empty && !IsFriend(s.Board[ci], s.WhiteTurn)
    ensures
      var piece := s.Board[Idx(m.Sr, m.Sc)];
      var after := s.Board[ci := Empty][Idx(m.Tr, m.Tc) := PromoteCell(piece, m.Tr)][Idx(m.Sr, m.Sc) := Empty];
      ApplyLocal(s, m) ==
        LocalState(after, if ManCaptureAvailable(after, m.Tr, m.Tc, s.WhiteTurn) then s.WhiteTurn else !s.WhiteTurn)
  {
    var piece := s.Board[Idx(m.Sr, m.Sc)];
    assert ManVerdict(s.Board, m, piece, s.WhiteTurn) == Accepted(Some(ci));
  }

  /** Writing cell `i` again after a write to another cell `j` keeps only the
      last value of `i`. */
  lemma RewriteCell<T>(s: seq<T>, i: int, j: int, a: T, b: T, c: T)
    requires 0 <= i < |s| && 0 <= j < |s| && i != j
    ensures s[i := a][j := b][i := c] == s[i := c][j := b]
  {
  }

  /** Writing a cell's own value back changes nothing. */
  lemma RewriteSame<T>(s: seq<T>, i: int)
    requires 0 <= i < |s|
    ensures s[i := s[i]] == s
  {
  }

  // ------------------------------------- the king's scan, step by step

  /** A friend met by the scan at step `j` refuses the move, whatever came before. */
  lemma {:induction false} KingScanFriendAt(b: seq<Code>, sr: int, sc: int, dr: int, dc: int, white: bool,
                                            n: int, k: int, cap: Option<int>, j: int)
    requires |b| == 64 && 1 <= k <= j < n
    requires IsFriend(RayCell(b, sr, sc, dr, dc, j), white)
    ensures KingScan(b, sr, sc, dr, dc, white, n, k, cap) == Refused
    decreases n - k
  {
    if k < j {
      var p := RayCell(b, sr, sc, dr, dc, k);
      if p == Empty {
        KingScanFriendAt(b, sr, sc, dr, dc, white, n, k + 1, cap, j);
      } else if !IsFriend(p, white) && cap.None? {
        KingScanSecond(b, sr, sc, dr, dc, white, n, k + 1, Some(Idx(Along(sr, dr, k), Along(sc, dc, k))), j);
      }
    }
  }

  /** Once a piece has been met, any further occupied step refuses the move. */
  lemma {:induction false} KingScanSecond(b: seq<Code>, sr: int, sc: int, dr: int, dc: int, white: bool,
                                          n: int, k: int, cap: Option<int>, j: int)
    requires |b| == 64 && 1 <= k <= j < n && cap.Some?
    requires RayCell(b, sr, sc, dr, dc, j) != Empty
    ensures KingScan(b, sr, sc, dr, dc, white, n, k, cap) == Refused
    decreases n - k
  {
    if k < j && RayCell(b, sr, sc, dr, dc, k) == Empty {
      KingScanSecond(b, sr, sc, dr, dc, white, n, k + 1, cap, j);
    }
  }

  /** Two occupied steps refuse the move. */
  lemma {:induction false} KingScanTwoAt(b: seq<Code>, sr: int, sc: int, dr: int, dc: int, white: bool,
                                         n: int, k: int, cap: Option<int>, i: int, j: int)
    requires |b| == 64 && 1 <= k <= i < j < n
    requires RayCell(b, sr, sc, dr, dc, i) != Empty && RayCell(b, sr, sc, dr, dc, j) != Empty
    ensures KingScan(b, sr, sc, dr, dc, white, n, k, cap) == Refused
    decreases n - k
  {
    var p := RayCell(b, sr, sc, dr, dc, k);
    if p == Empty {
      KingScanTwoAt(b, sr, sc, dr, dc, white, n, k + 1, cap, i, j);
    } else if !IsFriend(p, white) && cap.None? {
      KingScanSecond(b, sr, sc, dr, dc, white, n, k + 1, Some(Idx(Along(sr, dr, k), Along(sc, dc, k))), j);
    }
  }

  /** Over empty steps only, the scan accepts with what it already holds. */
  lemma {:induction false} KingScanEmpty(b: seq<Code>, sr: int, sc: int, dr: int, dc: int, white: bool,
                                         n: int, k: int, cap: Option<int>)
    requires |b| == 64 && 1 <= k <= n
    requires forall j :: k <= j < n ==> RayCell(b, sr, sc, dr, dc, j) == Empty
    ensures KingScan(b, sr, sc, dr, dc, white, n, k, cap) == Accepted(cap)
    decreases n - k
  {
    if k < n {
      KingScanEmpty(b, sr, sc, dr, dc, white, n, k + 1, cap);
    }
  }

  /** A single piece, not a friend, at step `f` is what the scan captures. */
  lemma {:induction false} KingScanOne(b: seq<Code>, sr: int, sc: int, dr: int, dc: int, white: bool,
                                       n: int, k: int, f: int)
    requires |b| == 64 && 1 <= k <= f < n
    requires InBounds(Along(sr, dr, f), Along(sc, dc, f))
    requires RayCell(b, sr, sc, dr, dc, f) != Empty && !IsFriend(RayCell(b, sr, sc, dr, dc, f), white)
    requires forall j :: k <= j < n && j != f ==> RayCell(b, sr, sc, dr, dc, j) == Empty
    ensures KingScan(b, sr, sc, dr, dc, white, n, k, None) == Accepted(Some(Idx(Along(sr, dr, f), Along(sc, dc, f))))
    decreases n - k
  {
    if k < f {
      KingScanOne(b, sr, sc, dr, dc, white, n, k + 1, f);
    } else {
      KingScanEmpty(b, sr, sc, dr, dc, white, n, k + 1, Some(Idx(Along(sr, dr, f), Along(sc, dc, f))));
    }
  }

  /** A friend or two pieces on the ray make the scan refuse. */
  lemma KingScanRefuses(b: seq<Code>, sr: int, sc: int, dr: int, dc: int, white: bool, n: int)
    requires WellFormed(b) && 1 <= n
    requires RayHasFriend(b, sr, sc, dr, dc, n, white) || RayTwoOccupied(b, sr, sc, dr, dc, n)
    ensures KingScan(b, sr, sc, dr, dc, white, n, 1, None) == Refused
  {
    if RayHasFriend(b, sr, sc, dr, dc, n, white) {
      var j :| 1 <= j < n && IsFriend(RayCell(b, sr, sc, dr, dc, j), white);
      KingScanFriendAt(b, sr, sc, dr, dc, white, n, 1, None, j);
    } else {
      var i, j :| 1 <= i < j < n && RayCell(b, sr, sc, dr, dc, i) != Empty && RayCell(b, sr, sc, dr, dc, j) != Empty;
      KingScanTwoAt(b, sr, sc, dr, dc, white, n, 1, None, i, j);
    }
  }

  /** A ray with no friend and at most one piece before step `n` makes the scan
      accept, capturing the first piece if it comes before `n`. */
  lemma KingScanAccepts(b: seq<Code>, sr: int, sc: int, dr: int, dc: int, white: bool, n: int)
    requires WellFormed(b) && InBounds(sr, sc) && 1 <= n <= 8
    requires !RayHasFriend(b, sr, sc, dr, dc, n, white) && !RayTwoOccupied(b, sr, sc, dr, dc, n)
    requires forall j :: 1 <= j <= n ==> InBounds(Along(sr, dr, j), Along(sc, dc, j))
    ensures KingScan(b, sr, sc, dr, dc, white, n, 1, None) == Accepted(KingCapture(b, sr, sc, dr, dc, n))
  {
    var f := FirstStop(b, sr, sc, dr, dc, 1);
    if f >= n {
      forall j | 1 <= j < n
        ensures RayCell(b, sr, sc, dr, dc, j) == Empty
      {
        FirstStopClear(b, sr, sc, dr, dc, 1, j);
      }
      KingScanEmpty(b, sr, sc, dr, dc, white, n, 1, None);
    } else {
      forall j | 1 <= j < n && j != f
        ensures RayCell(b, sr, sc, dr, dc, j) == Empty
      {
        if j < f {
          FirstStopClear(b, sr, sc, dr, dc, 1, j);
        }
      }
      KingScanOne(b, sr, sc, dr, dc, white, n, 1, f);
    }
  }

  /** The squares of a diagonal move's ray up to the target are on the board. */
  lemma DiagonalOnBoard(m: MoveDto, j: int)
    requires MoveInBounds(m) && Abs(m.Tr - m.Sr) == Abs(m.Tc - m.Sc) && 1 <= j <= Abs(m.Tr - m.Sr)
    ensures InBounds(Along(m.Sr, m.Tr - m.Sr, j), Along(m.Sc, m.Tc - m.Sc, j))
  {
  }

  /** `n` steps along a diagonal move's ray reach its target. */
  lemma DiagonalTarget(m: MoveDto)
    requires Abs(m.Tr - m.Sr) == Abs(m.Tc - m.Sc)
    ensures Along(m.Sr, m.Tr - m.Sr, Abs(m.Tr - m.Sr)) == m.Tr
    ensures Along(m.Sc, m.Tc - m.Sc, Abs(m.Tr - m.Sr)) == m.Tc
  {
  }

  /** Along a ray that stays on the board, the scan refuses exactly when a
      friend or two pieces stand before step `n`, and otherwise captures
      what KingCapture names. */
  lemma KingScanRay(b: seq<Code>, sr: int, sc: int, dr: int, dc: int, white: bool, n: int)
    requires WellFormed(b) && InBounds(sr, sc) && 1 <= n <= 8
    requires forall j :: 1 <= j <= n ==> InBounds(Along(sr, dr, j), Along(sc, dc, j))
    ensures KingScan(b, sr, sc, dr, dc, white, n, 1, None) ==
            if !RayHasFriend(b, sr, sc, dr, dc, n, white) && !RayTwoOccupied(b, sr, sc, dr, dc, n)
            then Accepted(KingCapture(b, sr, sc, dr, dc, n))
            else Refused
  {
    if RayHasFriend(b, sr, sc, dr, dc, n, white) || RayTwoOccupied(b, sr, sc, dr, dc, n) {
      KingScanRefuses(b, sr, sc, dr, dc, white, n);
    } else {
      KingScanAccepts(b, sr, sc, dr, dc, white, n);
    }
  }

  /** The scan and the declarative verdict agree on every diagonal move. */
  lemma KingScanVerdict(b: seq<Code>, m: MoveDto, white: bool)
    requires WellFormed(b) && MoveInBounds(m) && (m.Sr, m.Sc) != (m.Tr, m.Tc)
    requires Abs(m.Tr - m.Sr) == Abs(m.Tc - m.Sc)
    ensures KingScan(b, m.Sr, m.Sc, m.Tr - m.Sr, m.Tc - m.Sc, white, Abs(m.Tr - m.Sr), 1, None) ==
            KingVerdict(b, m, white)
  {
    var sr, sc, dr, dc, n := m.Sr, m.Sc, m.Tr - m.Sr, m.Tc - m.Sc, Abs(m.Tr - m.Sr);
    forall j | 1 <= j <= n
      ensures InBounds(Along(sr, dr, j), Along(sc, dc, j))
    {
      DiagonalOnBoard(m, j);
    }
    KingScanRay(b, sr, sc, dr, dc, white, n);
  }
}
