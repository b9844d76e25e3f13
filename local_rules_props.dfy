/** Properties of ApplyMoveLocal (Checkers.Client/MainWindow.xaml.cs), proved
    about ApplyLocal, the state the method is proved to leave. The king's ray
    is described here a second time, geometrically: a square lies strictly
    between source and target when it is on their diagonal, on the target's
    side and nearer than the target. */
module LocalRulesProps {
  import opened Squares
  import opened Wrappers
  import opened Shared
  import opened LocalRules

  // ------------------------------------------------ the diagonal, geometrically

  /** (r, c) is on the diagonal from the move's source towards its target,
      strictly between the two. */
  predicate StrictlyBetween(m: MoveDto, r: int, c: int) {
    var dr, dc := m.Tr - m.Sr, m.Tc - m.Sc;
    0 < Abs(r - m.Sr) < Abs(dr) && Abs(c - m.Sc) == Abs(r - m.Sr) &&
    (r - m.Sr > 0 <==> dr > 0) && (c - m.Sc > 0 <==> dc > 0)
  }

  /** A square strictly between is a step `j` of the ray, on the board: the
      one at distance `j == Abs(r - Sr)` from the source. */
  lemma StepAtSquare(b: seq<Code>, m: MoveDto, r: int, c: int) returns (j: int)
    requires WellFormed(b) && MoveInBounds(m) && Abs(m.Tr - m.Sr) == Abs(m.Tc - m.Sc)
    requires StrictlyBetween(m, r, c)
    ensures j == Abs(r - m.Sr)
    ensures InBounds(r, c) && 1 <= j < Abs(m.Tr - m.Sr)
    ensures RayCell(b, m.Sr, m.Sc, m.Tr - m.Sr, m.Tc - m.Sc, j) == b[Idx(r, c)]
  {
    j := Abs(r - m.Sr);
    assert Along(m.Sr, m.Tr - m.Sr, j) == r && Along(m.Sc, m.Tc - m.Sc, j) == c;
  }

  /** Conversely, every step 1 .. n-1 of the ray is a square strictly between. */
  lemma SquareAtStep(b: seq<Code>, m: MoveDto, j: int)
    requires WellFormed(b) && MoveInBounds(m) && Abs(m.Tr - m.Sr) == Abs(m.Tc - m.Sc)
    requires 1 <= j < Abs(m.Tr - m.Sr)
    ensures InBounds(Along(m.Sr, m.Tr - m.Sr, j), Along(m.Sc, m.Tc - m.Sc, j))
    ensures StrictlyBetween(m, Along(m.Sr, m.Tr - m.Sr, j), Along(m.Sc, m.Tc - m.Sc, j))
    ensures Abs(Along(m.Sr, m.Tr - m.Sr, j) - m.Sr) == j
    ensures RayCell(b, m.Sr, m.Sc, m.Tr - m.Sr, m.Tc - m.Sc, j) ==
            b[Idx(Along(m.Sr, m.Tr - m.Sr, j), Along(m.Sc, m.Tc - m.Sc, j))]
  {
  }

  /** A piece of the mover's side stands strictly between source and target. */
  ghost predicate FriendBetween(b: seq<Code>, m: MoveDto, white: bool)
    requires WellFormed(b)
  {
    exists r, c :: InBounds(r, c) && StrictlyBetween(m, r, c) && IsFriend(b[Idx(r, c)], white)
  }

  /** Two different squares strictly between source and target are occupied. */
  ghost predicate TwoBetween(b: seq<Code>, m: MoveDto)
    requires WellFormed(b)
  {
    exists r1, c1, r2, c2 ::
      InBounds(r1, c1) && InBounds(r2, c2) && StrictlyBetween(m, r1, c1) && StrictlyBetween(m, r2, c2) &&
      (r1, c1) != (r2, c2) && b[Idx(r1, c1)] != Empty && b[Idx(r2, c2)] != Empty
  }

  lemma FriendStepIsBetween(b: seq<Code>, m: MoveDto, white: bool, j: int)
    requires WellFormed(b) && MoveInBounds(m) && Abs(m.Tr - m.Sr) == Abs(m.Tc - m.Sc)
    requires 1 <= j < Abs(m.Tr - m.Sr) && IsFriend(RayCell(b, m.Sr, m.Sc, m.Tr - m.Sr, m.Tc - m.Sc, j), white)
    ensures FriendBetween(b, m, white)
  {
    SquareAtStep(b, m, j);
    var r, c := Along(m.Sr, m.Tr - m.Sr, j), Along(m.Sc, m.Tc - m.Sc, j);
    assert InBounds(r, c) && StrictlyBetween(m, r, c) && IsFriend(b[Idx(r, c)], white);
  }

  lemma FriendBetweenIsStep(b: seq<Code>, m: MoveDto, white: bool, r: int, c: int)
    requires WellFormed(b) && MoveInBounds(m) && Abs(m.Tr - m.Sr) == Abs(m.Tc - m.Sc)
    requires InBounds(r, c) && StrictlyBetween(m, r, c) && IsFriend(b[Idx(r, c)], white)
    ensures RayHasFriend(b, m.Sr, m.Sc, m.Tr - m.Sr, m.Tc - m.Sc, Abs(m.Tr - m.Sr), white)
  {
    var j := StepAtSquare(b, m, r, c);
    assert 1 <= j < Abs(m.Tr - m.Sr) && IsFriend(RayCell(b, m.Sr, m.Sc, m.Tr - m.Sr, m.Tc - m.Sc, j), white);
  }

  /** The ray's friend test is the geometric one. */
  lemma FriendOnRay(b: seq<Code>, m: MoveDto, white: bool)
    requires WellFormed(b) && MoveInBounds(m) && Abs(m.Tr - m.Sr) == Abs(m.Tc - m.Sc)
    ensures RayHasFriend(b, m.Sr, m.Sc, m.Tr - m.Sr, m.Tc - m.Sc, Abs(m.Tr - m.Sr), white) <==>
            FriendBetween(b, m, white)
  {
    var sr, sc, dr, dc, n := m.Sr, m.Sc, m.Tr - m.Sr, m.Tc - m.Sc, Abs(m.Tr - m.Sr);
    if RayHasFriend(b, sr, sc, dr, dc, n, white) {
      var j :| 1 <= j < n && IsFriend(RayCell(b, sr, sc, dr, dc, j), white);
      FriendStepIsBetween(b, m, white, j);
    }
    if FriendBetween(b, m, white) {
      var r, c :| InBounds(r, c) && StrictlyBetween(m, r, c) && IsFriend(b[Idx(r, c)], white);
      FriendBetweenIsStep(b, m, white, r, c);
    }
  }

  lemma TwoStepsAreBetween(b: seq<Code>, m: MoveDto, i: int, j: int)
    requires WellFormed(b) && MoveInBounds(m) && Abs(m.Tr - m.Sr) == Abs(m.Tc - m.Sc)
    requires 1 <= i < j < Abs(m.Tr - m.Sr)
    requires RayCell(b, m.Sr, m.Sc, m.Tr - m.Sr, m.Tc - m.Sc, i) != Empty
    requires RayCell(b, m.Sr, m.Sc, m.Tr - m.Sr, m.Tc - m.Sc, j) != Empty
    ensures TwoBetween(b, m)
  {
    SquareAtStep(b, m, i);
    SquareAtStep(b, m, j);
    var r1, c1 := Along(m.Sr, m.Tr - m.Sr, i), Along(m.Sc, m.Tc - m.Sc, i);
    var r2, c2 := Along(m.Sr, m.Tr - m.Sr, j), Along(m.Sc, m.Tc - m.Sc, j);
    assert (r1, c1) != (r2, c2) && b[Idx(r1, c1)] != Empty && b[Idx(r2, c2)] != Empty;
  }

  /** Two squares strictly between at the same distance from the source are one square. */
  lemma SameStepSameSquare(m: MoveDto, r1: int, c1: int, r2: int, c2: int)
    requires StrictlyBetween(m, r1, c1) && StrictlyBetween(m, r2, c2) && Abs(r1 - m.Sr) == Abs(r2 - m.Sr)
    ensures (r1, c1) == (r2, c2)
  {
  }

  lemma TwoSteps(b: seq<Code>, sr: int, sc: int, dr: int, dc: int, n: int, i: int, j: int)
    requires WellFormed(b) && 1 <= i < j < n
    requires RayCell(b, sr, sc, dr, dc, i) != Empty && RayCell(b, sr, sc, dr, dc, j) != Empty
    ensures RayTwoOccupied(b, sr, sc, dr, dc, n)
  {
  }

  lemma TwoBetweenAreSteps(b: seq<Code>, m: MoveDto, r1: int, c1: int, r2: int, c2: int)
    requires WellFormed(b) && MoveInBounds(m) && Abs(m.Tr - m.Sr) == Abs(m.Tc - m.Sc)
    requires InBounds(r1, c1) && InBounds(r2, c2) && StrictlyBetween(m, r1, c1) && StrictlyBetween(m, r2, c2)
    requires (r1, c1) != (r2, c2) && b[Idx(r1, c1)] != Empty && b[Idx(r2, c2)] != Empty
    ensures RayTwoOccupied(b, m.Sr, m.Sc, m.Tr - m.Sr, m.Tc - m.Sc, Abs(m.Tr - m.Sr))
  {
    var sr, sc, dr, dc, n := m.Sr, m.Sc, m.Tr - m.Sr, m.Tc - m.Sc, Abs(m.Tr - m.Sr);
    var i := StepAtSquare(b, m, r1, c1);
    var j := StepAtSquare(b, m, r2, c2);
    if i == j {
      SameStepSameSquare(m, r1, c1, r2, c2);
    } else if i < j {
      TwoSteps(b, sr, sc, dr, dc, n, i, j);
    } else {
      TwoSteps(b, sr, sc, dr, dc, n, j, i);
    }
  }

  /** The ray's two-pieces test is the geometric one. */
  lemma TwoOnRay(b: seq<Code>, m: MoveDto)
    requires WellFormed(b) && MoveInBounds(m) && Abs(m.Tr - m.Sr) == Abs(m.Tc - m.Sc)
    ensures RayTwoOccupied(b, m.Sr, m.Sc, m.Tr - m.Sr, m.Tc - m.Sc, Abs(m.Tr - m.Sr)) <==> TwoBetween(b, m)
  {
    var sr, sc, dr, dc, n := m.Sr, m.Sc, m.Tr - m.Sr, m.Tc - m.Sc, Abs(m.Tr - m.Sr);
    if RayTwoOccupied(b, sr, sc, dr, dc, n) {
      var i, j :| 1 <= i < j < n && RayCell(b, sr, sc, dr, dc, i) != Empty && RayCell(b, sr, sc, dr, dc, j) != Empty;
      TwoStepsAreBetween(b, m, i, j);
    }
    if TwoBetween(b, m) {
      var r1, c1, r2, c2 :| InBounds(r1, c1) && InBounds(r2, c2) && StrictlyBetween(m, r1, c1) &&
        StrictlyBetween(m, r2, c2) && (r1, c1) != (r2, c2) && b[Idx(r1, c1)] != Empty && b[Idx(r2, c2)] != Empty;
      TwoBetweenAreSteps(b, m, r1, c1, r2, c2);
    }
  }

  /** Some square strictly between source and target is occupied. */
  ghost predicate PieceBetween(b: seq<Code>, m: MoveDto)
    requires WellFormed(b)
  {
    exists r, c :: InBounds(r, c) && StrictlyBetween(m, r, c) && b[Idx(r, c)] != Empty
  }

  // ------------------------------------------------ the king's verdict, geometrically

  /** A king's move is accepted exactly when it is diagonal, no friend stands
      strictly between, and at most one square strictly between is occupied. */
  lemma KingAcceptedGeometric(b: seq<Code>, m: MoveDto, white: bool)
    requires WellFormed(b) && MoveInBounds(m) && (m.Sr, m.Sc) != (m.Tr, m.Tc)
    ensures KingVerdict(b, m, white).Accepted? <==>
            Abs(m.Tr - m.Sr) == Abs(m.Tc - m.Sc) && !FriendBetween(b, m, white) && !TwoBetween(b, m)
  {
    if Abs(m.Tr - m.Sr) == Abs(m.Tc - m.Sc) {
      FriendOnRay(b, m, white);
      TwoOnRay(b, m);
    }
  }

  /** A king's capture is the first occupied step of a diagonal ray, before the target. */
  lemma KingCaptureStep(b: seq<Code>, m: MoveDto, white: bool) returns (f: int)
    requires WellFormed(b) && MoveInBounds(m) && (m.Sr, m.Sc) != (m.Tr, m.Tc)
    requires KingVerdict(b, m, white).Accepted? && KingVerdict(b, m, white).captured.Some?
    ensures Abs(m.Tr - m.Sr) == Abs(m.Tc - m.Sc) && 1 <= f < Abs(m.Tr - m.Sr)
    ensures InBounds(Along(m.Sr, m.Tr - m.Sr, f), Along(m.Sc, m.Tc - m.Sc, f))
    ensures KingVerdict(b, m, white).captured.value == Idx(Along(m.Sr, m.Tr - m.Sr, f), Along(m.Sc, m.Tc - m.Sc, f))
  {
    var dr, dc, n := m.Tr - m.Sr, m.Tc - m.Sc, Abs(m.Tr - m.Sr);
    DiagonalTarget(m);
    assert KingVerdict(b, m, white) == Accepted(KingCapture(b, m.Sr, m.Sc, dr, dc, n));
    f := CaptureAtStep(b, m.Sr, m.Sc, dr, dc, n);
  }

  /** A capture found by the king's rule is the square at some step before `n`. */
  lemma CaptureAtStep(b: seq<Code>, sr: int, sc: int, dr: int, dc: int, n: int) returns (f: int)
    requires WellFormed(b) && InBounds(sr, sc) && 1 <= n <= 8
    requires InBounds(Along(sr, dr, n), Along(sc, dc, n))
    requires KingCapture(b, sr, sc, dr, dc, n).Some?
    ensures 1 <= f < n && InBounds(Along(sr, dr, f), Along(sc, dc, f))
    ensures KingCapture(b, sr, sc, dr, dc, n).value == Idx(Along(sr, dr, f), Along(sc, dc, f))
  {
    f := FirstStop(b, sr, sc, dr, dc, 1);
  }

  /** An accepted king's move that captures takes a piece strictly between. */
  lemma KingCaptureBetween(b: seq<Code>, m: MoveDto, white: bool)
    requires WellFormed(b) && MoveInBounds(m) && (m.Sr, m.Sc) != (m.Tr, m.Tc)
    requires KingVerdict(b, m, white).Accepted? && KingVerdict(b, m, white).captured.Some?
    ensures exists r, c :: InBounds(r, c) && StrictlyBetween(m, r, c) &&
                           Idx(r, c) == KingVerdict(b, m, white).captured.value
  {
    var f := KingCaptureStep(b, m, white);
    SquareAtStep(b, m, f);
    var r, c := Along(m.Sr, m.Tr - m.Sr, f), Along(m.Sc, m.Tc - m.Sc, f);
    assert InBounds(r, c) && StrictlyBetween(m, r, c) && Idx(r, c) == KingVerdict(b, m, white).captured.value;
  }

  /** An accepted king's move that does not capture meets no piece before the target. */
  lemma KingQuietStop(b: seq<Code>, m: MoveDto, white: bool)
    requires WellFormed(b) && MoveInBounds(m) && (m.Sr, m.Sc) != (m.Tr, m.Tc)
    requires KingVerdict(b, m, white) == Accepted(None)
    ensures Abs(m.Tr - m.Sr) == Abs(m.Tc - m.Sc)
    ensures FirstStop(b, m.Sr, m.Sc, m.Tr - m.Sr, m.Tc - m.Sc, 1) >= Abs(m.Tr - m.Sr)
  {
  }

  /** A diagonal move whose ray meets no piece before the target has nothing strictly between. */
  lemma QuietBetween(b: seq<Code>, m: MoveDto, r: int, c: int)
    requires WellFormed(b) && MoveInBounds(m) && Abs(m.Tr - m.Sr) == Abs(m.Tc - m.Sc)
    requires FirstStop(b, m.Sr, m.Sc, m.Tr - m.Sr, m.Tc - m.Sc, 1) >= Abs(m.Tr - m.Sr)
    requires StrictlyBetween(m, r, c)
    ensures InBounds(r, c) && b[Idx(r, c)] == Empty
  {
    var j := StepAtSquare(b, m, r, c);
    FirstStopClear(b, m.Sr, m.Sc, m.Tr - m.Sr, m.Tc - m.Sc, 1, j);
  }

  // ------------------------------------------------ the king's move on the state

  /** The preconditions of the king branch of ApplyMoveLocal: a king of the side
      to move on the source, an empty target. */
  predicate KingToMove(s: LocalState, m: MoveDto)
  {
    WellFormed(s.Board) && MoveInBounds(m) &&
    IsKingCode(s.Board[Idx(m.Sr, m.Sc)]) && IsWhiteCode(s.Board[Idx(m.Sr, m.Sc)]) == s.WhiteTurn &&
    s.Board[Idx(m.Tr, m.Tc)] == Empty
  }

  /** Squares strictly between are neither the source nor the target. */
  lemma BetweenIsInterior(m: MoveDto, r: int, c: int)
    requires MoveInBounds(m) && StrictlyBetween(m, r, c)
    ensures InBounds(r, c) ==> Idx(r, c) != Idx(m.Sr, m.Sc) && Idx(r, c) != Idx(m.Tr, m.Tc)
  {
    if InBounds(r, c) {
      IdxInjective(r, c, m.Sr, m.Sc);
      IdxInjective(r, c, m.Tr, m.Tc);
    }
  }

  /** For a king of the side to move, ApplyMoveLocal's verdict is the king's. */
  lemma KingCheck(s: LocalState, m: MoveDto)
    requires KingToMove(s, m)
    ensures (m.Sr, m.Sc) != (m.Tr, m.Tc)
    ensures CheckLocal(s.Board, s.WhiteTurn, m) == KingVerdict(s.Board, m, s.WhiteTurn)
  {
  }

  /** A king's move that is off the diagonal, passes a friend, or passes two
      pieces leaves the board and the turn as they were. */
  lemma KingRefused(s: LocalState, m: MoveDto)
    requires KingToMove(s, m)
    requires Abs(m.Tr - m.Sr) != Abs(m.Tc - m.Sc) || FriendBetween(s.Board, m, s.WhiteTurn) || TwoBetween(s.Board, m)
    ensures ApplyLocal(s, m) == s
  {
    KingCheck(s, m);
    KingAcceptedGeometric(s.Board, m, s.WhiteTurn);
  }

  /** With at most one piece between, clearing that piece's square clears the ray. */
  lemma CaptureClearsRay(b: seq<Code>, m: MoveDto, r0: int, c0: int, r: int, c: int)
    requires WellFormed(b) && MoveInBounds(m) && Abs(m.Tr - m.Sr) == Abs(m.Tc - m.Sc) && !TwoBetween(b, m)
    requires InBounds(r0, c0) && StrictlyBetween(m, r0, c0) && b[Idx(r0, c0)] != Empty
    requires StrictlyBetween(m, r, c)
    ensures InBounds(r, c) && b[Idx(r0, c0) := Empty][Idx(r, c)] == Empty
  {
    var _ := StepAtSquare(b, m, r, c);
    if (r, c) != (r0, c0) {
      IdxInjective(r, c, r0, c0);
    }
  }

  /** The board after a king moves from source to target over the one piece on (r0, c0). */
  lemma CaptureBoard(b: seq<Code>, m: MoveDto, p: Code, r0: int, c0: int)
    requires WellFormed(b) && MoveInBounds(m) && Abs(m.Tr - m.Sr) == Abs(m.Tc - m.Sc) && !TwoBetween(b, m)
    requires InBounds(r0, c0) && StrictlyBetween(m, r0, c0) && b[Idx(r0, c0)] != Empty
    ensures var after := b[Idx(r0, c0) := Empty][Idx(m.Tr, m.Tc) := p][Idx(m.Sr, m.Sc) := Empty];
            (forall r, c :: StrictlyBetween(m, r, c) ==> InBounds(r, c) && after[Idx(r, c)] == Empty) &&
            (forall r, c ::
               InBounds(r, c) && (r, c) != (m.Sr, m.Sc) && (r, c) != (m.Tr, m.Tc) && !StrictlyBetween(m, r, c)
               ==> after[Idx(r, c)] == b[Idx(r, c)])
  {
    var after := b[Idx(r0, c0) := Empty][Idx(m.Tr, m.Tc) := p][Idx(m.Sr, m.Sc) := Empty];
    forall r, c | StrictlyBetween(m, r, c)
      ensures InBounds(r, c) && after[Idx(r, c)] == Empty
    {
      CaptureClearsRay(b, m, r0, c0, r, c);
      BetweenIsInterior(m, r, c);
    }
    forall r, c | InBounds(r, c) && (r, c) != (m.Sr, m.Sc) && (r, c) != (m.Tr, m.Tc) && !StrictlyBetween(m, r, c)
      ensures after[Idx(r, c)] == b[Idx(r, c)]
    {
      IdxInjective(r, c, r0, c0);
      IdxInjective(r, c, m.Sr, m.Sc);
      IdxInjective(r, c, m.Tr, m.Tc);
    }
  }

  /** The board after a king moves from source to target over empty squares only. */
  lemma QuietBoard(b: seq<Code>, m: MoveDto, p: Code)
    requires WellFormed(b) && MoveInBounds(m) && Abs(m.Tr - m.Sr) == Abs(m.Tc - m.Sc)
    requires FirstStop(b, m.Sr, m.Sc, m.Tr - m.Sr, m.Tc - m.Sc, 1) >= Abs(m.Tr - m.Sr)
    ensures var after := b[Idx(m.Tr, m.Tc) := p][Idx(m.Sr, m.Sc) := Empty];
            (forall r, c :: StrictlyBetween(m, r, c) ==> InBounds(r, c) && after[Idx(r, c)] == Empty) &&
            (forall r, c ::
               InBounds(r, c) && (r, c) != (m.Sr, m.Sc) && (r, c) != (m.Tr, m.Tc) && !StrictlyBetween(m, r, c)
               ==> after[Idx(r, c)] == b[Idx(r, c)])
  {
    var after := b[Idx(m.Tr, m.Tc) := p][Idx(m.Sr, m.Sc) := Empty];
    forall r, c | StrictlyBetween(m, r, c)
      ensures InBounds(r, c) && after[Idx(r, c)] == Empty
    {
      QuietBetween(b, m, r, c);
      BetweenIsInterior(m, r, c);
    }
    forall r, c | InBounds(r, c) && (r, c) != (m.Sr, m.Sc) && (r, c) != (m.Tr, m.Tc) && !StrictlyBetween(m, r, c)
      ensures after[Idx(r, c)] == b[Idx(r, c)]
    {
      IdxInjective(r, c, m.Sr, m.Sc);
      IdxInjective(r, c, m.Tr, m.Tc);
    }
  }

  /** Where an accepted king's move leaves the board: the king on the target,
      the source and every square strictly between empty, the rest unchanged. */
  lemma KingMovedBoard(s: LocalState, m: MoveDto)
    requires KingToMove(s, m)
    requires Abs(m.Tr - m.Sr) == Abs(m.Tc - m.Sc) && !FriendBetween(s.Board, m, s.WhiteTurn) && !TwoBetween(s.Board, m)
    ensures var t := ApplyLocal(s, m);
            t.Board[Idx(m.Sr, m.Sc)] == Empty && t.Board[Idx(m.Tr, m.Tc)] == s.Board[Idx(m.Sr, m.Sc)] &&
            (forall r, c :: StrictlyBetween(m, r, c) ==> InBounds(r, c) && t.Board[Idx(r, c)] == Empty) &&
            (forall r, c ::
               InBounds(r, c) && (r, c) != (m.Sr, m.Sc) && (r, c) != (m.Tr, m.Tc) && !StrictlyBetween(m, r, c)
               ==> t.Board[Idx(r, c)] == s.Board[Idx(r, c)])
  {
    var b, w := s.Board, s.WhiteTurn;
    var si, ti := Idx(m.Sr, m.Sc), Idx(m.Tr, m.Tc);
    var piece := b[si];
    KingCheck(s, m);
    KingAcceptedGeometric(b, m, w);
    var cap := KingVerdict(b, m, w).captured;
    assert ApplyLocal(s, m) == Commit(s, m, cap);
    if cap.Some? {
      KingCaptureBetween(b, m, w);
      var r0, c0 :| InBounds(r0, c0) && StrictlyBetween(m, r0, c0) && Idx(r0, c0) == cap.value;
      assert b[Idx(r0, c0)] != Empty;
      assert Commit(s, m, cap).Board == b[Idx(r0, c0) := Empty][ti := piece][si := Empty];
      CaptureBoard(b, m, piece, r0, c0);
    } else {
      KingQuietStop(b, m, w);
      assert Commit(s, m, cap).Board == b[ti := piece][si := Empty];
      QuietBoard(b, m, piece);
    }
  }

  /** After an accepted king's move the turn passes, unless the king captured
      and can capture again from the target. */
  lemma KingMovedTurn(s: LocalState, m: MoveDto)
    requires KingToMove(s, m)
    requires Abs(m.Tr - m.Sr) == Abs(m.Tc - m.Sc) && !FriendBetween(s.Board, m, s.WhiteTurn) && !TwoBetween(s.Board, m)
    ensures var t := ApplyLocal(s, m);
            t.WhiteTurn == if PieceBetween(s.Board, m) && KingCaptureAvailable(t.Board, m.Tr, m.Tc, s.WhiteTurn)
                           then s.WhiteTurn else !s.WhiteTurn
  {
    var b, w := s.Board, s.WhiteTurn;
    KingCheck(s, m);
    KingAcceptedGeometric(b, m, w);
    var cap := KingVerdict(b, m, w).captured;
    assert ApplyLocal(s, m) == Commit(s, m, cap);
    if cap.Some? {
      KingCaptureBetween(b, m, w);
      var r0, c0 :| InBounds(r0, c0) && StrictlyBetween(m, r0, c0) && Idx(r0, c0) == cap.value;
      assert b[Idx(r0, c0)] != Empty;
      assert PieceBetween(b, m);
    } else {
      KingQuietStop(b, m, w);
      forall r, c | InBounds(r, c) && StrictlyBetween(m, r, c)
        ensures b[Idx(r, c)] == Empty
      {
        QuietBetween(b, m, r, c);
      }
      assert !PieceBetween(b, m);
    }
  }

  // ------------------------------------------------ the early refusals

  /** An empty source, a piece of the side not to move, or an occupied target
      leaves the board and the turn as they were. */
  lemma EarlyRefusal(s: LocalState, m: MoveDto)
    requires WellFormed(s.Board) && MoveInBounds(m)
    requires s.Board[Idx(m.Sr, m.Sc)] == Empty || IsWhiteCode(s.Board[Idx(m.Sr, m.Sc)]) != s.WhiteTurn ||
             s.Board[Idx(m.Tr, m.Tc)] != Empty
    ensures ApplyLocal(s, m) == s
  {
  }

  // ------------------------------------------------ the man's moves

  /** The preconditions of the man branches: a man of the side to move on the
      source, an empty target. */
  predicate ManToMove(s: LocalState, m: MoveDto)
  {
    WellFormed(s.Board) && MoveInBounds(m) &&
    (s.Board[Idx(m.Sr, m.Sc)] == WhiteMan || s.Board[Idx(m.Sr, m.Sc)] == BlackMan) &&
    IsWhiteCode(s.Board[Idx(m.Sr, m.Sc)]) == s.WhiteTurn && s.Board[Idx(m.Tr, m.Tc)] == Empty
  }

  /** A man's one-square diagonal step is accepted exactly when it goes forward
      (towards row 0 for white, row 7 for black); it then moves, and crowns, the
      man and always passes the turn. */
  lemma ManStep(s: LocalState, m: MoveDto)
    requires ManToMove(s, m) && Abs(m.Tr - m.Sr) == 1 && Abs(m.Tc - m.Sc) == 1
    ensures var piece := s.Board[Idx(m.Sr, m.Sc)];
            var forward := if piece == WhiteMan then m.Tr == m.Sr - 1 else m.Tr == m.Sr + 1;
            var t := ApplyLocal(s, m);
            (!forward ==> t == s) &&
            (forward ==> t.Board == s.Board[Idx(m.Tr, m.Tc) := PromoteCell(piece, m.Tr)][Idx(m.Sr, m.Sc) := Empty] &&
                         t.WhiteTurn == !s.WhiteTurn)
  {
  }

  /** The jumped square is the midpoint of source and target. */
  lemma JumpedMidpoint(m: MoveDto)
    requires MoveInBounds(m) && Abs(m.Tr - m.Sr) == 2 && Abs(m.Tc - m.Sc) == 2
    ensures InBounds((m.Sr + m.Tr) / 2, (m.Sc + m.Tc) / 2)
    ensures JumpedSquare(m) == Idx((m.Sr + m.Tr) / 2, (m.Sc + m.Tc) / 2)
  {
  }

  /** A man's two-square diagonal jump, forwards or backwards, is accepted
      exactly when the midpoint holds an enemy; it then empties the source and
      the midpoint, puts the (possibly crowned) man on the target, and keeps the
      turn exactly when another jump is open from the target. */
  lemma ManJump(s: LocalState, m: MoveDto)
    requires ManToMove(s, m) && Abs(m.Tr - m.Sr) == 2 && Abs(m.Tc - m.Sc) == 2
    ensures InBounds((m.Sr + m.Tr) / 2, (m.Sc + m.Tc) / 2)
    ensures var piece := s.Board[Idx(m.Sr, m.Sc)];
            var mid := Idx((m.Sr + m.Tr) / 2, (m.Sc + m.Tc) / 2);
            var t := ApplyLocal(s, m);
            (!IsEnemy(s.Board[mid], s.WhiteTurn) ==> t == s) &&
            (IsEnemy(s.Board[mid], s.WhiteTurn) ==>
               t.Board == s.Board[mid := Empty][Idx(m.Tr, m.Tc) := PromoteCell(piece, m.Tr)][Idx(m.Sr, m.Sc) := Empty] &&
               (t.WhiteTurn == s.WhiteTurn <==> ManCaptureAvailable(t.Board, m.Tr, m.Tc, s.WhiteTurn)))
  {
    JumpedMidpoint(m);
    var ci := JumpedSquare(m);
    if IsEnemy(s.Board[ci], s.WhiteTurn) {
      JumpOutcome(s, m, ci);
    }
  }

  /** Any other shape of a man's move leaves the board and the turn as they were. */
  lemma ManOtherShape(s: LocalState, m: MoveDto)
    requires ManToMove(s, m)
    requires !(Abs(m.Tr - m.Sr) == 1 && Abs(m.Tc - m.Sc) == 1) && !(Abs(m.Tr - m.Sr) == 2 && Abs(m.Tc - m.Sc) == 2)
    ensures ApplyLocal(s, m) == s
  {
  }

  // ------------------------------------------------ promotion

  /** Crowning twice is crowning once, and a king is never changed. */
  lemma PromoteIdempotent(p: Code, row: int)
    ensures PromoteCell(PromoteCell(p, row), row) == PromoteCell(p, row)
    ensures IsKingCode(p) ==> PromoteCell(p, row) == p
  {
  }

  // ------------------------------------------------ counting pieces

  /** Emptying an occupied cell takes one piece from its side's count only. */
  lemma ClearCounts(b: seq<Code>, i: int)
    requires 0 <= i < |b| && b[i] != Empty
    ensures ColorCount(b[i := Empty], IsWhiteCode(b[i])) == ColorCount(b, IsWhiteCode(b[i])) - 1
    ensures ColorCount(b[i := Empty], !IsWhiteCode(b[i])) == ColorCount(b, !IsWhiteCode(b[i]))
  {
    assert multiset(b[i := Empty]) == multiset(b) - multiset{b[i]} + multiset{Empty};
    assert b[i] in multiset(b);
  }

  /** Filling an empty cell adds one piece to its side's count only. */
  lemma FillCounts(b: seq<Code>, i: int, v: Code)
    requires 0 <= i < |b| && b[i] == Empty && v != Empty
    ensures ColorCount(b[i := v], IsWhiteCode(v)) == ColorCount(b, IsWhiteCode(v)) + 1
    ensures ColorCount(b[i := v], !IsWhiteCode(v)) == ColorCount(b, !IsWhiteCode(v))
  {
    assert multiset(b[i := v]) == multiset(b) - multiset{Empty} + multiset{v};
    assert Empty in multiset(b);
  }

  /** What an accepted move writes keeps the mover's count and takes the captured piece, if any, from the other side. */
  lemma CommitCounts(s: LocalState, m: MoveDto, cap: Option<int>)
    requires WellFormed(s.Board) && MoveInBounds(m)
    requires s.Board[Idx(m.Sr, m.Sc)] != Empty && s.Board[Idx(m.Tr, m.Tc)] == Empty
    requires IsWhiteCode(s.Board[Idx(m.Sr, m.Sc)]) == s.WhiteTurn
    requires cap.Some? ==> 0 <= cap.value < 64 && cap.value != Idx(m.Sr, m.Sc) && cap.value != Idx(m.Tr, m.Tc) &&
                           IsEnemy(s.Board[cap.value], s.WhiteTurn)
    ensures ColorCount(Commit(s, m, cap).Board, s.WhiteTurn) == ColorCount(s.Board, s.WhiteTurn)
    ensures ColorCount(Commit(s, m, cap).Board, !s.WhiteTurn) ==
            ColorCount(s.Board, !s.WhiteTurn) - (if cap.Some? then 1 else 0)
  {
    var b, si, ti := s.Board, Idx(m.Sr, m.Sc), Idx(m.Tr, m.Tc);
    var piece := b[si];
    var b1 := if cap.Some? then b[cap.value := Empty] else b;
    if cap.Some? {
      ClearCounts(b, cap.value);
    }
    var q := PromoteCell(piece, m.Tr);
    FillCounts(b1, ti, q);
    var b2 := b1[ti := q];
    ClearCounts(b2, si);
    assert Commit(s, m, cap).Board == b2[si := Empty];
  }

  /** A move never changes the number of pieces of the side to move, and takes
      exactly one piece from the other side when it captures. */
  lemma ApplyCounts(s: LocalState, m: MoveDto)
    requires WellFormed(s.Board) && MoveInBounds(m)
    ensures var t, chk := ApplyLocal(s, m), CheckLocal(s.Board, s.WhiteTurn, m);
            ColorCount(t.Board, s.WhiteTurn) == ColorCount(s.Board, s.WhiteTurn) &&
            ColorCount(t.Board, !s.WhiteTurn) ==
              ColorCount(s.Board, !s.WhiteTurn) - (if chk.Accepted? && chk.captured.Some? then 1 else 0)
  {
    var chk := CheckLocal(s.Board, s.WhiteTurn, m);
    if chk.Accepted? {
      CommitCounts(s, m, chk.captured);
    }
  }

  /** Kings of one side. */
  function KingCount(b: seq<Code>, white: bool): nat {
    multiset(b)[if white then WhiteKing else BlackKing]
  }

  lemma WriteCount(b: seq<Code>, i: int, v: Code, x: Code)
    requires 0 <= i < |b|
    ensures multiset(b[i := v])[x] == multiset(b)[x] - (if b[i] == x then 1 else 0) + (if v == x then 1 else 0)
  {
    assert multiset(b[i := v]) == multiset(b) - multiset{b[i]} + multiset{v};
    assert b[i] in multiset(b);
  }

  /** What an accepted move writes leaves the mover's kings, plus the crowned man. */
  lemma CommitKings(s: LocalState, m: MoveDto, cap: Option<int>)
    requires WellFormed(s.Board) && MoveInBounds(m)
    requires s.Board[Idx(m.Sr, m.Sc)] != Empty && s.Board[Idx(m.Tr, m.Tc)] == Empty
    requires IsWhiteCode(s.Board[Idx(m.Sr, m.Sc)]) == s.WhiteTurn
    requires cap.Some? ==> 0 <= cap.value < 64 && cap.value != Idx(m.Sr, m.Sc) && cap.value != Idx(m.Tr, m.Tc) &&
                           IsEnemy(s.Board[cap.value], s.WhiteTurn)
    ensures var piece := s.Board[Idx(m.Sr, m.Sc)];
            KingCount(Commit(s, m, cap).Board, s.WhiteTurn) ==
              KingCount(s.Board, s.WhiteTurn) + (if PromoteCell(piece, m.Tr) != piece then 1 else 0)
  {
    var b, si, ti := s.Board, Idx(m.Sr, m.Sc), Idx(m.Tr, m.Tc);
    var k := if s.WhiteTurn then WhiteKing else BlackKing;
    var piece := b[si];
    var b1 := if cap.Some? then b[cap.value := Empty] else b;
    if cap.Some? {
      WriteCount(b, cap.value, Empty, k);
    }
    var q := PromoteCell(piece, m.Tr);
    WriteCount(b1, ti, q, k);
    var b2 := b1[ti := q];
    WriteCount(b2, si, Empty, k);
    assert Commit(s, m, cap).Board == b2[si := Empty];
  }

  /** The side to move never loses a king, and gains one exactly when its man is crowned. */
  lemma ApplyKings(s: LocalState, m: MoveDto)
    requires WellFormed(s.Board) && MoveInBounds(m)
    ensures var t, chk := ApplyLocal(s, m), CheckLocal(s.Board, s.WhiteTurn, m);
            var piece := s.Board[Idx(m.Sr, m.Sc)];
            KingCount(t.Board, s.WhiteTurn) ==
              KingCount(s.Board, s.WhiteTurn) + (if chk.Accepted? && PromoteCell(piece, m.Tr) != piece then 1 else 0)
  {
    var chk := CheckLocal(s.Board, s.WhiteTurn, m);
    if chk.Accepted? {
      CommitKings(s, m, chk.captured);
    }
  }
}
