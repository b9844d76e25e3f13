# Checkers rules engines, in Dafny

This project models the game logic of a small networked checkers
(draughts) application for an 8x8 board. The logic lives in three places
that do not share code:

- **The client's `GameEngine`** (`Checkers.Client/GameEngine.cs`) keeps
  a `PieceType[8,8]` board and the side to move.
  - `ValidateMove` accepts a one-square diagonal step or a two-square
    jump over an enemy. Men move forward only; kings move either way,
    still one or two squares.
  - `MakeMove` applies a valid move, crowns a man on the far row, and
    passes the turn only after a non-capture.
- **The window's own rules** (`ApplyMoveLocal` in
  `Checkers.Client/MainWindow.xaml.cs`) work on the 64-cell row-major
  string board of `GameStateDto` and its `WhiteTurn` flag.
  - Kings slide any distance along a diagonal and take at most one enemy
    on the way.
  - Men step forward and jump in both directions.
  - After a capture the mover keeps the turn while the landing square
    offers another capture (`HasMoreCaptures`, `HasMoreKingCaptures`).
- **The server hub** (`Checkers.Server/Hubs/GameHub.cs`) builds the
  authoritative start board and the state a new game starts from. It
  also keeps two tables that pair connections with user ids.

The two engines are modelled as written and are not reconciled. They
differ on king range, on backward captures by men, and on the turn after
a capture.

Modules:

- `Squares`: board geometry.
  - `InBounds` and the row-major `Idx`.
  - The dark-square test `(i / 8 + i) % 2 == 1`.
  - A counting lemma for layouts that fill the dark squares of a band of
    rows.
- `Shared`: the shared data shapes.
  - The five cell codes, as the `Code` datatype whose `Spelling` is
    `""`, `"w"`, `"b"`, `"W"` or `"B"`.
  - The DTOs.
  - The start board `StartBoard`.
- `ClientEngine`: `GameEngine.cs`, as a class over an `array2` board and
  a turn field.
  - `ValidateMove` is a function reading the board.
  - `ResetBoard` and `MakeMove` are methods that update the board in
    place.
- `LocalRules`: `ApplyMoveLocal` and its helpers, as a `MainWindow`
  class whose `Board` and `WhiteTurn` fields the methods update.
  - Every method is proved against a specification function:
    `ApplyLocal` (the whole move), `KingScan`/`KingVerdict` (the king's
    ray), `RayFrom`/`RayCapture` (one ray of `HasMoreKingCaptures`), and
    `ManCaptureAvailable`.
  - The specification functions are related by lemmas: the loop's
    reading of a ray is shown equal to the declarative one.
- `LocalRulesProps`: the rules of `ApplyMoveLocal` stated on
  `ApplyLocal`.
  - The rules cover refusals, the board a move leaves, when the turn
    passes, piece and king counts, and promotion.
  - The king's ray is also described a second time by plane geometry
    (`StrictlyBetween`), and the two descriptions are proved to agree.
- `ServerHub`: `CreateInitialBoard`, `CreateGame`, and the connection
  tables as a `GameHub` class with two `map` fields.
- `StartLayouts`: the three start layouts agree square by square.
  - The two string boards are both proved equal to `StartBoard`.
  - The engines also crown the same men on the same rows.

## Model

| member | source | states |
|---|---|---|
| Squares.Idx | Checkers.Client/MainWindow.xaml.cs:252-253 | the row-major index `r * 8 + c` of an on-board square lies in 0 .. 63 |
| Squares.IdxInjective | Checkers.Client/MainWindow.xaml.cs:252-253 | two on-board squares have the same index exactly when they are the same square |
| Squares.DarkIsOddRowPlusCol | Checkers.Server/Hubs/GameHub.cs:151 | the hub's index test `(i / 8 + i) % 2 == 1` picks the squares with `r + c` odd, which is ResetBoard's test |
| Squares.DarkBandCount | Checkers.Server/Hubs/GameHub.cs:149-160 | a value standing exactly on the dark squares of rows `rlo .. rhi-1` occurs `4 * (rhi - rlo)` times |
| Shared.Spelling | Checkers.Shared/Models/GameStateDto.cs:10 | only an empty cell is spelt `""` |
| Shared.Parse | Checkers.Shared/Models/GameStateDto.cs:10 | a string that parses is the spelling of the code it parses to |
| Shared.ParseSpelling | Checkers.Shared/Models/GameStateDto.cs:10 | Parse inverts Spelling, so the five spellings are pairwise different |
| Shared.StartBoard | Checkers.Server/Hubs/GameHub.cs:146 | the start board has exactly 64 cells |
| Shared.StartBoardCounts | Checkers.Server/Hubs/GameHub.cs:146-160 | the start board holds 12 black men, 12 white men and no kings |
| ClientEngine.IsKing | Checkers.Client/GameEngine.cs:51-52 | the source's king test itself, with no contract of its own; its properties are stated by `KingAfterLanding` and `StartLayouts.ToCodeAgrees` |
| ClientEngine.KingAfterLanding | Checkers.Client/GameEngine.cs:144-153 | a piece is a king after its move exactly when it was one already, or is a white man reaching row 0 or a black man reaching row 7 |
| ClientEngine.Direction | Checkers.Client/GameEngine.cs:80 | a piece's forward row step is -1 or +1 |
| ClientEngine.DirectionByColor | Checkers.Client/GameEngine.cs:80 | crowning keeps a piece's forward direction; pieces of one colour share a direction, and pieces of the two colours move in opposite ones |
| ClientEngine.Opponent | Checkers.Client/GameEngine.cs:158-159 | passing the turn always hands it to White or Black, and when White or Black was to move, to the other side |
| ClientEngine.OpponentSwaps | Checkers.Client/GameEngine.cs:158-159 | passing the turn twice hands it back to the side that had it |
| ClientEngine.IsSameColor | Checkers.Client/GameEngine.cs:54-59 | the source's colour test itself, with no contract of its own; its properties are stated by `SameColorEquivalence`, `SameColorLanded`, `SameColorOpponent` and `StartLayouts.SameColorAgrees` |
| ClientEngine.SameColorEquivalence | Checkers.Client/GameEngine.cs:54-59 | having the same colour is symmetric and transitive, holds for every piece with itself, and never holds for an empty square |
| ClientEngine.SameColorLanded | Checkers.Client/GameEngine.cs:54-59 | a crowned piece has the colour of the man it was |
| ClientEngine.SameColorOpponent | Checkers.Client/GameEngine.cs:54-59 | every piece has the colour of exactly one of the side to move and the side the turn passes to |
| ClientEngine.StartPieceCounts | Checkers.Client/GameEngine.cs:33-49 | ResetBoard's layout, read over all 64 squares, has 12 white and 12 black pieces |
| ClientEngine.StartCellsCounts | Checkers.Client/GameEngine.cs:33-49 | an engine whose board holds ResetBoard's layout has 12 white and 12 black pieces on its own cells |
| ClientEngine.LandedKeepsColor | Checkers.Client/GameEngine.cs:144-153 | crowning keeps a piece's colour, never empties or fills a square, and never changes a king |
| ClientEngine.GameEngine.constructor | Checkers.Client/GameEngine.cs:28-31 | a new engine holds the start position with white to move, 12 pieces a side |
| ClientEngine.GameEngine.ResetBoard | Checkers.Client/GameEngine.cs:33-49 | a fresh 8x8 board: Black on the `(r + c)`-odd squares of rows 0-2, White on those of rows 5-7, None elsewhere, so 12 pieces a side; white to move |
| ClientEngine.GameEngine.ValidateMove | Checkers.Client/GameEngine.cs:62-122 | invalid on an empty source, a piece of the side not to move, an off-diagonal move, or one longer than two squares; a one-square step is valid iff the target is empty and the piece is a king or moves in its direction; a jump is valid iff the midpoint holds a piece of the other colour, the target is empty, and the piece is a king or jumps in its direction; valid jumps are exactly the captures and name the midpoint; never reports a promotion |
| ClientEngine.GameEngine.MakeMove | Checkers.Client/GameEngine.cs:125-163 | an invalid move returns the validation and changes nothing; a valid one empties the source and the jumped square, puts the piece (crowned on the far row) on the target, leaves every other square alone, sets BecameKing exactly for a white man reaching row 0 or a black man reaching row 7, keeps the turn after a capture and passes it otherwise, and keeps the mover's piece count while taking exactly the captured piece from the opponent |
| ClientEngine.MoveCountsOnBoard | Checkers.Client/GameEngine.cs:131-141 | the piece counts of MakeMove, read off the 8x8 board |
| ClientEngine.MoveCounts | Checkers.Client/GameEngine.cs:131-141 | a move conserves the mover's pieces and takes exactly the captured one from the opponent |
| LocalRules.PromoteCell | Checkers.Client/MainWindow.xaml.cs:406-415 | crowning keeps colour and emptiness; the result is a king iff the code was one or it is `"w"` on row 0 or `"b"` on row 7; a non-king result is the code itself |
| LocalRules.RayCaptureWitness | Checkers.Client/MainWindow.xaml.cs:435-462 | a ray offers a king's capture (first piece an enemy, the square behind it on the board and empty) iff some square of it can be jumped over empty squares only |
| LocalRules.RayFromStop | Checkers.Client/MainWindow.xaml.cs:435-462 | the scan loop's reading of a ray, from any step with no enemy seen, finds a capture iff the first piece from there is an enemy with an empty on-board square behind it |
| LocalRules.KingRays | Checkers.Client/MainWindow.xaml.cs:425-466 | KingCaptureAvailable is the disjunction of the four ray scans |
| LocalRules.KingVerdict | Checkers.Client/MainWindow.xaml.cs:276-313 | an accepted king's move is diagonal; a captured cell holds a piece of the other side and is neither the source nor the target |
| LocalRules.ManVerdict | Checkers.Client/MainWindow.xaml.cs:341-380 | a man's captured cell holds a piece of the other side and is neither the source nor the target |
| LocalRules.CheckLocal | Checkers.Client/MainWindow.xaml.cs:255-402 | an accepted move has a piece of the side to move on the source and an empty target; a captured cell holds an enemy and is neither source nor target |
| LocalRules.KingScanRay | Checkers.Client/MainWindow.xaml.cs:293-313 | along an on-board ray the step-by-step scan refuses exactly when a friend or two pieces stand before the target, and otherwise captures the first piece met, if any |
| LocalRules.KingScanVerdict | Checkers.Client/MainWindow.xaml.cs:284-313 | the loop's scan of a diagonal king's move and the declarative KingVerdict agree |
| LocalRules.JumpOutcome | Checkers.Client/MainWindow.xaml.cs:359-400 | an accepted man's jump: jumped cell and source emptied, the (possibly crowned) man on the target, turn kept exactly when another jump is open from there |
| LocalRules.MainWindow.FromState | Checkers.Client/MainWindow.xaml.cs:68-72 | the window adopts the board and turn of the state it receives |
| LocalRules.MainWindow.CreateInitialBoard | Checkers.Client/MainWindow.xaml.cs:163-173 | the window's start board is StartBoard, the hub's |
| LocalRules.MainWindow.TryPromoteToKing | Checkers.Client/MainWindow.xaml.cs:406-415 | only the given cell can change, to its crowned code; the turn is untouched |
| LocalRules.MainWindow.HasMoreCaptures | Checkers.Client/MainWindow.xaml.cs:471-508 | true iff in one of the four diagonal directions the adjacent cell holds an enemy and the cell two away is on the board and empty |
| LocalRules.MainWindow.HasMoreKingCaptures | Checkers.Client/MainWindow.xaml.cs:419-467 | true iff one of the four rays offers a capture: its first piece is an enemy and the next square is on the board and empty |
| LocalRules.MainWindow.ScanRay | Checkers.Client/MainWindow.xaml.cs:429-462 | the inner `while` loop of one direction computes RayFrom |
| LocalRules.MainWindow.ScanKingPath | Checkers.Client/MainWindow.xaml.cs:284-313 | the king's `while` loop computes KingScan: refused at a friend or a second piece, otherwise at most one enemy, whose square is reported |
| LocalRules.MainWindow.MoveKingLocal | Checkers.Client/MainWindow.xaml.cs:276-337 | the king branch leaves the state ApplyLocal describes |
| LocalRules.MainWindow.StepManLocal | Checkers.Client/MainWindow.xaml.cs:341-356 | the one-square man branch leaves the state ApplyLocal describes |
| LocalRules.MainWindow.JumpManLocal | Checkers.Client/MainWindow.xaml.cs:359-402 | the jump branch: no change without an enemy on the jumped cell; else jumped cell and source emptied, crowned man on the target, turn kept iff HasMoreCaptures holds on the new board |
| LocalRules.MainWindow.ApplyMoveLocal | Checkers.Client/MainWindow.xaml.cs:244-403 | the new board and turn are ApplyLocal of the old ones |
| LocalRulesProps.FriendOnRay | Checkers.Client/MainWindow.xaml.cs:297-302 | the scan's friend test along the ray is the same as a friend standing on a square strictly between source and target |
| LocalRulesProps.TwoOnRay | Checkers.Client/MainWindow.xaml.cs:304-308 | two occupied steps of the ray are the same as two different occupied squares strictly between source and target |
| LocalRulesProps.KingAcceptedGeometric | Checkers.Client/MainWindow.xaml.cs:282-313 | a king's move is accepted iff it is diagonal, no friend stands strictly between, and no two squares strictly between are occupied |
| LocalRulesProps.KingCaptureBetween | Checkers.Client/MainWindow.xaml.cs:304-306 | the square a king captures lies strictly between source and target |
| LocalRulesProps.KingCheck | Checkers.Client/MainWindow.xaml.cs:255-276 | for a king of the side to move with an empty target, the move's verdict is the king's verdict, and source and target differ |
| LocalRulesProps.KingRefused | Checkers.Client/MainWindow.xaml.cs:276-313 | an off-diagonal king's move, or one past a friend or past two pieces, leaves board and turn unchanged |
| LocalRulesProps.KingMovedBoard | Checkers.Client/MainWindow.xaml.cs:316-326 | an accepted king's move empties the source and every square strictly between, puts the same king code on the target, and changes nothing else |
| LocalRulesProps.KingMovedTurn | Checkers.Client/MainWindow.xaml.cs:328-335 | after an accepted king's move the turn passes, unless it captured and HasMoreKingCaptures holds at the target on the new board |
| LocalRulesProps.EarlyRefusal | Checkers.Client/MainWindow.xaml.cs:255-269 | an empty source, a piece of the side not to move, or an occupied target leaves board and turn unchanged |
| LocalRulesProps.ManStep | Checkers.Client/MainWindow.xaml.cs:341-356 | a man's one-square step is accepted iff it goes forward (`"w"` up, `"b"` down); it then moves and crowns the man and always passes the turn |
| LocalRulesProps.JumpedMidpoint | Checkers.Client/MainWindow.xaml.cs:361-363 | the jumped cell `(sr + dr / 2, sc + dc / 2)` is the midpoint of source and target |
| LocalRulesProps.ManJump | Checkers.Client/MainWindow.xaml.cs:359-400 | a man's jump in either vertical direction is accepted iff the midpoint holds an enemy; it empties source and midpoint, fills the target, and keeps the turn iff HasMoreCaptures holds at the landing square |
| LocalRulesProps.ManOtherShape | Checkers.Client/MainWindow.xaml.cs:402-403 | any other shape of a man's move leaves board and turn unchanged |
| LocalRulesProps.PromoteIdempotent | Checkers.Client/MainWindow.xaml.cs:406-415 | crowning twice is crowning once; a king is never changed |
| LocalRulesProps.ApplyCounts | Checkers.Client/MainWindow.xaml.cs:319-380 | a move never changes the mover's piece count, and takes exactly one piece from the other side when it captures |
| LocalRulesProps.ApplyKings | Checkers.Client/MainWindow.xaml.cs:382-389 | the mover never loses a king and gains one exactly when an accepted move crowns its man |
| ServerHub.CreateInitialBoard | Checkers.Server/Hubs/GameHub.cs:143-163 | the hub's start board is StartBoard: 64 cells, `"b"` on the odd-`(i / 8 + i)` cells of 0 .. 23, `"w"` on those of 40 .. 63, `""` elsewhere |
| ServerHub.CreateGame | Checkers.Server/Hubs/GameHub.cs:64-84 | the host gets the caller's connection and plays white; the state has the game id, the host as white, no black player, the start board, white to move, not finished, no winner, no moves |
| ServerHub.AllWhiteSpace | Checkers.Server/Hubs/GameHub.cs:31 | true iff every character of the string is white space |
| ServerHub.IsNullOrWhiteSpace | Checkers.Server/Hubs/GameHub.cs:167 | true iff the string is null or every character is white space |
| ServerHub.GameHub.constructor | Checkers.Server/Hubs/GameHub.cs:18-21 | both connection tables start empty |
| ServerHub.GameHub.GetUserIdByConnection | Checkers.Server/Hubs/GameHub.cs:165-170 | a user id is returned iff the id is neither null nor blank and the connection is in the table, and it is the stored one |
| ServerHub.GameHub.Bind | Checkers.Server/Hubs/GameHub.cs:41-42 | the connection now belongs to the user and is the user's connection; nothing else changes |
| ServerHub.GameHub.RegisterPlayer | Checkers.Server/Hubs/GameHub.cs:29-46 | a null or blank name gives -1 and changes nothing; otherwise both tables are updated, the user id is returned, and the connection then looks up to it |
| ServerHub.GameHub.RestoreSession | Checkers.Server/Hubs/GameHub.cs:49-62 | an unknown user changes nothing; a known one is bound to the connection, which then looks up to it |
| ServerHub.GameHub.OnDisconnected | Checkers.Server/Hubs/GameHub.cs:172-181 | a known connection leaves the connection table and its user leaves the user table; an unknown one changes nothing; afterwards the connection names no user and every other connection's lookup is unchanged |
| ServerHub.StaleDisconnect | Checkers.Server/Hubs/GameHub.cs:176-179 | for any hub, any user and any two different connections: once the user registers on the first and restores the session on the second, closing the first removes the user from the user table while the second still names the user |
| StartLayouts.ToCode | Checkers.Client/GameEngine.cs:6-13 | only None corresponds to the empty cell code |
| StartLayouts.ToCodeAgrees | Checkers.Shared/Models/GameStateDto.cs:10 | the PieceType to cell code correspondence keeps colour and rank |
| StartLayouts.CrowningAgrees | Checkers.Client/GameEngine.cs:144-153 | GameEngine's crowning and TryPromoteToKing's (Checkers.Client/MainWindow.xaml.cs:406-415) agree under the correspondence |
| StartLayouts.ResetMatchesStartBoard | Checkers.Client/GameEngine.cs:39-48 | ResetBoard's piece on (r, c) corresponds to cell `r * 8 + c` of the hub's and the window's start board |
| StartLayouts.SameColorAgrees | Checkers.Client/GameEngine.cs:54-59 | on pieces, the engine's same-colour test is the window's friend test under the PieceType to cell-code correspondence |
| StartLayouts.StartBoardSymmetric | Checkers.Server/Hubs/GameHub.cs:146-160 | the start board is point-symmetric with the colours swapped: cell `63 - i` holds a white man exactly when cell `i` holds a black man, and the reverse, and the empty cells map to empty cells |
| StartLayouts.DarkMirror | Checkers.Server/Hubs/GameHub.cs:151 | the half turn `i` to `63 - i` maps dark squares to dark squares and light to light |

## Left out

- Network I/O is not modelled: the SignalR hub groups, every `SendAsync`,
  the `MakeMove`/`JoinGame`/`SyncState` relays and the client's
  connection setup. The window's "GameState" handler is modelled only as
  the `FromState` constructor, and the "OpponentMove" handler as a call
  of `ApplyMoveLocal`.
- Database access is not modelled.
  - `RegisterPlayer` receives the user id the user store holds or
    creates for the name as the parameter `userId`.
  - `RestoreSession` receives whether the user exists as the parameter
    `userFound`.
- The WPF user interface is not modelled: rendering, cell selection and
  logging.
- Concurrency is not modelled. The hub's static `ConcurrentDictionary`
  tables are two `map` fields of one `GameHub` object, updated one call
  at a time.
- Cells are the `Code` datatype rather than strings. The source stores
  the string `Spelling` gives, and `ParseSpelling` shows no information
  is lost. A board holding any other string is outside the model. Every
  board the source builds holds only the five codes, as the
  GameStateDto board is documented to.
- Coordinates are assumed to be on the board, and boards to have 64
  cells; both are preconditions. The engine's 2-D array throws on an
  off-board index when it reads that square; `ValidateMove` refuses some
  off-board targets before reading them (a move longer than two squares,
  a man's backward step). The window's flat list throws only on an index
  outside `0 .. Count-1`; an off-board square whose flattened index
  `sr * 8 + sc` stays inside reads a wrapped cell instead. Its only
  callers are `Cell_Click` and `OpponentMove`, which relays another
  client's `Cell_Click`. Both produce on-board squares only.
- Two null-reference error paths are not modelled. `CreateGame` throws
  on a null `player` (Checkers.Server/Hubs/GameHub.cs:69); `PlayerDto`
  here is a value and cannot be null. `ApplyMoveLocal` throws when a
  move arrives before the first game state, while `_state` is still null
  (Checkers.Client/MainWindow.xaml.cs:246); a `MainWindow` here is
  always built from a state, so that case cannot arise.
- LocalRules.MainWindow.ApplyMoveLocal: its king, step and jump branches
  are separate methods (`MoveKingLocal`, `StepManLocal`,
  `JumpManLocal`), and the king's loop is `ScanKingPath`. Each was
  inlined in one method in the source; they run in the same order on the
  same state.
- LocalRules.MainWindow.HasMoreKingCaptures: the inner `while` loop of
  each direction is the method `ScanRay`. The unused `capturedR` and
  `capturedC` locals are dropped.
- LocalRules.IsFriend and LocalRules.IsEnemy stand for the source's
  inline string tests such as `mid == "w" || mid == "W"`.
- LocalRules.RayCell reads an off-board step as an empty cell. Every use
  either first checks that the step is on the board or never reaches it.
- LocalRules.MainWindow.ScanKingPath: when `clear` is false, the
  contract says nothing about `enemyCount`, `capturedR` and `capturedC`.
  The source returns at once in that case and never reads them.
- The `Capture` flag of MoveDto is carried but never read. Neither
  engine reads it either.
- ClientEngine.GameEngine.MakeMove: the turn is kept after every
  capture, even when no further jump is available. This is modelled as
  written; the engine has no further-capture test.
- ServerHub.CreateGame: the source mutates the caller's `PlayerDto` in
  place. The model returns the updated copy `host` and puts it in the
  state, so aliasing of the caller's object is not modelled.
- ServerHub.GameHub.OnDisconnected removes the user-table entry of the
  disconnected connection's user even when that entry names a newer
  connection. This is modelled as written; `StaleDisconnect` exhibits
  it.
- Rules the source does not have are not added: mandatory capture,
  locking a capture chain to one piece, and win or draw detection.
