/** The server side of the game (Checkers.Server/Hubs/GameHub.cs): the
    authoritative start board, the state a new game starts from, and the two
    tables that pair SignalR connections with user ids. The tables are static
    dictionaries in the source; here they are the fields of one GameHub
    object, updated one call at a time. */
module ServerHub {
  import opened Squares
  import opened Wrappers
  import opened Shared

  /** The start board in the string encoding: 64 empty cells, then "b" on the
      dark cells of indices 0 .. 23 and "w" on those of 40 .. 63. */
  method CreateInitialBoard() returns (board: seq<Code>)
    ensures board == StartBoard()
  {
    board := seq(64, _ => Empty);
    for i := 0 to 24
      invariant |board| == 64
      invariant forall j :: 0 <= j < 64 ==> board[j] == if j < i then StartCode(j) else Empty
    {
      if (i / 8 + i) % 2 == 1 {
        board := board[i := BlackMan];
      }
    }
    for i := 40 to 64
      invariant |board| == 64
      invariant forall j :: 0 <= j < 64 ==> board[j] == if j < 24 || 40 <= j < i then StartCode(j) else Empty
    {
      if (i / 8 + i) % 2 == 1 {
        board := board[i := WhiteMan];
      }
    }
  }

  /** CreateGame: the host, on connection `connectionId`, plays white; the
      game starts from the start board with white to move, unfinished, with
      no second player, no winner and no moves. The host's record as updated
      is returned beside the state. */
  method CreateGame(gameId: string, player: PlayerDto, connectionId: string)
    returns (host: PlayerDto, state: GameStateDto)
    ensures host == player.(ConnectionId := Some(connectionId), IsWhite := true)
    ensures state.GameId == gameId && state.PlayerWhite == Some(host) && state.PlayerBlack.None?
    ensures state.Board == StartBoard() && WellFormed(state.Board)
    ensures state.WhiteTurn && !state.IsFinished && state.Winner.None? && state.Moves == []
  {
    host := player.(ConnectionId := Some(connectionId));
    host := host.(IsWhite := true);
    var board := CreateInitialBoard();
    state := GameStateDto(gameId, Some(host), None, board, true, false, None, []);
  }

  /** The characters .NET's char.IsWhiteSpace accepts: the Unicode space
      separators, the line and paragraph separators, U+0009 .. U+000D, U+0085
      and U+00A0. */
  predicate IsWhiteSpaceChar(ch: char) {
    ch == ' ' || ('\U{0009}' <= ch <= '\U{000D}') || ch == '\U{0085}' || ch == '\U{00A0}' ||
    ch == '\U{1680}' || ('\U{2000}' <= ch <= '\U{200A}') || ch == '\U{2028}' || ch == '\U{2029}' ||
    ch == '\U{202F}' || ch == '\U{205F}' || ch == '\U{3000}'
  }

  /** Whether every character of `s` is white space (true for ""). */
  function AllWhiteSpace(s: string): (b: bool)
    ensures b <==> forall i :: 0 <= i < |s| ==> IsWhiteSpaceChar(s[i])
  {
    if s == [] then true
    else IsWhiteSpaceChar(s[0]) && AllWhiteSpace(s[1..])
  }

  /** string.IsNullOrWhiteSpace; a null string is `None`. */
  function IsNullOrWhiteSpace(s: Option<string>): (b: bool)
    ensures b <==> s.None? || forall i :: 0 <= i < |s.value| ==> IsWhiteSpaceChar(s.value[i])
  {
    s.None? || AllWhiteSpace(s.value)
  }

  /** The hub's connection tables. */
  class GameHub {
    var ConnectionToUser: map<string, int>
    var UserToConnection: map<int, string>

    /** Both tables start empty. */
    constructor ()
      ensures ConnectionToUser == map[] && UserToConnection == map[]
    {
      ConnectionToUser := map[];
      UserToConnection := map[];
    }

    /** The user a connection belongs to: none for a null or blank id, and none
        for a connection that is not in the table. */
    function GetUserIdByConnection(connectionId: Option<string>): (uid: Option<int>)
      reads this
      ensures uid.Some? <==> !IsNullOrWhiteSpace(connectionId) && connectionId.value in ConnectionToUser
      ensures uid.Some? ==> uid.value == ConnectionToUser[connectionId.value]
    {
      if IsNullOrWhiteSpace(connectionId) then None
      else if connectionId.value in ConnectionToUser then Some(ConnectionToUser[connectionId.value])
      else None
    }

    /** The two writes RegisterPlayer and RestoreSession share: the connection
        now belongs to the user and is the user's current connection. */
    method Bind(connectionId: string, userId: int)
      modifies this
      ensures ConnectionToUser == old(ConnectionToUser)[connectionId := userId]
      ensures UserToConnection == old(UserToConnection)[userId := connectionId]
    {
      ConnectionToUser := ConnectionToUser[connectionId := userId];
      UserToConnection := UserToConnection[userId := connectionId];
    }

    /** RegisterPlayer: a null or blank name is refused with -1 and changes
        nothing; otherwise the connection is bound to `userId`, the id the
        user store holds (or creates) for `name`, which is returned. */
    method RegisterPlayer(name: Option<string>, connectionId: string, userId: int) returns (result: int)
      modifies this
      ensures IsNullOrWhiteSpace(name) ==>
                result == -1 && ConnectionToUser == old(ConnectionToUser) && UserToConnection == old(UserToConnection)
      ensures !IsNullOrWhiteSpace(name) ==>
                result == userId &&
                ConnectionToUser == old(ConnectionToUser)[connectionId := userId] &&
                UserToConnection == old(UserToConnection)[userId := connectionId]
      ensures !IsNullOrWhiteSpace(name) && !IsNullOrWhiteSpace(Some(connectionId)) ==>
                GetUserIdByConnection(Some(connectionId)) == Some(userId)
    {
      if IsNullOrWhiteSpace(name) {
        return -1;
      }
      Bind(connectionId, userId);
      return userId;
    }

    /** RestoreSession: when the user store knows `userId` the connection is
        bound to it; otherwise nothing changes. */
    method RestoreSession(userId: int, connectionId: string, userFound: bool)
      modifies this
      ensures !userFound ==> ConnectionToUser == old(ConnectionToUser) && UserToConnection == old(UserToConnection)
      ensures userFound ==>
                ConnectionToUser == old(ConnectionToUser)[connectionId := userId] &&
                UserToConnection == old(UserToConnection)[userId := connectionId]
      ensures userFound && !IsNullOrWhiteSpace(Some(connectionId)) ==>
                GetUserIdByConnection(Some(connectionId)) == Some(userId)
    {
      if !userFound {
        return;
      }
      Bind(connectionId, userId);
    }

    /** OnDisconnectedAsync: a known connection leaves the connection table, and
        the user it belonged to leaves the user table, whatever connection that
        user's entry names; an unknown connection changes nothing. */
    method OnDisconnected(connectionId: string)
      modifies this
      ensures connectionId in old(ConnectionToUser) ==>
                ConnectionToUser == old(ConnectionToUser) - {connectionId} &&
                UserToConnection == old(UserToConnection) - {old(ConnectionToUser)[connectionId]}
      ensures connectionId !in old(ConnectionToUser) ==>
                ConnectionToUser == old(ConnectionToUser) && UserToConnection == old(UserToConnection)
      // the connection no longer names a user; every other connection still names its own
      ensures GetUserIdByConnection(Some(connectionId)).None?
      ensures forall c :: c != connectionId ==> GetUserIdByConnection(Some(c)) == old(GetUserIdByConnection(Some(c)))
    {
      if connectionId in ConnectionToUser {
        var uid := ConnectionToUser[connectionId];
        ConnectionToUser := ConnectionToUser - {connectionId};
        UserToConnection := UserToConnection - {uid};
      }
    }
  }

  /** A user bound on two different connections in turn, first by registering
      and then by restoring the session, loses its user-table entry when the
      older connection closes, although the newer one still names it. */
  method StaleDisconnect(hub: GameHub, name: Option<string>, c1: string, c2: string, u: int)
    requires c1 != c2
    requires !IsNullOrWhiteSpace(name) && !IsNullOrWhiteSpace(Some(c2))
    modifies hub
    ensures hub.GetUserIdByConnection(Some(c2)) == Some(u)
    ensures u !in hub.UserToConnection
  {
    var _ := hub.RegisterPlayer(name, c1, u);
    hub.RestoreSession(u, c2, true);
    hub.OnDisconnected(c1);
  }
}
