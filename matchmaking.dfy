/**
 The match/relay coordinator of the server as pure state transitions.
 The registry holds the two tables of the server: the waiting players
 (socket ID to display name, in insertion order) and the active games
 (game ID to the two players and their sockets, in insertion order).
 Each inbound socket event is a step that yields the new registry and
 the messages the server sends, in the order it sends them.
 */
module Matchmaking {
  import opened Wrappers
  import opened InsertionMap

  type SocketId = string
  type GameId = string
  type Name = string

  /** An entry of `activeGames`. */
  datatype GameEntry = GameEntry(player1: Name, player2: Name, player1Socket: SocketId, player2Socket: SocketId)

  /** Outbound events with their payloads. */
  datatype Event =
    | WaitingForPlayer
    | WaitingPlayersUpdate(names: seq<Name>)
    | GameStart(gameId: GameId, player1: Name, player2: Name)
    | OpponentUpdate(grid: seq<seq<int>>, score: int, lines: int)
    | AddPenaltyLines(lineCount: int)
    | OpponentLost
    | OpponentDisconnected

  /** `socket.emit` / `io.to(id).emit` reach one socket; `io.emit` reaches every client. */
  datatype Recipient = Socket(id: SocketId) | Everyone

  datatype Message = Message(to: Recipient, event: Event)

  datatype Registry = Registry(waiting: seq<(SocketId, Name)>, games: seq<(GameId, GameEntry)>)

  /** The registry after a handler and the messages it sent. */
  datatype Step = Step(after: Registry, sent: seq<Message>)

  /** Inbound events, each arriving on the socket of its sender. */
  datatype Inbound =
    | JoinGame(playerName: Name, newGameId: GameId)
    | GameUpdate(gameId: GameId, grid: seq<seq<int>>, score: int, lines: int)
    | LinesCleared(gameId: GameId, lineCount: int)
    | GameOver(gameId: GameId)
    | Disconnect

  const Empty := Registry([], [])

  /**
   What holds of every registry the server can reach: both tables are
   maps, and at most one player waits (a join either pairs with the
   waiting player or enqueues into an empty list).
   */
  predicate Inv(r: Registry)
  {
    DistinctKeys(r.waiting) && DistinctKeys(r.games) && |r.waiting| <= 1
  }

  predicate IsMember(g: GameEntry, sock: SocketId)
  {
    g.player1Socket == sock || g.player2Socket == sock
  }

  /**
   The socket an event from `sender` is routed to. A member reaches the other
   member; a sender that is not a member of the game reaches player 1.
   */
  function Opponent(g: GameEntry, sender: SocketId): (o: SocketId)
    ensures IsMember(g, o)
    ensures IsMember(g, sender) ==> {sender, o} == {g.player1Socket, g.player2Socket}
    ensures !IsMember(g, sender) ==> o == g.player1Socket
  {
    if g.player1Socket == sender then g.player2Socket else g.player1Socket
  }

  /** Position of the first game, in insertion order, that has `sock` as a member. */
  function FirstGameWith(games: seq<(GameId, GameEntry)>, sock: SocketId): (r: Option<nat>)
    ensures r.Some? ==> r.value < |games| && IsMember(games[r.value].1, sock)
    ensures r.Some? ==> forall j :: 0 <= j < r.value ==> !IsMember(games[j].1, sock)
    ensures r.None? ==> forall j :: 0 <= j < |games| ==> !IsMember(games[j].1, sock)
  {
    if |games| == 0 then None
    else if IsMember(games[0].1, sock) then Some(0)
    else match FirstGameWith(games[1..], sock)
      case None =>
        assert forall j :: 1 <= j < |games| ==> games[j] == games[1..][j - 1];
        None
      case Some(i) => Some(i + 1)
  }

  /** `join_game`: pair with the first waiting player, or wait. */
  function OnJoin(r: Registry, sender: SocketId, playerName: Name, newGameId: GameId): (s: Step)
    ensures |s.sent| == if r.waiting == [] then 2 else 3
    ensures s.sent[0].to.Socket? && s.sent[|s.sent| - 2].to.Socket?
    ensures s.sent[|s.sent| - 1] == Message(Everyone, WaitingPlayersUpdate(Values(s.after.waiting)))
  {
    if |r.waiting| > 0 then
      var waitingSocketId := r.waiting[0].0;
      var waitingPlayerName := r.waiting[0].1;
      var games := Set(r.games, newGameId, GameEntry(waitingPlayerName, playerName, waitingSocketId, sender));
      var waiting := Delete(r.waiting, waitingSocketId);
      var start := GameStart(newGameId, waitingPlayerName, playerName);
      Step(Registry(waiting, games),
           [Message(Socket(waitingSocketId), start),
            Message(Socket(sender), start),
            Message(Everyone, WaitingPlayersUpdate(Values(waiting)))])
    else
      var waiting := Set(r.waiting, sender, playerName);
      Step(Registry(waiting, r.games),
           [Message(Socket(sender), WaitingForPlayer),
            Message(Everyone, WaitingPlayersUpdate(Values(waiting)))])
  }

  /** `game_update`: forward the snapshot to the opponent of the sender. */
  function OnGameUpdate(r: Registry, sender: SocketId, gameId: GameId, grid: seq<seq<int>>, score: int, lines: int): (s: Step)
    ensures s.after == r && |s.sent| <= 1
    ensures s.sent != [] ==> s.sent[0].to.Socket?
  {
    match Get(r.games, gameId)
    case None => Step(r, [])
    case Some(g) => Step(r, [Message(Socket(Opponent(g, sender)), OpponentUpdate(grid, score, lines))])
  }

  /** `lines_cleared`: forward the penalty count to the opponent of the sender. */
  function OnLinesCleared(r: Registry, sender: SocketId, gameId: GameId, lineCount: int): (s: Step)
    ensures s.after == r && |s.sent| <= 1
    ensures s.sent != [] ==> s.sent[0].to.Socket?
  {
    match Get(r.games, gameId)
    case None => Step(r, [])
    case Some(g) => Step(r, [Message(Socket(Opponent(g, sender)), AddPenaltyLines(lineCount))])
  }

  /** `game_over`: tell the opponent it won and drop the game. */
  function OnGameOver(r: Registry, sender: SocketId, gameId: GameId): (s: Step)
    ensures s.after.waiting == r.waiting && !Has(s.after.games, gameId)
    ensures |s.sent| <= 1 && |s.after.games| <= |r.games|
  {
    match Get(r.games, gameId)
    case None => Step(r, [])
    case Some(g) =>
      Step(Registry(r.waiting, Delete(r.games, gameId)), [Message(Socket(Opponent(g, sender)), OpponentLost)])
  }

  /** `disconnect`: leave the waiting list, then end the first game the socket is in. */
  function OnDisconnect(r: Registry, sender: SocketId): (s: Step)
    ensures !Has(s.after.waiting, sender)
    ensures !Has(r.waiting, sender) ==> s.after.waiting == r.waiting
    ensures |s.sent| <= 2 && |s.after.games| <= |r.games|
  {
    var wasWaiting := Has(r.waiting, sender);
    var waiting := if wasWaiting then Delete(r.waiting, sender) else r.waiting;
    var update := if wasWaiting then [Message(Everyone, WaitingPlayersUpdate(Values(waiting)))] else [];
    match FirstGameWith(r.games, sender)
    case None => Step(Registry(waiting, r.games), update)
    case Some(i) =>
      Step(Registry(waiting, Delete(r.games, r.games[i].0)),
           update + [Message(Socket(Opponent(r.games[i].1, sender)), OpponentDisconnected)])
  }

  /** The `socket.on` dispatch of one connection. */
  function Handle(r: Registry, sender: SocketId, e: Inbound): (s: Step)
    ensures (e.GameUpdate? || e.LinesCleared?) ==> s.after == r
    ensures e.GameOver? ==> s.after.waiting == r.waiting
    ensures !e.JoinGame? ==> |s.after.games| <= |r.games|
  {
    match e
    case JoinGame(name, id) => OnJoin(r, sender, name, id)
    case GameUpdate(id, grid, score, lines) => OnGameUpdate(r, sender, id, grid, score, lines)
    case LinesCleared(id, count) => OnLinesCleared(r, sender, id, count)
    case GameOver(id) => OnGameOver(r, sender, id)
    case Disconnect => OnDisconnect(r, sender)
  }

  /** The registry after a sequence of (sender, event) pairs. */
  function Run(r: Registry, events: seq<(SocketId, Inbound)>): Registry
    decreases |events|
  {
    if |events| == 0 then r else Run(Handle(r, events[0].0, events[0].1).after, events[1..])
  }

  // ---------------------------------------------------------------- join_game

  /** Nobody waiting: the joiner is enqueued, told to wait, and the list is broadcast. */
  lemma JoinWhileNobodyWaits(r: Registry, sender: SocketId, playerName: Name, newGameId: GameId)
    requires r.waiting == []
    ensures OnJoin(r, sender, playerName, newGameId).after == Registry([(sender, playerName)], r.games)
    ensures OnJoin(r, sender, playerName, newGameId).sent
         == [Message(Socket(sender), WaitingForPlayer), Message(Everyone, WaitingPlayersUpdate([playerName]))]
  {
    var waiting := Set(r.waiting, sender, playerName);
    assert waiting == [(sender, playerName)];
    assert Values(waiting) == [playerName];
  }

  /**
   Someone waiting: the first waiting entry leaves the list, a game with the
   waiting player first is stored under the new ID (other IDs untouched), and
   both sockets receive the same `game_start` payload.
   */
  lemma JoinPairsWithFirstWaiting(r: Registry, sender: SocketId, playerName: Name, newGameId: GameId)
    requires DistinctKeys(r.waiting)
    requires r.waiting != []
    ensures var s := OnJoin(r, sender, playerName, newGameId);
      && s.after.waiting == r.waiting[1..]
      && Get(s.after.games, newGameId) == Some(GameEntry(r.waiting[0].1, playerName, r.waiting[0].0, sender))
      && (forall id :: id != newGameId ==> Get(s.after.games, id) == Get(r.games, id))
      && |s.sent| == 3
      && s.sent[0] == Message(Socket(r.waiting[0].0), GameStart(newGameId, r.waiting[0].1, playerName))
      && s.sent[1] == Message(Socket(sender), s.sent[0].event)
      && s.sent[2] == Message(Everyone, WaitingPlayersUpdate(Values(r.waiting[1..])))
  {
    DeleteAt(r.waiting, 0);
  }

  /** Every join moves the waiting count by one; only a pairing join adds a game. */
  lemma JoinChangesWaitingByOne(r: Registry, sender: SocketId, playerName: Name, newGameId: GameId)
    requires DistinctKeys(r.waiting)
    ensures var s := OnJoin(r, sender, playerName, newGameId);
      || (|s.after.waiting| == |r.waiting| + 1 && s.after.games == r.games)
      || (|s.after.waiting| == |r.waiting| - 1 && Has(s.after.games, newGameId))
  {
    if r.waiting != [] {
      JoinPairsWithFirstWaiting(r, sender, playerName, newGameId);
    }
  }

  /** A second join from a socket that is still waiting pairs it with itself. */
  lemma RepeatJoinPairsWithSelf(sender: SocketId, name1: Name, name2: Name, id: GameId)
    ensures var first := OnJoin(Empty, sender, name1, id).after;
      OnJoin(first, sender, name2, id).after == Registry([], [(id, GameEntry(name1, name2, sender, sender))])
  {
  }

  // ---------------------------------------------------------------- relays

  /**
   `game_update` leaves both tables as they were; for a known game it sends one
   `opponent_update` with the snapshot unchanged to the routed socket, never back
   to the sender when the game's two sockets differ; for an unknown game it sends nothing.
   */
  lemma GameUpdateRelaysToOpponent(r: Registry, sender: SocketId, gameId: GameId, grid: seq<seq<int>>, score: int, lines: int)
    ensures var s := OnGameUpdate(r, sender, gameId, grid, score, lines);
      && s.after == r
      && (!Has(r.games, gameId) ==> s.sent == [])
      && (Has(r.games, gameId) ==>
            var g := Get(r.games, gameId).value;
            && |s.sent| == 1
            && s.sent[0].to == Socket(Opponent(g, sender))
            && s.sent[0].event == OpponentUpdate(grid, score, lines)
            && (g.player1Socket != g.player2Socket ==> s.sent[0].to != Socket(sender)))
  {
  }

  /** `lines_cleared` forwards the count unchanged to the routed socket of a known game and is otherwise dropped. */
  lemma LinesClearedForwardsCount(r: Registry, sender: SocketId, gameId: GameId, lineCount: int)
    ensures var s := OnLinesCleared(r, sender, gameId, lineCount);
      && s.after == r
      && (!Has(r.games, gameId) ==> s.sent == [])
      && (Has(r.games, gameId) ==>
            var g := Get(r.games, gameId).value;
            && |s.sent| == 1
            && s.sent[0].to == Socket(Opponent(g, sender))
            && s.sent[0].event == AddPenaltyLines(lineCount)
            && (g.player1Socket != g.player2Socket ==> s.sent[0].to != Socket(sender)))
  {
  }

  // ---------------------------------------------------------------- teardown

  /**
   `game_over` for a known game sends `opponent_lost` to the routed socket and
   removes that game only; the waiting list is untouched. Unknown IDs change nothing.
   */
  lemma GameOverTearsDown(r: Registry, sender: SocketId, gameId: GameId)
    ensures var s := OnGameOver(r, sender, gameId);
      && s.after.waiting == r.waiting
      && !Has(s.after.games, gameId)
      && (forall id :: id != gameId ==> Get(s.after.games, id) == Get(r.games, id))
      && (!Has(r.games, gameId) ==> s == Step(r, []))
      && (Has(r.games, gameId) ==>
            s.sent == [Message(Socket(Opponent(Get(r.games, gameId).value, sender)), OpponentLost)])
      && (DistinctKeys(r.games) && Has(r.games, gameId) ==>
            var i := IndexOf(r.games, gameId).value;
            s.after.games == r.games[..i] + r.games[i + 1..])
  {
    if !Has(r.games, gameId) {
      assert Get(r.games, gameId) == None;
    } else if DistinctKeys(r.games) {
      DeleteAt(r.games, IndexOf(r.games, gameId).value);
    }
  }

  /** A second `game_over` for the same ID, from anyone, is a no-op. */
  lemma GameOverTwiceIsNoOp(r: Registry, sender: SocketId, other: SocketId, gameId: GameId)
    ensures var first := OnGameOver(r, sender, gameId).after;
      OnGameOver(first, other, gameId) == Step(first, [])
  {
    GameOverTearsDown(r, sender, gameId);
  }

  /** After a game is torn down, relays that name it are dropped. */
  lemma RelayDroppedAfterGameOver(r: Registry, sender: SocketId, other: SocketId, gameId: GameId,
                                  grid: seq<seq<int>>, score: int, lines: int, lineCount: int)
    ensures var after := OnGameOver(r, sender, gameId).after;
      && OnGameUpdate(after, other, gameId, grid, score, lines).sent == []
      && OnLinesCleared(after, other, gameId, lineCount).sent == []
  {
    GameOverTearsDown(r, sender, gameId);
  }

  /**
   `disconnect` removes the socket from the waiting list and broadcasts the
   list exactly when it was waiting; then, if some game holds the socket, the
   first such game in insertion order is removed (the others stay, in order)
   and its routed socket receives `opponent_disconnected`.
   */
  lemma DisconnectCleansUp(r: Registry, sock: SocketId)
    requires Inv(r)
    ensures var s := OnDisconnect(r, sock);
      && !Has(s.after.waiting, sock)
      && (forall id :: id != sock ==> Get(s.after.waiting, id) == Get(r.waiting, id))
      && (Has(r.waiting, sock) ==> |s.sent| >= 1 && s.sent[0] == Message(Everyone, WaitingPlayersUpdate(Values(s.after.waiting))))
      && (!Has(r.waiting, sock) ==> s.after.waiting == r.waiting)
      && (FirstGameWith(r.games, sock).None? ==>
            s.after.games == r.games && |s.sent| == (if Has(r.waiting, sock) then 1 else 0))
      && (FirstGameWith(r.games, sock).Some? ==>
            var i := FirstGameWith(r.games, sock).value;
            && s.after.games == r.games[..i] + r.games[i + 1..]
            && |s.sent| == (if Has(r.waiting, sock) then 2 else 1)
            && s.sent[|s.sent| - 1] == Message(Socket(Opponent(r.games[i].1, sock)), OpponentDisconnected))
  {
    if Has(r.waiting, sock) {
      assert Get(Delete(r.waiting, sock), sock) == None;
    }
    match FirstGameWith(r.games, sock)
    case None =>
    case Some(i) => DeleteAt(r.games, i);
  }

  /** A socket that is not waiting and in no game disconnects silently. */
  lemma DisconnectUnknownIsNoOp(r: Registry, sock: SocketId)
    requires !Has(r.waiting, sock)
    requires forall j :: 0 <= j < |r.games| ==> !IsMember(r.games[j].1, sock)
    ensures OnDisconnect(r, sock) == Step(r, [])
  {
    assert FirstGameWith(r.games, sock).None?;
  }

  // ---------------------------------------------------------------- invariants

  /** Every handler keeps both tables maps and at most one player waiting. */
  lemma HandlePreservesInv(r: Registry, sender: SocketId, e: Inbound)
    requires Inv(r)
    ensures Inv(Handle(r, sender, e).after)
  {
    match e
    case JoinGame(name, id) =>
      if r.waiting != [] {
        JoinPairsWithFirstWaiting(r, sender, name, id);
      }
    case GameUpdate(_, _, _, _) =>
    case LinesCleared(_, _) =>
    case GameOver(_) =>
    case Disconnect =>
  }

  /** Every registry reachable from the empty one satisfies the invariant. */
  lemma {:induction false} ReachableInv(r: Registry, events: seq<(SocketId, Inbound)>)
    requires Inv(r)
    ensures Inv(Run(r, events))
    decreases |events|
  {
    if |events| > 0 {
      HandlePreservesInv(r, events[0].0, events[0].1);
      ReachableInv(Handle(r, events[0].0, events[0].1).after, events[1..]);
    }
  }
}
