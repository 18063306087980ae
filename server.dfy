/**
 The coordinator object of the server: the two module-level tables,
 `waitingPlayers` and `activeGames`, and the messages sent so far. Each
 `socket.on` handler is a method that updates the tables in place and
 appends what it emits to the outbox; each is proved to perform the step
 that `Matchmaking` defines for its event.
 */
module Server {
  import opened Wrappers
  import opened InsertionMap
  import opened Matchmaking

  class Coordinator {
    var waitingPlayers: seq<(SocketId, Name)>
    var activeGames: seq<(GameId, GameEntry)>
    var outbox: seq<Message>

    function Tables(): Registry
      reads this
    {
      Registry(waitingPlayers, activeGames)
    }

    ghost predicate Valid()
      reads this
    {
      Inv(Tables())
    }

    constructor ()
      ensures Valid()
      ensures Tables() == Empty && outbox == []
    {
      waitingPlayers, activeGames, outbox := [], [], [];
    }

    /** Sends `e` to one socket (`socket.emit`, `io.to(id).emit`). */
    method EmitTo(id: SocketId, e: Event)
      modifies this`outbox
      ensures outbox == old(outbox) + [Message(Socket(id), e)]
    {
      outbox := outbox + [Message(Socket(id), e)];
    }

    /** Sends `e` to every client (`io.emit`). */
    method Broadcast(e: Event)
      modifies this`outbox
      ensures outbox == old(outbox) + [Message(Everyone, e)]
    {
      outbox := outbox + [Message(Everyone, e)];
    }

    /** `join_game` from `sender`; `newGameId` stands for `Date.now().toString()`. */
    method JoinGame(sender: SocketId, playerName: Name, newGameId: GameId)
      requires Valid()
      modifies this
      ensures Valid()
      ensures Tables() == OnJoin(old(Tables()), sender, playerName, newGameId).after
      ensures outbox == old(outbox) + OnJoin(old(Tables()), sender, playerName, newGameId).sent
    {
      ghost var before := Tables();
      HandlePreservesInv(before, sender, Inbound.JoinGame(playerName, newGameId));
      if |waitingPlayers| > 0 {
        var waitingSocketId, waitingPlayerName := waitingPlayers[0].0, waitingPlayers[0].1;
        activeGames := Set(activeGames, newGameId, GameEntry(waitingPlayerName, playerName, waitingSocketId, sender));
        waitingPlayers := Delete(waitingPlayers, waitingSocketId);
        EmitTo(waitingSocketId, GameStart(newGameId, waitingPlayerName, playerName));
        EmitTo(sender, GameStart(newGameId, waitingPlayerName, playerName));
        Broadcast(WaitingPlayersUpdate(Values(waitingPlayers)));
      } else {
        waitingPlayers := Set(waitingPlayers, sender, playerName);
        EmitTo(sender, WaitingForPlayer);
        Broadcast(WaitingPlayersUpdate(Values(waitingPlayers)));
      }
    }

    /** `game_update` from `sender`. */
    method GameUpdate(sender: SocketId, gameId: GameId, grid: seq<seq<int>>, score: int, lines: int)
      requires Valid()
      modifies this`outbox
      ensures Valid()
      ensures Tables() == old(Tables())
      ensures outbox == old(outbox) + OnGameUpdate(old(Tables()), sender, gameId, grid, score, lines).sent
    {
      var game := Get(activeGames, gameId);
      if game.Some? {
        var g := game.value;
        var opponentSocket := if g.player1Socket == sender then g.player2Socket else g.player1Socket;
        EmitTo(opponentSocket, OpponentUpdate(grid, score, lines));
      }
    }

    /** `lines_cleared` from `sender`. */
    method LinesCleared(sender: SocketId, gameId: GameId, lineCount: int)
      requires Valid()
      modifies this`outbox
      ensures Valid()
      ensures Tables() == old(Tables())
      ensures outbox == old(outbox) + OnLinesCleared(old(Tables()), sender, gameId, lineCount).sent
    {
      var game := Get(activeGames, gameId);
      if game.Some? {
        var g := game.value;
        var opponentSocket := if g.player1Socket == sender then g.player2Socket else g.player1Socket;
        EmitTo(opponentSocket, AddPenaltyLines(lineCount));
      }
    }

    /** `game_over` from `sender`. */
    method GameOver(sender: SocketId, gameId: GameId)
      requires Valid()
      modifies this
      ensures Valid()
      ensures Tables() == OnGameOver(old(Tables()), sender, gameId).after
      ensures outbox == old(outbox) + OnGameOver(old(Tables()), sender, gameId).sent
    {
      var game := Get(activeGames, gameId);
      if game.Some? {
        var g := game.value;
        var opponentSocket := if g.player1Socket == sender then g.player2Socket else g.player1Socket;
        EmitTo(opponentSocket, OpponentLost);
        activeGames := Delete(activeGames, gameId);
      }
    }

    /** `disconnect` of `sender`: leave the waiting list, then end the first game holding the socket. */
    method Disconnect(sender: SocketId)
      requires Valid()
      modifies this
      ensures Valid()
      ensures Tables() == OnDisconnect(old(Tables()), sender).after
      ensures outbox == old(outbox) + OnDisconnect(old(Tables()), sender).sent
    {
      HandlePreservesInv(Tables(), sender, Inbound.Disconnect);
      LeaveWaiting(sender);
      EndFirstGame(sender);
    }

    /** The first half of `disconnect`: a waiting socket leaves the list, which is broadcast again. */
    method LeaveWaiting(sender: SocketId)
      modifies this`waitingPlayers, this`outbox
      ensures var wasWaiting := Has(old(waitingPlayers), sender);
        && waitingPlayers == (if wasWaiting then Delete(old(waitingPlayers), sender) else old(waitingPlayers))
        && outbox == old(outbox) + (if wasWaiting then [Message(Everyone, WaitingPlayersUpdate(Values(waitingPlayers)))] else [])
    {
      if Has(waitingPlayers, sender) {
        waitingPlayers := Delete(waitingPlayers, sender);
        Broadcast(WaitingPlayersUpdate(Values(waitingPlayers)));
      }
    }

    /** The second half of `disconnect`: the scan over `activeGames` stops at the first game holding the socket. */
    method EndFirstGame(sender: SocketId)
      modifies this`activeGames, this`outbox
      ensures FirstGameWith(old(activeGames), sender).None? ==>
        activeGames == old(activeGames) && outbox == old(outbox)
      ensures FirstGameWith(old(activeGames), sender).Some? ==>
        var i := FirstGameWith(old(activeGames), sender).value;
        && activeGames == Delete(old(activeGames), old(activeGames)[i].0)
        && outbox == old(outbox) + [Message(Socket(Opponent(old(activeGames)[i].1, sender)), OpponentDisconnected)]
    {
      ghost var games := activeGames;
      var i := 0;
      while i < |activeGames|
        invariant 0 <= i <= |activeGames|
        invariant activeGames == games && outbox == old(outbox)
        invariant forall j :: 0 <= j < i ==> !IsMember(activeGames[j].1, sender)
      {
        var gameId, game := activeGames[i].0, activeGames[i].1;
        if game.player1Socket == sender || game.player2Socket == sender {
          assert FirstGameWith(games, sender) == Some(i);
          var opponentSocket := if game.player1Socket == sender then game.player2Socket else game.player1Socket;
          EmitTo(opponentSocket, OpponentDisconnected);
          activeGames := Delete(activeGames, gameId);
          return;
        }
        i := i + 1;
      }
    }
  }

  /** The scenario opens: Alice joins an empty server and waits. */
  method AliceWaits() returns (server: Coordinator)
    ensures fresh(server) && server.Valid()
    ensures server.waitingPlayers == [("alice-socket", "Alice")] && server.activeGames == []
    ensures server.outbox == [Message(Socket("alice-socket"), WaitingForPlayer),
                              Message(Everyone, WaitingPlayersUpdate(["Alice"]))]
  {
    server := new Coordinator();
    server.JoinGame("alice-socket", "Alice", "G");
    JoinWhileNobodyWaits(Empty, "alice-socket", "Alice", "G");
  }

  /** Bob joins while Alice waits, and the two are paired in game "G". */
  method Meet() returns (server: Coordinator)
    ensures fresh(server) && server.Valid()
    ensures server.waitingPlayers == []
    ensures server.activeGames == [("G", GameEntry("Alice", "Bob", "alice-socket", "bob-socket"))]
    ensures |server.outbox| == 5
    ensures server.outbox[2..] == [Message(Socket("alice-socket"), GameStart("G", "Alice", "Bob")),
                                   Message(Socket("bob-socket"), GameStart("G", "Alice", "Bob")),
                                   Message(Everyone, WaitingPlayersUpdate([]))]
  {
    server := AliceWaits();
    server.JoinGame("bob-socket", "Bob", "G");
    DeleteAt([("alice-socket", "Alice")], 0);
  }

  /** The scenario of two players meeting, relaying, and one of them leaving. */
  method TwoPlayerSession(grid: seq<seq<int>>) returns (server: Coordinator)
    ensures fresh(server) && server.Valid()
    ensures server.waitingPlayers == [] && !Has(server.activeGames, "G")
    ensures |server.outbox| == 8
    ensures server.outbox[5..] == [Message(Socket("bob-socket"), OpponentUpdate(grid, 30, 2)),
                                  Message(Socket("alice-socket"), AddPenaltyLines(2)),
                                  Message(Socket("bob-socket"), OpponentDisconnected)]
  {
    server := Meet();
    server.GameUpdate("alice-socket", "G", grid, 30, 2);
    assert server.outbox[5..] == [Message(Socket("bob-socket"), OpponentUpdate(grid, 30, 2))];
    server.LinesCleared("bob-socket", "G", 2);
    assert server.outbox[6..] == [Message(Socket("alice-socket"), AddPenaltyLines(2))];
    server.Disconnect("alice-socket");
    assert server.outbox[7..] == [Message(Socket("bob-socket"), OpponentDisconnected)];
  }
}
