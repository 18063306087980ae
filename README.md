# Multiplayer falling-block game: match/relay coordinator and board logic

This project models two parts of a two-player falling-block puzzle game.
It is a Dafny model; nothing in it is compiled or executed.

**The server's match/relay coordinator** (`server.js`). It keeps two tables.
`waitingPlayers` maps socket IDs to display names in insertion order.
`activeGames` maps game IDs to the two players and their sockets, also in insertion order.
Each `socket.on` handler (`join_game`, `game_update`, `lines_cleared`,
`game_over`, `disconnect`) is one synchronous step over these tables, and it
sends messages to one socket or to every client.

- `InsertionMap` models the JavaScript `Map` as a sequence of entries.
  Setting an existing key replaces its value in place; setting a new key
  appends it; deleting a key keeps the order of the rest.
- `Matchmaking` defines the registry, the messages, and one pure step function per handler
  (`OnJoin`, `OnGameUpdate`, `OnLinesCleared`, `OnGameOver`, `OnDisconnect`).
  It also has the dispatch `Handle` and the lemmas about these steps.
- `Server.Coordinator` is a class with the two tables and an outbox.
  Each handler is a method. Each method is proved to perform the step that
  `Matchmaking` defines: the new tables and the newly sent messages match it.
  `Server.AliceWaits`, `Server.Meet` and `Server.TwoPlayerSession` are
  verified clients that walk through two players meeting, relaying, and one
  of them disconnecting.

**The board logic of the client's game object** (`game.js`, class `Tetris`).
- `Board` defines the grid, the seven shapes, and the pure meaning of the grid operations.
  `Collides`, `Fits` and `Merged` cover collision and merging. `Cleared` is the
  stable partition that `clearLines` produces. `PenaltyShifted` is what
  `addPenaltyLines` produces.
- `ClearScan` states how far the bottom-up scan of `clearLines` has got, as a
  relation between the original grid and the rows part-way through. Its lemmas
  are the steps of that scan.
- `Game.Tetris` is a class holding the grid, score, line count, game-over flag,
  current and next piece, and the events sent to the server.
  Its methods use the loops of game.js and are proved against `Board`.

Modelling choices, each taken from the code:
- Sockets, names and game IDs are opaque strings.
- The new game ID, `Date.now().toString()` in the code, is a parameter. It is
  not assumed to be unique: reusing an ID overwrites that game where it stands
  in the table.
- The random piece kind, `Math.floor(Math.random() * 7) + 1` in the code, is a
  parameter in the range 1..7.
- A sender that is not a member of the game is routed to player 1, as the
  code's `player1Socket === socket.id ? player2Socket : player1Socket` does.
- Disconnect ends only the first game, in insertion order, that holds the socket.
- A repeated join is not rejected. A socket that joins twice while waiting is paired with itself.
- Because a join either pairs with the waiting player or enqueues into an empty
  list, the waiting list never holds more than one player. This is proved for every
  reachable registry (`Matchmaking.ReachableInv`).

Two points where the code does less than its client expects:
- The client listens for a `join_error` (game.js:291-295), but the server never
  sends one. A repeated join is not rejected (server.js:21-59): it enqueues again
  or pairs the socket with itself.
- The halving of the penalty happens on the client. The client sends
  `Math.floor(linesCleared / 2)` (game.js:122), and the server forwards
  `data.lineCount` unchanged (server.js:78).

The model follows the code in both cases.

Penalty rows come back as cleared lines. `addPenaltyLines` pushes rows with no
empty cell, so the landing after a penalty of n rows clears at least n rows
(`Board.LandingClearsPenalties`, with `Game.Tetris.Land`). The victim scores 100
for each of them, and for n >= 2 sends a penalty of at least floor(n/2) rows
back to the attacker. This follows from the code as written.

## Model

| member | source | states |
|---|---|---|
| `InsertionMap.Has` | server.js:95 | `map.has(k)` holds iff `k` is among the keys of the entries |
| `InsertionMap.HasAfterUpdates` | server.js:28-36 | after `set(k, v)` the key `k` is present, after `delete(k)` it is absent, and every other key is present exactly as before |
| `InsertionMap.Get` | server.js:63 | the lookup is Some exactly when the key is present, and with distinct keys it is the value stored under that key |
| `InsertionMap.Set` | server.js:28-33 | afterwards the key maps to the new value and every other key maps to what it did before; an existing key keeps its position, a new key is appended; distinct keys stay distinct |
| `InsertionMap.Delete` | server.js:36 | afterwards the key is absent, every other key maps to what it did before, and distinct keys stay distinct |
| `InsertionMap.DeleteAt` | server.js:105 | with distinct keys, deleting the key of entry i removes exactly that entry and keeps the order of the others |
| `InsertionMap.Values` | server.js:51 | the list of names sent in `waiting_players_update` is the waiting names in insertion order |
| `Matchmaking.Opponent` | server.js:65 | the routed socket is always a member; for a member sender it is the other member (the two make up the game's pair); a non-member sender is routed to player 1 |
| `Matchmaking.FirstGameWith` | server.js:101-102 | the index found is a game holding the socket with no earlier such game; None means no game holds it |
| `Matchmaking.OnJoin` | server.js:17-60 | a join sends two messages, or three when someone was waiting; the first and the second-to-last go to single sockets, and the last is one broadcast of the new waiting names |
| `Matchmaking.OnGameUpdate` | server.js:62-72 | a relay never changes either table and sends at most one message, to a single socket |
| `Matchmaking.OnLinesCleared` | server.js:74-80 | a relay never changes either table and sends at most one message, to a single socket |
| `Matchmaking.OnGameOver` | server.js:82-89 | the waiting list is kept, the ID is absent afterwards, the games table does not grow, and at most one message is sent |
| `Matchmaking.OnDisconnect` | server.js:91-109 | the socket is no longer waiting (a socket that was not waiting leaves the list as it was), the games table does not grow, and at most two messages are sent |
| `Matchmaking.Handle` | server.js:14-110 | relays change nothing, `game_over` keeps the waiting list, and only `join_game` can grow the games table |
| `Matchmaking.JoinWhileNobodyWaits` | server.js:52-58 | with nobody waiting, the joiner becomes the only waiting entry, games are unchanged, and exactly a `waiting_for_player` to the joiner and one broadcast of `[name]` are sent |
| `Matchmaking.JoinPairsWithFirstWaiting` | server.js:21-51 | with someone waiting, the first waiting entry is removed; the new ID maps to the game (waiting player as player 1, joiner as player 2) and no other ID changes; both sockets get the same `game_start` payload, followed by a broadcast of the remaining names |
| `Matchmaking.JoinChangesWaitingByOne` | server.js:21-59 | every join changes the waiting count by +1 with games unchanged, or by -1 with a game present under the new ID |
| `Matchmaking.RepeatJoinPairsWithSelf` | server.js:21-36 | a socket that joins twice from an empty registry ends in a game with itself as both players |
| `Matchmaking.GameUpdateRelaysToOpponent` | server.js:62-72 | neither table changes; a known game yields one `opponent_update` with grid, score and lines unchanged, sent to the routed socket, which is never the sender when the game's two sockets differ; an unknown game yields nothing |
| `Matchmaking.LinesClearedForwardsCount` | server.js:74-80 | neither table changes; a known game yields one `add_penalty_lines` whose count is the received `lineCount`, sent to the routed socket, which is never the sender when the game's two sockets differ; an unknown game yields nothing |
| `Matchmaking.GameOverTearsDown` | server.js:82-89 | the waiting list is unchanged; the ID is absent afterwards and every other ID is unchanged; with distinct keys, exactly that entry is removed and the other games keep their order; a known game yields one `opponent_lost` to the routed socket; an unknown ID leaves the registry unchanged and sends nothing |
| `Matchmaking.GameOverTwiceIsNoOp` | server.js:82-89 | a second `game_over` for the same ID, from any socket, changes nothing and sends nothing |
| `Matchmaking.RelayDroppedAfterGameOver` | server.js:62-80 | after a game is over, `game_update` and `lines_cleared` naming it send nothing |
| `Matchmaking.DisconnectCleansUp` | server.js:91-109 | the socket leaves the waiting list, other waiting entries are unchanged, and the list is broadcast iff the socket was waiting; if some game holds the socket, exactly the first such game is removed (the rest keep their order) and its routed socket receives one `opponent_disconnected`; otherwise the games are unchanged |
| `Matchmaking.DisconnectUnknownIsNoOp` | server.js:91-109 | a socket that is neither waiting nor in a game disconnects with no change and no message |
| `Matchmaking.HandlePreservesInv` | server.js:14-110 | every handler keeps both tables free of duplicate keys and at most one player waiting |
| `Matchmaking.ReachableInv` | server.js:10-11 | every registry reached by any sequence of events from a valid one satisfies the invariant |
| `Server.Coordinator.constructor` | server.js:10-11 | both tables and the outbox start empty |
| `Server.Coordinator.EmitTo` | server.js:39-48 | `socket.emit` and `io.to(id).emit` append exactly one message, addressed to that one socket, to the outbox |
| `Server.Coordinator.Broadcast` | server.js:51 | `io.emit` appends exactly one message, addressed to every client, to the outbox |
| `Server.Coordinator.JoinGame` | server.js:17-60 | the tables become those of `OnJoin` and its messages (two `game_start` then a broadcast, or `waiting_for_player` then a broadcast) are appended, in emit order |
| `Server.Coordinator.GameUpdate` | server.js:62-72 | the tables are unchanged and the messages of `OnGameUpdate` are appended |
| `Server.Coordinator.LinesCleared` | server.js:74-80 | the tables are unchanged and the messages of `OnLinesCleared` are appended |
| `Server.Coordinator.GameOver` | server.js:82-89 | the tables become those of `OnGameOver` and its message is appended |
| `Server.Coordinator.Disconnect` | server.js:91-109 | leaving the waiting list and then ending the first game yield the tables and messages of `OnDisconnect` |
| `Server.Coordinator.LeaveWaiting` | server.js:94-97 | a waiting socket is deleted from the list and the remaining names are broadcast; otherwise nothing changes |
| `Server.Coordinator.EndFirstGame` | server.js:100-108 | the scan with `break` removes exactly the first game holding the socket and sends `opponent_disconnected` to its routed socket; with no such game nothing changes |
| `Server.AliceWaits` | server.js:52-58 | in the scenario, a first join on an empty server waits and is told so, and the name list `["Alice"]` is broadcast |
| `Server.Meet` | server.js:21-51 | in the scenario, a second join pairs the two players in game "G" with Alice as player 1, both receive the same `game_start`, and the now empty name list is broadcast |
| `Server.TwoPlayerSession` | server.js:62-109 | in the scenario, after the meeting Alice's `game_update` reaches Bob unchanged, Bob's `lines_cleared` of 2 reaches Alice as a penalty of 2, and Alice's disconnect tells Bob and removes game "G", leaving nobody waiting |
| `Board.EmptyGrid` | game.js:45 | a new grid has ROWS rows of COLS cells, all empty |
| `Board.ShapeOf` | game.js:18-27 | each of the seven shapes has one or two rows of equal width 2 to 4, every row with a filled cell, and cells 0 or 1 |
| `Board.ShapesHaveFourCells` | game.js:18-27 | every shape has four filled cells in all |
| `Board.SpawnPiece` | game.js:55-66 | a spawned piece has the chosen kind and its shape, starts on row 0, lies within the COLS columns and is centred up to one column |
| `Board.Collides` | game.js:76-87 | a piece with a filled cell off the grid collides |
| `Board.Lookup` | game.js:80-81 | a cell lookup is defined exactly for a row and column inside the grid (JavaScript yields `undefined` elsewhere) |
| `Board.SpawnFits` | game.js:55-66 | each of the seven pieces, spawned centred on row 0, lies on any grid of at least two rows of COLS cells |
| `Board.NoCollisionFits` | game.js:76-87 | a piece that does not collide lies entirely on the grid |
| `Board.FitsTaller` | game.js:128-137 | a piece that lies on a grid also lies on any grid as wide with at least as many rows, as penalties leave |
| `Board.MergedCell` | game.js:89-97 | after merging, a cell under a filled shape cell holds that shape value and every other cell keeps its value |
| `Board.Merged` | game.js:89-97 | merging keeps the row count and leaves every row that the shape does not reach unchanged |
| `Board.MergedDims` | game.js:89-97 | merging keeps the number of rows and their width |
| `Board.MergedCollides` | game.js:89-97 | a piece with a filled cell, merged where it fits, collides at that position afterwards |
| `Board.SpliceCount` | game.js:130 | `splice(0, count)` removes at most the whole grid, and exactly `count` rows when 0 <= count <= rows |
| `Board.Blank` | game.js:107 | `fill(0)` keeps the row's width and empties every cell |
| `Board.PartitionSize` | game.js:101-112 | every row is either full or not full, so the two partitions together have as many rows as the grid |
| `Board.Cleared` | game.js:99-112 | clearing keeps the number of rows |
| `Board.PartitionFromGrid` | game.js:101-112 | every row of the full partition is a full row of the grid, every row of the other partition a non-full row of the grid |
| `Board.FullRowsAppend` | game.js:101-112 | the full rows of two stacked grids are the full rows of the top one followed by those of the bottom one |
| `Board.NoFullRowsKept` | game.js:101-112 | a grid without full rows has no full partition and is its own non-full partition |
| `Board.ClearedProperties` | game.js:99-112 | after clearing, the row count and row width are kept; no row is full; the non-full rows follow, in their old order, beneath one empty row per row that was full |
| `Board.ClearedDims` | game.js:99-112 | clearing keeps the row count and the width of each row |
| `Board.ClearedNoFull` | game.js:99-112 | when no row is empty, no row is full after clearing |
| `Board.NoFullRowsFixed` | game.js:99-112 | clearing a grid without full rows finds nothing to clear and leaves it as it is |
| `Board.ClearedIdempotent` | game.js:99-112 | when no row is empty, clearing a cleared grid finds no full row and changes nothing |
| `Board.PenaltyShiftedProperties` | game.js:128-137 | for 0 <= n <= rows: the row count is kept, the last n rows are penalty rows (all cells 8), and old rows n.. stand in order at the top |
| `Board.PenaltyRow` | game.js:134 | a penalty row is COLS cells wide and has no empty cell |
| `Board.PenaltyShifted` | game.js:128-137 | penalties never shrink the grid, keep its row count when count <= rows, and the last `count` rows are penalty rows |
| `Board.PenaltyShiftedDims` | game.js:128-137 | for any count the grid never loses rows, and every row stays COLS wide |
| `Board.PenaltyNegativeIsNoOp` | game.js:128-137 | a count of zero or less leaves the grid unchanged |
| `Board.PenaltyRowsAreCleared` | game.js:128-137 | the full rows of a grid penalised by n are the full rows left of the old grid followed by all n penalty rows |
| `Board.MergedKeepsFull` | game.js:89-97 | merging only writes filled cells, so a full row stays full |
| `Board.FullRowsGrow` | game.js:101-112 | a grid whose rows are full wherever another's are has at least as many full rows |
| `Board.LandingClearsPenalties` | game.js:128-137 | wherever the next piece lands on a grid that received n penalty rows, the clearing after the landing finds at least n full rows |
| `Game.PenaltyScale` | game.js:119-124 | clearing 0 or 1 rows sends nothing; 2 or 3 rows send a penalty of 1; 4 rows send 2 |
| `Game.LinesClearedNotice` | game.js:119-124 | every notice is a `lines_cleared` naming the player's own game |
| `Game.PenaltyNoticeBounds` | game.js:119-124 | a `lines_cleared` notice is sent iff at least two rows were cleared, and its count is at least 1 and at most half the rows cleared |
| `Game.Tetris.constructor` | game.js:30-53 | `reset`: empty ROWS x COLS grid, score and lines 0, not over, current and next piece freshly spawned |
| `Game.Tetris.Collide` | game.js:76-87 | the nested scan with early return yields true iff some filled shape cell is off the grid or on a filled cell |
| `Game.Tetris.Merge` | game.js:89-97 | the cell writes produce exactly the merged grid |
| `Game.Tetris.MergeShapeRow` | game.js:91-95 | the writes for one shape row change only grid row y + pos.y, into that row merged with the shape row |
| `Game.RowIsFull` | game.js:102-106 | the inner scan reports a row full iff it has no empty cell |
| `ClearScan.ScanStart` | game.js:101 | the scan starts at the bottom row with nothing handled |
| `ClearScan.ScanView` | game.js:101-106 | while original rows remain unhandled, the row under the scan is the lowest of them; afterwards it is an emptied row, which is not full |
| `ClearScan.ScanFull` | game.js:107-110 | cutting out a full original row, emptying it and putting it on top, then examining the same index again, hands that row to the emptied rows on top |
| `ClearScan.ScanKeep` | game.js:101-105 | a non-full original row stays where it is and joins the kept rows at the bottom; the scan moves up one row |
| `ClearScan.ScanDone` | game.js:101-111 | when every original row is handled, the rows are the cleared grid and the counter is the number of rows that were full |
| `Game.ScanRows` | game.js:100-111 | the bottom-up scan that re-examines an index after a removal produces the cleared grid and counts the rows that were full |
| `Game.Tetris.ClearLines` | game.js:99-126 | the grid becomes the cleared grid; with k the number of rows that were full, score grows by 100k, lines by k, and the notice of floor(k/2) is sent iff k >= 2 |
| `Game.Tetris.AddPenaltyLines` | game.js:128-137 | the splice and the push loop produce the penalty-shifted grid for any count, and the object invariant is kept |
| `Game.Tetris.Move` | game.js:177-182 | the grid is untouched; the piece is shifted by `dir` if that position does not collide, and otherwise stays where it was |
| `Game.Tetris.Drop` | game.js:184-201 | if one row down does not collide: the piece moves down, nothing else changes, result true; otherwise the piece is merged where it was, rows are cleared and scored, the next piece becomes current, a new next piece is spawned, and the game ends (result false, `game_over` sent) iff the new piece collides |
| `Game.Tetris.Settle` | game.js:186-199 | the blocked case of `drop`: merge and clear as in `Land`, then promote as in `Promote`; the object invariant is kept |
| `Game.Tetris.Land` | game.js:187-189 | the piece is merged where it lies and rows are cleared and scored; the grid keeps its row count and width |
| `Game.Tetris.Promote` | game.js:190-199 | the next piece becomes current and a new next piece is spawned; the game ends (result false, `game_over` sent) iff the new piece collides; the object invariant holds afterwards |

## Left out

- HTTP and static-file setup, `http.listen` and logging (server.js:1-7, 15, 18, 92, 112-116): this is I/O plumbing.
- The Socket.IO transport. Each emit is one outbox record: one recipient, or every client for `io.emit`. The lookup `io.sockets.sockets.get` of the waiting socket is taken to succeed, because a disconnecting socket leaves the waiting list first.
- `Date.now()` and `Math.random()` (server.js:27, game.js:56): clocks and randomness. Both become parameters.
- Payloads are typed (a grid as rows of ints, counts and scores as ints). Malformed or non-integer JSON payloads are not modelled. Scores are unbounded integers, so JavaScript numbers beyond 2^53 are not modelled.
- Drawing, the DOM, canvases, keyboard input and the client's `socket.on` handlers (game.js:139-175, 230-389): UI code.
- `update(deltaTime)`, `dropCounter`, `dropInterval` and the animation loop (game.js:51-52, 220-227, 326-345): these depend on frame timing.
- Both `rotate` methods (game.js:68-74, 203-218). The later argument-less `rotate` shadows the matrix rotation, so its call at game.js:206 re-enters itself. The matrix version also drops the columns of non-square shapes. Neither has a behaviour to state.
- The piece objects are values. A piece's `shape` is the shared `SHAPES` entry itself, but no modelled code writes into a shape. Each `pos` is a fresh object made by `randomPiece` (game.js:60), and `drop` and `move` change only the current piece's own `pos`. So modelling pieces as values loses nothing.
- Game.Tetris.Merge: requires the piece to lie on the grid. Off the grid, the code behaves differently at each edge. A missing row throws. A column past the right edge grows the row array. A column below 0 adds a property named after the negative index, and the row's length stays the same. The object invariant keeps the current piece on the grid.
- Game.Tetris.ClearLines: requires every row to have at least one cell, because the code's loop never ends on an empty row. So do `Game.ScanRows` and `Board.ClearedIdempotent`. The scan (`Game.ScanRows`) runs on a copy of the rows, which is stored back in `grid` when the scan ends. Nothing observes the grid in between.
- Game.Tetris: `gameId` is a constant field of the object. In game.js it is the page-global `let gameId` (game.js:242), set on every `game_start` (game.js:304). Nothing observable is lost, because each `game_start` also builds a new `Tetris` (game.js:316).
- Duplicate-join rejection and `join_error`: the code has neither, so the model does not add them.
