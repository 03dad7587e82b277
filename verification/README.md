# Lobby session protocol — a Dafny model

This project models the lobby session handler `GameModeLobby` of the
rubbleworld multiplayer prototype and proves properties of it. It covers
the whole handler except the constructor's wiring:

- **`onAction`**, the local reducer. Clients run it on every message from the
  server, and the server runs it on itself. It keeps a registry (a
  JavaScript `Map` from player id to `LobbyPlayer`) and a `clientPlayerId`.
  It applies the tagged messages `STATE`, `JOIN`, `LEFT` and `MSG` to them.
- **`onServerAction`**, the server reducer. It turns `CONNECTED`,
  `DISCONNECTED` and client messages into effects:
  - it allocates ids from the `nextPlayerId` counter;
  - it attaches a record to the connection;
  - it updates its own registry through `onAction`;
  - it emits addressed messages: broadcast-except, broadcast-all, or unicast.
- **`getState`**, the snapshot that `STATE` carries.

Layout:

- `protocol.dfy` (`Protocol`): the value types.
  - `LobbyPlayer`.
  - `Message`, with one variant per discriminant, plus `Other` for any
    discriminant the lobby does not recognise.
  - `Recipient`, `Envelope`, and `Deliver`. `Deliver` is what a recipient
    means for a given set of live connections.
- `insertion_map.dfy` (`InsertionMap`): a JavaScript `Map` as a sequence of
  entries in insertion order.
  - `Put` is `set`: it replaces a present key in place and appends a new one.
  - `Remove` is `delete`.
  - `Values` is `Array.from(values())`.
  - `PutAll` is a `forEach` of `set`.
  - `ToMap` forgets the order.
- `decimal.dfy` (`Decimal`): `Number.prototype.toString` on the counter,
  together with a parser that inverts it.
- `game_mode_lobby.dfy` (`GameModeLobby`): `onAction`, `getState`, and their
  lemmas.
- `lobby_server.dfy` (`LobbyServer`):
  - `onServerAction`;
  - the server invariant `Valid`;
  - runs over event sequences;
  - id allocation across successive connects.
- `lobby_scenarios.dfy` (`LobbyScenarios`): concrete runs in which two peers
  connect, one chats and one leaves. Each run states the exact messages sent.

Modelling choices:

- The registry is ordered like a JavaScript `Map`. This makes `getState`
  deterministic, so the `STATE` round trip is stated as exact equality,
  order included.
- `Date.now()` becomes a parameter `now`. A message's `ts` is an
  `Option<int>`, and `None` means the sender set no `ts`.
- `from!.player.id` throws when there is no connection, or when the
  connection was never admitted. `onServerAction` then yields
  `Crash(NoConnection)` or `Crash(NotAdmitted)`. Nothing is changed or sent
  before the throw in either branch. `Run` carries on from the unchanged
  state.
- Any discriminant other than the six the lobby recognises is `Other`. Its
  `kind` is taken to be none of those six.
- Each connection's `player` slot is the map `attached`. The code never
  clears the slot, so the map is never cleared either. A `Conn` names one
  connection object and is never handed out again. A reused `Conn` would look
  admitted before its `CONNECTED`. The source's fresh connection object would
  have no `player`, and `from!.player.id` would throw at line 60 or 65.
- `Deliver` gives the meaning of the adapter's three sending calls for a set
  of live connections:
  - `broadcastExceptPayload` reaches every live connection not excluded;
  - `broadcastAllPayload` reaches every live connection;
  - a connection's own `sendPayload` reaches that connection.

The code as written does several things that a looser reading of the
protocol would not expect. The model follows the code:

- The `STATE` unicast to a new connection is built after the local `JOIN`.
  It therefore already lists the new player (`ConnectedOutputs`,
  `FirstConnect`).
- The server sets no `ts` on the `JOIN`, `LEFT`, `MSG` and `STATE` messages
  it sends. Only the `JOIN`/`LEFT` it applies to itself carry `Date.now()`.
- `onMessage` passes client messages to `onServerAction` without filtering
  them. A client that sends `CONNECTED` is therefore admitted again under a
  new id, and its old record is orphaned in the registry. A client that sends
  `DISCONNECTED` is removed while still connected
  (`DisconnectMessageEvictsSender`).

## Model

| member | source | states |
|---|---|---|
| `GameModeLobby.OnAction` | src/lib/GameModeLobby.ts:69-88 | `STATE` sets the client id and makes the registry keys exactly the ids in the list. The denoted map is the list's records set one after another, so a repeated id keeps its last record. `JOIN` maps the player's id to the player and leaves every other id as it was. `LEFT` removes exactly its id. `MSG` and any other discriminant return the lobby unchanged. Every kind keeps the invariant "one entry per id, each record stored under its own id". |
| `GameModeLobby.JoinIsIdempotentUpsert` | src/lib/GameModeLobby.ts:77-78 | After `JOIN` the record is stored under its id and every other id keeps its record. A second identical `JOIN`, whatever its timestamp, leaves the lobby exactly as the first left it. |
| `GameModeLobby.LeftRemovesExactly` | src/lib/GameModeLobby.ts:81-82 | After `LEFT` the id is absent and every other id keeps its record. For an id that is not present, `LEFT` returns the lobby unchanged. A second `LEFT` is a no-op. |
| `GameModeLobby.StateFullyReplaces` | src/lib/GameModeLobby.ts:71-75 | The registry that `STATE` builds does not depend on the prior registry. For a list without repeated ids, `getState` afterwards returns exactly that list in that order, together with the payload's client id. |
| `GameModeLobby.StateKeepsLastRecordPerId` | src/lib/GameModeLobby.ts:73-74 | After `STATE`, an id that the list repeats holds the record of its last occurrence, whatever the lobby held before. |
| `GameModeLobby.StateWithRepeatedIdKeepsLast` | src/lib/GameModeLobby.ts:73-74 | For the list `[p, o, q]` where `q` repeats `p`'s id, the registry is `[(p.id, q), (o.id, o)]`. The later record sits at the position where its id was first set. |
| `GameModeLobby.GetStateDenotesRegistry` | src/lib/GameModeLobby.ts:32-37 | For a well-formed lobby, `getState` lists one record per registry entry. The ids listed are exactly the registered ids. Each record listed is the one its id maps to. The lobby's own client id comes with it. |
| `GameModeLobby.StateOfSnapshotRoundTrip` | src/lib/GameModeLobby.ts:32-37 | A `STATE` carrying `getState().players` of a well-formed lobby, applied to any lobby, reproduces the source registry exactly (order included) and sets the carried client id. |
| `InsertionMap.Put` | src/lib/GameModeLobby.ts:78 | `Map.set`: the keys gain the key and the denoted map is updated at the key. Setting a present key keeps the number of entries. A new key is appended at the end. |
| `InsertionMap.PutReplacesInPlace` | src/lib/GameModeLobby.ts:78 | `Map.set` on a present key overwrites the first entry under that key where it stands. Every other entry keeps its position. |
| `InsertionMap.PutKeepsShape` | src/lib/GameModeLobby.ts:78 | `Map.set` introduces no entry but the one it was given, and never duplicates a key. |
| `InsertionMap.Remove` | src/lib/GameModeLobby.ts:82 | `Map.delete`: the key and its value are gone, all other entries stay, and deleting a missing key returns the map unchanged. |
| `InsertionMap.RemoveKeepsOrder` | src/lib/GameModeLobby.ts:82 | `Map.delete` keeps the surviving entries in their original order. It acts on each part of a concatenation separately. On a single entry it drops that entry exactly when it is under the deleted key. |
| `InsertionMap.ValuesDenote` | src/lib/GameModeLobby.ts:34 | With distinct keys, `Array.from(values())` has one value per entry. The value listed for each entry is the one its key maps to. |
| `InsertionMap.PutAll` | src/lib/GameModeLobby.ts:74 | A `forEach` of `set` gives the union of the old keys and the new keys. The denoted map is the old one with each pair set in turn, so a later pair for a key overrides an earlier one. It keeps the keys distinct and introduces no entry that was not given. |
| `InsertionMap.SetAllLastWins` | src/lib/GameModeLobby.ts:74 | After setting every pair in turn, a key holds the value of the last pair that names it, whatever it held before. |
| `InsertionMap.PutIdempotent` | src/lib/GameModeLobby.ts:78 | Setting the same key to the same value twice gives the same `Map` as setting it once. |
| `InsertionMap.PutAllFresh` | src/lib/GameModeLobby.ts:74 | A `forEach` of `set` over entries whose keys are all new appends them in order. So a `Map` rebuilt from its own entries is that same `Map`. |
| `Decimal.DecimalString` | src/lib/GameModeLobby.ts:44 | `toString` of a counter value is a non-empty string of digits. It starts with `0` only for the value 0. |
| `Decimal.ParseDecimalInvertsDecimalString` | src/lib/GameModeLobby.ts:44 | The decimal id string of a counter value reads back as that value. |
| `Decimal.DecimalStringInjective` | src/lib/GameModeLobby.ts:44 | Two counter values give the same id string exactly when they are equal. |
| `LobbyServer.OnServerAction` | src/lib/GameModeLobby.ts:39-67 | `CONNECTED` from a connection steps the counter by one and attaches the default record for the new count. `DISCONNECTED` removes the sender's id and broadcasts `LEFT` of it to all. `MSG` is broadcast to all, re-attributed to the sender, with its body unchanged and no state change. `JOIN`, `LEFT`, `STATE` and unknown kinds, and a transport event without a connection, change nothing and send nothing. It throws exactly for `MSG` without an admitted sender and for `DISCONNECTED` of an unadmitted connection. Nothing the server sends carries a `ts`. |
| `LobbyServer.IssuedIsRenderingOfIssuedValue` | src/lib/GameModeLobby.ts:44 | An id counts as issued against a counter exactly when some value in `1..counter` renders as that id. |
| `LobbyServer.OnServerActionKeepsValid` | src/lib/GameModeLobby.ts:42-66 | Every event that does not throw preserves the server invariant. The registry stays well-formed. Every registry id and attached id is the decimal rendering of a counter value in `1..nextPlayerId`. No two connections hold the same id. |
| `LobbyServer.DisconnectMessageEvictsSender` | src/lib/GameModeLobby.ts:59-61 | The reducer treats a client-sent `DISCONNECTED` message, with any `ts` or none, exactly like the transport's disconnect. For an admitted sender it removes the sender's id from the registry. The connection keeps its `player` slot. |
| `LobbyServer.NewPlayerIsIssued` | src/lib/GameModeLobby.ts:43-47 | The default record for count `n` has an id that reads back as `n`, so for `n >= 1` it is an issued id. It has an empty name and is not ready. |
| `LobbyServer.NextIdIsFresh` | src/lib/GameModeLobby.ts:44 | On a valid server, the rendering of the next counter value is held by no registry entry and by no connection. |
| `LobbyServer.ConnectedAllocatesFreshId` | src/lib/GameModeLobby.ts:42-50 | On `CONNECTED` the new id is the decimal rendering of the incremented counter. No registry entry and no other connection held it before. The registry gains exactly the mapping from that id to `{id, name: "", ready: false}`, and the connection is given that record. |
| `LobbyServer.ConnectedAppendsEntry` | src/lib/GameModeLobby.ts:50 | The new entry is placed at the end of the registry, after every player already there. So `getState` lists players in admission order. |
| `LobbyServer.ConnectedOutputs` | src/lib/GameModeLobby.ts:51-56 | `CONNECTED` sends two messages. `JOIN(player)` reaches every live connection except the new one. `STATE` reaches the new connection alone. It makes any client lobby an exact copy of the server's registry after the join (so it includes the new player), with the new id as the client's own. |
| `LobbyServer.RunKeepsValid` | src/lib/GameModeLobby.ts:39-67 | The server invariant holds after any sequence of events processed one at a time. |
| `LobbyServer.ServerMatchesResyncedClient` | src/lib/GameModeLobby.ts:50-55 | After any sequence of events from a fresh server, a client resynced from the server's snapshot holds exactly the server's registry. |
| `LobbyServer.ConnectAllIssuesConsecutiveIds` | src/lib/GameModeLobby.ts:42-48 | `n` successive connects advance the counter by `n`. The `i`-th connect is given the decimal rendering of the counter value `start + 1 + i`. |
| `LobbyServer.ConsecutiveRenderingsIncrease` | src/lib/GameModeLobby.ts:44 | Decimal renderings of consecutive counter values are pairwise distinct and read back in strictly increasing order. |
| `LobbyServer.ConnectAllIdsDistinctIncreasing` | src/lib/GameModeLobby.ts:92 | Ids issued across successive connects are pairwise distinct and strictly increasing. Starting from the initial counter 0, the first id is "1". |
| `LobbyScenarios.FirstConnect` | src/lib/GameModeLobby.ts:42-56 | The first peer gets id "1". Its `JOIN` reaches no one. Its `STATE` lists that peer itself, and the registry is `{"1": {id: "1", name: "", ready: false}}`. |
| `LobbyScenarios.SecondConnect` | src/lib/GameModeLobby.ts:42-56 | A second peer gets id "2". Only the first peer receives `JOIN`, and the second peer's `STATE` lists "1" and then "2". |
| `LobbyScenarios.ChatThenLeave` | src/lib/GameModeLobby.ts:59-66 | A chat from "1" reaches both peers, attributed to "1" whatever id it claimed, and changes no state. A disconnect of "1" leaves only "2" and broadcasts `LEFT("1")`. |
| `LobbyScenarios.ReadmissionOrphansRecord` | src/lib/GameModeLobby.ts:22 | A client-sent `CONNECTED` re-admits the connection under id "2". Record "1" then stays in the registry with no connection holding it, and survives that client's disconnect. |

## Left out

- Constructor wiring (lines 11-30): it registers callbacks on the `Client`
  and `Server` adapters. The adapters, `GameMode`, `isServer` and `Message`
  are not part of this model. The server's outputs are modelled as addressed
  envelopes. The adapter's set of live connections is a parameter of
  `Deliver`.
- `Date.now()`: it is a parameter `now`, and timestamps are opaque integers.
- `console.log` for `MSG` on the client: it is a side effect only, and the
  lobby state is unchanged.
- The process-wide sharing of `nextPlayerId`: the counter is module-level and
  shared by every lobby in the process. The model gives one server its own
  counter. This matches the source when the process runs a single server
  lobby.
- Decimal.DecimalString: it renders unbounded naturals. JavaScript `Number`
  loses precision above 2^53 and switches to exponent notation at 10^21.
  Neither limit is reached by a counter that steps by one per connection.
- Malformed messages: the source's messages are untyped objects, so a `STATE`
  without `players` or a `MSG` without `body` would throw or carry
  `undefined`. The model's messages always have their fields. A chat `body`
  is a string.
- The consequences of a thrown error: how the adapter's callback machinery
  handles an exception is not modelled. `Run` keeps going from the unchanged
  state.
- Client-to-server sending (`sendPayload` on the client role): this lobby
  never calls it.
