/**
  The values the lobby exchanges: participant records, the tagged messages
  of the lobby protocol, and the addressed messages the server hands to its
  transport adapter.
 */
module Protocol {

  datatype Option<+T> = None | Some(value: T)

  /** `LobbyPlayer`: a participant record. `id` is the registry key. */
  datatype LobbyPlayer = LobbyPlayer(id: string, name: string, ready: bool)

  /** A message timestamp; `None` when the sender did not set `ts`. */
  type Stamp = Option<int>

  /** One protocol message, tagged by its `type` discriminant. `Other`
      stands for any discriminant the lobby does not recognise: its `kind`
      is taken to be none of `CONNECTED`, `DISCONNECTED`, `JOIN`, `LEFT`,
      `MSG` and `STATE`, each of which has its own variant. A chat `body`
      is modelled as a string. */
  datatype Message =
    | Connected(ts: Stamp)
    | Disconnected(ts: Stamp)
    | Join(ts: Stamp, player: LobbyPlayer)
    | Left(ts: Stamp, playerId: string)
    | Msg(ts: Stamp, playerId: string, body: string)
    | State(ts: Stamp, players: seq<LobbyPlayer>, clientPlayerId: string)
    | Other(ts: Stamp, kind: string)

  /** Server-side handle of one connected peer. */
  type Conn = nat

  /** Who an outgoing message is addressed to: `broadcastExceptPayload`,
      `broadcastAllPayload`, or a connection's own `sendPayload`. */
  datatype Recipient = Except(excluded: set<Conn>) | All | To(conn: Conn)

  datatype Envelope = Envelope(to: Recipient, msg: Message)

  /** The connections a message reaches, given the connections the adapter
      currently holds. A unicast goes down its own connection. */
  function Deliver(to: Recipient, live: set<Conn>): set<Conn> {
    match to
    case Except(ex) => live - ex
    case All => live
    case To(c) => {c}
  }
}
