/**
  The lobby's server reducer `onServerAction`: it turns transport events and
  client messages into authoritative effects. It allocates player ids from
  the `nextPlayerId` counter, attaches a record to the connection, applies
  `JOIN`/`LEFT` to its own registry through `onAction`, and hands addressed
  messages to the transport adapter.
 */
module LobbyServer {
  import opened Protocol
  import opened InsertionMap
  import opened Decimal
  import opened GameModeLobby

  /** The server's lobby, the id counter, and the `player` slot of every
      connection that has been admitted. The slot is never cleared. */
  datatype Server = Server(lobby: Lobby, nextPlayerId: nat, attached: map<Conn, LobbyPlayer>)

  /** Why `from!.player.id` throws: there is no connection, or the
      connection has no `player` attached. */
  datatype Fault = NoConnection | NotAdmitted

  /** A processed event: the new server state and the messages sent, in
      order; or a thrown error, before which nothing was changed or sent. */
  datatype Outcome = Done(server: Server, out: seq<Envelope>) | Crash(fault: Fault)

  /** A server lobby just constructed, with the counter at its initial 0. */
  function Start(): Server {
    Server(Initial(), 0, map[])
  }

  /** The default record for the `n`-th admitted connection. */
  function NewPlayer(n: nat): LobbyPlayer {
    LobbyPlayer(DecimalString(n), "", false)
  }

  /** The default record's id reads back as the count it was made for, so
      for a count of at least one it is an issued id; it has no name and is
      not ready. */
  lemma NewPlayerIsIssued(n: nat)
    ensures ParseDecimal(NewPlayer(n).id) == n
    ensures n >= 1 ==> Issued(NewPlayer(n).id, n)
    ensures NewPlayer(n).name == "" && !NewPlayer(n).ready
  {
    ParseDecimalInvertsDecimalString(n);
  }

  /** `onServerAction(action, from)`, with `now` standing for `Date.now()`. */
  function OnServerAction(s: Server, action: Message, from: Option<Conn>, now: int): (r: Outcome)
    // CONNECTED from a connection always succeeds: the counter steps by one
    // and the connection gets the default record for the new count
    ensures action.Connected? && from.Some? ==>
              && r.Done?
              && r.server.nextPlayerId == s.nextPlayerId + 1
              && r.server.attached == s.attached[from.value := NewPlayer(s.nextPlayerId + 1)]
    // the throwing cases: MSG without an admitted sender, DISCONNECTED of a
    // connection that was never admitted
    ensures r.Crash? <==>
              || (action.Msg? && (from.None? || from.value !in s.attached))
              || (action.Disconnected? && from.Some? && from.value !in s.attached)
    ensures r.Crash? ==> (r.fault == NoConnection <==> from.None?)
    // only CONNECTED touches the counter and the connections' slots
    ensures r.Done? && !(action.Connected? && from.Some?) ==>
              r.server.nextPlayerId == s.nextPlayerId && r.server.attached == s.attached
    // DISCONNECTED removes the sender's id and tells everyone
    ensures r.Done? && action.Disconnected? && from.Some? ==>
              var id := s.attached[from.value].id;
              && ToMap(r.server.lobby.players) == ToMap(s.lobby.players) - {id}
              && r.out == [Envelope(All, Left(None, id))]
    // MSG is re-attributed to the sender and sent to everyone; no state change
    ensures r.Done? && action.Msg? ==>
              && r.server == s
              && r.out == [Envelope(All, Msg(None, s.attached[from.value].id, action.body))]
    // anything else, or a transport event without a connection, does nothing
    ensures (action.Join? || action.Left? || action.State? || action.Other?
             || ((action.Connected? || action.Disconnected?) && from.None?)) ==>
              r == Done(s, [])
    // the server stamps no `ts` on what it sends
    ensures r.Done? ==> forall e :: e in r.out ==> e.msg.ts == None
    // the server's own client id is never touched
    ensures r.Done? ==> r.server.lobby.clientPlayerId == s.lobby.clientPlayerId
  {
    match action
    case Connected(_) =>
      if from.None? then Done(s, [])
      else
        var c := from.value;
        var p := NewPlayer(s.nextPlayerId + 1);
        var lobby := OnAction(s.lobby, Join(Some(now), p));
        Done(Server(lobby, s.nextPlayerId + 1, s.attached[c := p]),
             [ Envelope(Except({c}), Join(None, p)),
               Envelope(To(c), State(None, GetState(lobby).players, p.id)) ])
    case Disconnected(_) =>
      if from.None? then Done(s, [])
      else if from.value !in s.attached then Crash(NotAdmitted)
      else
        var id := s.attached[from.value].id;
        Done(s.(lobby := OnAction(s.lobby, Left(Some(now), id))),
             [Envelope(All, Left(None, id))])
    case Msg(_, _, body) =>
      if from.None? then Crash(NoConnection)
      else if from.value !in s.attached then Crash(NotAdmitted)
      else Done(s, [Envelope(All, Msg(None, s.attached[from.value].id, body))])
    case _ => Done(s, [])
  }

  /** `id` is the decimal rendering of a counter value in `1..counter`: the
      value it reads back as is in range and renders as `id` again. */
  predicate Issued(id: string, counter: nat) {
    var n := ParseDecimal(id);
    1 <= n <= counter && DecimalString(n) == id
  }

  /** `Issued` says exactly that some counter value in `1..counter` renders
      as `id`. */
  lemma IssuedIsRenderingOfIssuedValue(id: string, counter: nat)
    ensures Issued(id, counter) <==> exists j :: 1 <= j <= counter && id == DecimalString(j)
  {
    if j :| 1 <= j <= counter && id == DecimalString(j) {
      ParseDecimalInvertsDecimalString(j);
    }
  }

  /** Every id in the registry renders a counter value already issued. */
  predicate RegistryIdsIssued(reg: Registry, counter: nat) {
    forall k :: k in Keys(reg) ==> Issued(k, counter)
  }

  /** Every attached id renders a counter value already issued. */
  predicate AttachedIdsIssued(attached: map<Conn, LobbyPlayer>, counter: nat) {
    forall c :: c in attached ==> Issued(attached[c].id, counter)
  }

  /** No two connections hold the same id. */
  predicate AttachedIdsDistinct(attached: map<Conn, LobbyPlayer>) {
    forall c, d :: c in attached && d in attached && c != d ==> attached[c].id != attached[d].id
  }

  /** What the server keeps true between events. */
  predicate Valid(s: Server) {
    && WellFormed(s.lobby.players)
    && RegistryIdsIssued(s.lobby.players, s.nextPlayerId)
    && AttachedIdsIssued(s.attached, s.nextPlayerId)
    && AttachedIdsDistinct(s.attached)
  }

  lemma StartIsValid()
    ensures Valid(Start())
    ensures Start().nextPlayerId == 0 && Start().lobby.players == [] && Start().attached == map[]
  {
  }

  /** Every event that does not throw keeps the server valid. */
  lemma OnServerActionKeepsValid(s: Server, action: Message, from: Option<Conn>, now: int)
    requires Valid(s)
    ensures OnServerAction(s, action, from, now).Done? ==> Valid(OnServerAction(s, action, from, now).server)
  {
    var r := OnServerAction(s, action, from, now);
    if action.Connected? && from.Some? {
      ConnectKeepsValid(s, from.value, action.ts, now);
    } else if r.Done? && action.Disconnected? && from.Some? {
      var id := s.attached[from.value].id;
      assert r.server == s.(lobby := OnAction(s.lobby, Left(Some(now), id)));
      EvictKeepsValid(s, id);
    }
  }

  /** Removing an id from the registry keeps the server valid. */
  lemma EvictKeepsValid(s: Server, id: string)
    requires Valid(s)
    ensures Valid(s.(lobby := s.lobby.(players := Remove(s.lobby.players, id))))
  {
    assert Keys(Remove(s.lobby.players, id)) <= Keys(s.lobby.players);
  }

  /** The reducer cannot tell a client's `DISCONNECTED` message (sent with
      any `ts`, or none) from the transport's disconnect: either removes the
      sender's id from the registry, while the connection keeps its `player`
      slot and so stays as it was. */
  lemma DisconnectMessageEvictsSender(s: Server, c: Conn, ts1: Stamp, ts2: Stamp, now: int)
    ensures OnServerAction(s, Disconnected(ts1), Some(c), now) == OnServerAction(s, Disconnected(ts2), Some(c), now)
    ensures c in s.attached ==>
              var r := OnServerAction(s, Disconnected(ts1), Some(c), now);
              && r.Done?
              && s.attached[c].id !in Keys(r.server.lobby.players)
              && r.server.attached == s.attached
  {
  }

  lemma ConnectKeepsValid(s: Server, c: Conn, ts: Stamp, now: int)
    requires Valid(s)
    ensures Valid(OnServerAction(s, Connected(ts), Some(c), now).server)
  {
    var n := s.nextPlayerId + 1;
    var p := NewPlayer(n);
    var lobby := OnAction(s.lobby, Join(Some(now), p));
    assert OnServerAction(s, Connected(ts), Some(c), now).server == Server(lobby, n, s.attached[c := p]);
    assert lobby == s.lobby.(players := Put(s.lobby.players, p.id, p));
    AdmitKeepsValid(s, c);
  }

  /** Admitting a connection under the next counter value keeps the server
      valid; stated apart from the reducer to keep the proof small. */
  lemma AdmitKeepsValid(s: Server, c: Conn)
    requires Valid(s)
    ensures var p := NewPlayer(s.nextPlayerId + 1);
            Valid(Server(s.lobby.(players := Put(s.lobby.players, p.id, p)), s.nextPlayerId + 1, s.attached[c := p]))
  {
    var n := s.nextPlayerId + 1;
    var p := NewPlayer(n);
    var reg := Put(s.lobby.players, p.id, p);
    NewPlayerIsIssued(n);
    AdmitKeepsRegistryValid(s.lobby.players, s.nextPlayerId, p, reg);
    AdmitKeepsAttachedValid(s.attached, s.nextPlayerId, c, p);
  }

  lemma AdmitKeepsRegistryValid(old_reg: Registry, counter: nat, p: LobbyPlayer, reg: Registry)
    requires WellFormed(old_reg) && RegistryIdsIssued(old_reg, counter)
    requires Issued(p.id, counter + 1) && ParseDecimal(p.id) == counter + 1
    requires reg == Put(old_reg, p.id, p)
    ensures WellFormed(reg) && RegistryIdsIssued(reg, counter + 1)
  {
    PutKeepsShape(old_reg, p.id, p);
    assert KeyedById(reg) by {
      forall e | e in reg ensures e.0 == e.1.id {
        assert e == (p.id, p) || e in old_reg;
      }
    }
    forall k | k in Keys(reg) ensures Issued(k, counter + 1) {
      assert k == p.id || k in Keys(old_reg);
    }
  }

  lemma AdmitKeepsAttachedValid(old_attached: map<Conn, LobbyPlayer>, counter: nat, c: Conn, p: LobbyPlayer)
    requires AttachedIdsIssued(old_attached, counter) && AttachedIdsDistinct(old_attached)
    requires Issued(p.id, counter + 1) && ParseDecimal(p.id) == counter + 1
    ensures AttachedIdsIssued(old_attached[c := p], counter + 1)
    ensures AttachedIdsDistinct(old_attached[c := p])
  {
    var attached := old_attached[c := p];
    forall d | d in attached ensures Issued(attached[d].id, counter + 1) {
      if d != c {
        assert attached[d] == old_attached[d];
      }
    }
    forall d, e | d in attached && e in attached && d != e ensures attached[d].id != attached[e].id {
      if d == c {
        assert ParseDecimal(attached[e].id) <= counter;
      } else if e == c {
        assert ParseDecimal(attached[d].id) <= counter;
      } else {
        assert attached[d] == old_attached[d] && attached[e] == old_attached[e];
      }
    }
  }

  /** `CONNECTED` allocates a fresh id: the id is the rendering of the
      incremented counter, no record in the registry and no other
      connection holds it, the registry gains exactly that one entry, and
      the connection gets the default record. */
  lemma ConnectedAllocatesFreshId(s: Server, c: Conn, ts: Stamp, now: int)
    requires Valid(s)
    ensures var r := OnServerAction(s, Connected(ts), Some(c), now);
            var p := LobbyPlayer(DecimalString(s.nextPlayerId + 1), "", false);
            && r.Done?
            && r.server.nextPlayerId == s.nextPlayerId + 1
            && p.id !in Keys(s.lobby.players)
            && (forall d :: d in s.attached && d != c ==> s.attached[d].id != p.id)
            && ToMap(r.server.lobby.players) == ToMap(s.lobby.players)[p.id := p]
            && r.server.attached == s.attached[c := p]
  {
    NextIdIsFresh(s);
    ConnectedEffect(s, c, ts, now);
  }

  /** What `CONNECTED` does to the state, apart from freshness. */
  lemma ConnectedEffect(s: Server, c: Conn, ts: Stamp, now: int)
    ensures var r := OnServerAction(s, Connected(ts), Some(c), now);
            var p := NewPlayer(s.nextPlayerId + 1);
            && r.Done?
            && r.server.nextPlayerId == s.nextPlayerId + 1
            && ToMap(r.server.lobby.players) == ToMap(s.lobby.players)[p.id := p]
            && r.server.attached == s.attached[c := p]
  {
    var n := s.nextPlayerId + 1;
    var p := NewPlayer(n);
    var lobby := OnAction(s.lobby, Join(Some(now), p));
    var r := OnServerAction(s, Connected(ts), Some(c), now);
    assert r.Done? && r.server == Server(lobby, n, s.attached[c := p]);
    assert ToMap(lobby.players) == ToMap(s.lobby.players)[p.id := p];
  }

  /** The rendering of the next counter value is held by no registry entry
      and no connection of a valid server. */
  lemma NextIdIsFresh(s: Server)
    requires Valid(s)
    ensures NewPlayer(s.nextPlayerId + 1).id !in Keys(s.lobby.players)
    ensures forall d :: d in s.attached ==> s.attached[d].id != NewPlayer(s.nextPlayerId + 1).id
  {
    var n := s.nextPlayerId + 1;
    ParseDecimalInvertsDecimalString(n);
    assert ParseDecimal(NewPlayer(n).id) == n;
    assert forall k :: k in Keys(s.lobby.players) ==> ParseDecimal(k) < n;
    assert forall d :: d in s.attached ==> ParseDecimal(s.attached[d].id) < n;
  }

  /** The new entry goes at the end of the registry, after every player
      already there, so `getState` lists players in admission order. */
  lemma ConnectedAppendsEntry(s: Server, c: Conn, ts: Stamp, now: int)
    requires Valid(s)
    ensures var r := OnServerAction(s, Connected(ts), Some(c), now);
            var p := NewPlayer(s.nextPlayerId + 1);
            r.server.lobby.players == s.lobby.players + [(p.id, p)]
  {
    ConnectedAllocatesFreshId(s, c, ts, now);
  }

  /** What `CONNECTED` sends: `JOIN` of the new record to every live
      connection but the new one, and to the new connection alone a
      `STATE` that makes any client's lobby an exact copy of the server's
      registry after the join (the new record included) with the new id as
      its own. */
  lemma ConnectedOutputs(s: Server, c: Conn, ts: Stamp, now: int, live: set<Conn>, client: Lobby)
    requires Valid(s)
    ensures var r := OnServerAction(s, Connected(ts), Some(c), now);
            var p := r.server.attached[c];
            && |r.out| == 2
            && r.out[0].msg == Join(None, p)
            && c !in Deliver(r.out[0].to, live)
            && (forall d :: d in live && d != c ==> d in Deliver(r.out[0].to, live))
            && Deliver(r.out[1].to, live) == {c}
            && r.out[1].msg.State?
            && OnAction(client, r.out[1].msg) == Lobby(r.server.lobby.players, p.id)
  {
    var n := s.nextPlayerId + 1;
    var p := NewPlayer(n);
    var lobby := OnAction(s.lobby, Join(Some(now), p));
    var out := [Envelope(Except({c}), Join(None, p)), Envelope(To(c), State(None, GetState(lobby).players, p.id))];
    assert OnServerAction(s, Connected(ts), Some(c), now) == Done(Server(lobby, n, s.attached[c := p]), out);
    assert WellFormed(lobby.players);
    StateOfSnapshotRoundTrip(lobby, client, None, p.id);
  }

  /** One event as the adapter delivers it. */
  datatype Event = Event(action: Message, from: Option<Conn>, now: int)

  /** The server after one event; a thrown event leaves it as it was. */
  function After(s: Server, e: Event): Server {
    match OnServerAction(s, e.action, e.from, e.now)
    case Done(s', _) => s'
    case Crash(_) => s
  }

  /** The server after a sequence of events, processed one at a time. */
  function Run(s: Server, events: seq<Event>): Server
    decreases |events|
  {
    if events == [] then s else Run(After(s, events[0]), events[1..])
  }

  lemma {:induction false} RunKeepsValid(s: Server, events: seq<Event>)
    requires Valid(s)
    ensures Valid(Run(s, events))
    decreases |events|
  {
    if events != [] {
      var e := events[0];
      OnServerActionKeepsValid(s, e.action, e.from, e.now);
      RunKeepsValid(After(s, e), events[1..]);
    }
  }

  /** Self-consistency: after any sequence of events, a client resynced
      from the server's snapshot holds exactly the server's registry. */
  lemma ServerMatchesResyncedClient(events: seq<Event>, client: Lobby, ts: Stamp, cid: string)
    ensures var s := Run(Start(), events);
            OnAction(client, State(ts, GetState(s.lobby).players, cid)) == Lobby(s.lobby.players, cid)
  {
    StartIsValid();
    RunKeepsValid(Start(), events);
    StateOfSnapshotRoundTrip(Run(Start(), events).lobby, client, ts, cid);
  }

  /** Admits the given connections one after another, and lists the ids
      they were given. */
  function ConnectAll(s: Server, conns: seq<Conn>, now: int): (Server, seq<string>)
    decreases |conns|
  {
    if conns == [] then (s, [])
    else
      var s1 := After(s, Event(Connected(Some(now)), Some(conns[0]), now));
      var rest := ConnectAll(s1, conns[1..], now);
      (rest.0, [s1.attached[conns[0]].id] + rest.1)
  }

  lemma ConnectStep(s: Server, c: Conn, now: int)
    ensures var s1 := After(s, Event(Connected(Some(now)), Some(c), now));
            s1.nextPlayerId == s.nextPlayerId + 1 && c in s1.attached && s1.attached[c] == NewPlayer(s.nextPlayerId + 1)
  {
  }

  /** `n` successive connects issue the renderings of the next `n` counter
      values, in order. */
  lemma {:induction false} ConnectAllIssuesConsecutiveIds(s: Server, conns: seq<Conn>, now: int)
    ensures |ConnectAll(s, conns, now).1| == |conns|
    ensures ConnectAll(s, conns, now).0.nextPlayerId == s.nextPlayerId + |conns|
    ensures forall i :: 0 <= i < |conns| ==>
              ConnectAll(s, conns, now).1[i] == DecimalString(s.nextPlayerId + 1 + i)
    decreases |conns|
  {
    if conns != [] {
      var s1 := After(s, Event(Connected(Some(now)), Some(conns[0]), now));
      ConnectStep(s, conns[0], now);
      ConnectAllIssuesConsecutiveIds(s1, conns[1..], now);
      var rest := ConnectAll(s1, conns[1..], now);
      var ids := ConnectAll(s, conns, now).1;
      assert ids == [NewPlayer(s.nextPlayerId + 1).id] + rest.1;
      forall i | 0 <= i < |conns|
        ensures ids[i] == DecimalString(s.nextPlayerId + 1 + i)
      {
        if i > 0 {
          var j := i - 1;
          assert ids[i] == rest.1[j];
          assert rest.1[j] == DecimalString(s1.nextPlayerId + 1 + j);
          assert s1.nextPlayerId + 1 + j == s.nextPlayerId + 1 + i;
        }
      }
    }
  }

  /** Renderings of consecutive counter values are pairwise distinct and
      read back in increasing order. */
  lemma ConsecutiveRenderingsIncrease(base: nat, ids: seq<string>)
    requires forall i :: 0 <= i < |ids| ==> ids[i] == DecimalString(base + i)
    ensures forall i, j :: 0 <= i < j < |ids| ==> ids[i] != ids[j] && ParseDecimal(ids[i]) < ParseDecimal(ids[j])
  {
    forall i, j | 0 <= i < j < |ids|
      ensures ids[i] != ids[j] && ParseDecimal(ids[i]) < ParseDecimal(ids[j])
    {
      var a, b := base + i, base + j;
      assert ids[i] == DecimalString(a) && ids[j] == DecimalString(b);
      ParseDecimalInvertsDecimalString(a);
      ParseDecimalInvertsDecimalString(b);
      assert ParseDecimal(ids[i]) == a && ParseDecimal(ids[j]) == b;
    }
  }

  /** Ids issued across successive connects are pairwise distinct and
      strictly increasing as numbers; on a fresh server the first is "1". */
  lemma ConnectAllIdsDistinctIncreasing(s: Server, conns: seq<Conn>, now: int)
    ensures var ids := ConnectAll(s, conns, now).1;
            && (forall i, j :: 0 <= i < j < |ids| ==> ids[i] != ids[j] && ParseDecimal(ids[i]) < ParseDecimal(ids[j]))
            && (s == Start() && conns != [] ==> ids[0] == "1")
  {
    ConnectAllIssuesConsecutiveIds(s, conns, now);
    var ids := ConnectAll(s, conns, now).1;
    ConsecutiveRenderingsIncrease(s.nextPlayerId + 1, ids);
    if s == Start() && conns != [] {
      assert ids[0] == DecimalString(1);
    }
  }
}
