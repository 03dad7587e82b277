/**
  The lobby's local reducer `onAction` and its snapshot `getState`: the part
  of `GameModeLobby` that clients run on every message from the server and
  that the server runs on itself to keep its own registry.
 */
module GameModeLobby {
  import opened Protocol
  import opened InsertionMap

  /** The `players` map: participant id to participant record, in insertion order. */
  type Registry = seq<(string, LobbyPlayer)>

  /** The state `onAction` reads and writes. */
  datatype Lobby = Lobby(players: Registry, clientPlayerId: string)

  /** What `getState` returns. */
  datatype Snapshot = Snapshot(players: seq<LobbyPlayer>, clientPlayerId: string)

  /** A freshly constructed lobby: no players, no client id yet. */
  function Initial(): Lobby {
    Lobby([], "")
  }

  /** Every record is stored under its own id. */
  predicate KeyedById(reg: Registry) {
    forall e :: e in reg ==> e.0 == e.1.id
  }

  /** The shape every registry the lobby builds has: one entry per id, each
      under its own id. */
  predicate WellFormed(reg: Registry) {
    DistinctKeys(reg) && KeyedById(reg)
  }

  /** The ids of a list of records. */
  function Ids(ps: seq<LobbyPlayer>): set<string> {
    set p | p in ps :: p.id
  }

  /** No id occurs twice in a list of records. */
  predicate DistinctIds(ps: seq<LobbyPlayer>) {
    forall i, j :: 0 <= i < j < |ps| ==> ps[i].id != ps[j].id
  }

  /** The `set(player.id, player)` calls a `STATE` message makes, in order. */
  function Index(ps: seq<LobbyPlayer>): Registry {
    seq(|ps|, i requires 0 <= i < |ps| => (ps[i].id, ps[i]))
  }

  /** `getState()`: the records in insertion order, and the client's own id. */
  function GetState(l: Lobby): Snapshot {
    Snapshot(Values(l.players), l.clientPlayerId)
  }

  /** For a well-formed lobby, `getState()` lists exactly the registered ids,
      one record per entry, each record being the one its id maps to, and
      carries the lobby's own client id. */
  lemma GetStateDenotesRegistry(l: Lobby)
    requires WellFormed(l.players)
    ensures var snap := GetState(l);
            && |snap.players| == |l.players|
            && Ids(snap.players) == Keys(l.players)
            && (forall p :: p in snap.players ==> p.id in ToMap(l.players) && ToMap(l.players)[p.id] == p)
            && snap.clientPlayerId == l.clientPlayerId
  {
    var reg := l.players;
    var vs := Values(reg);
    ValuesDenote(reg);
    forall p | p in vs ensures p.id in ToMap(reg) && ToMap(reg)[p.id] == p {
      var i :| 0 <= i < |vs| && vs[i] == p;
      assert reg[i] in reg;
    }
    forall k | k in Keys(reg) ensures k in Ids(vs) {
      var i := EntryOfKey(reg, k);
      assert reg[i] in reg && vs[i] in vs;
    }
    assert Ids(vs) <= Keys(reg) by {
      forall k | k in Ids(vs) ensures k in Keys(reg) {
        var p :| p in vs && p.id == k;
        var i :| 0 <= i < |vs| && vs[i] == p;
        assert reg[i] in reg;
        KeyOfEntry(reg, i);
      }
    }
  }

  /** `onAction(action)`. `STATE` replaces the registry and the client id,
      `JOIN` upserts one record, `LEFT` deletes one id, and `MSG` (logged
      only) and every other discriminant change nothing. Every kind keeps
      a well-formed registry well-formed; `STATE` makes any registry
      well-formed. */
  function OnAction(l: Lobby, action: Message): (r: Lobby)
    ensures action.State? ==>
              && r.clientPlayerId == action.clientPlayerId
              && Keys(r.players) == Ids(action.players)
              && ToMap(r.players) == SetAll(map[], Index(action.players))
              && WellFormed(r.players)
    ensures action.Join? ==>
              && ToMap(r.players) == ToMap(l.players)[action.player.id := action.player]
              && r.clientPlayerId == l.clientPlayerId
    ensures action.Left? ==>
              && ToMap(r.players) == ToMap(l.players) - {action.playerId}
              && r.clientPlayerId == l.clientPlayerId
    ensures !(action.State? || action.Join? || action.Left?) ==> r == l
    ensures WellFormed(l.players) ==> WellFormed(r.players)
  {
    match action
    case State(_, ps, cid) =>
      var reg := PutAll([], Index(ps));
      assert ToMap<string, LobbyPlayer>([]) == map[];
      IndexKeys(ps);
      assert KeyedById(Index(ps));
      Lobby(reg, cid)
    case Join(_, p) =>
      PutKeepsShape(l.players, p.id, p);
      l.(players := Put(l.players, p.id, p))
    case Left(_, id) => l.(players := Remove(l.players, id))
    case _ => l
  }

  lemma {:induction false} IndexKeys(ps: seq<LobbyPlayer>)
    ensures Keys(Index(ps)) == Ids(ps)
    decreases |ps|
  {
    if ps != [] {
      assert Index(ps)[1..] == Index(ps[1..]);
      assert Ids(ps) == {ps[0].id} + Ids(ps[1..]) by {
        forall id | id in Ids(ps) ensures id in {ps[0].id} + Ids(ps[1..]) {
          var p :| p in ps && p.id == id;
          if p != ps[0] {
            assert p in ps[1..];
          }
        }
      }
      IndexKeys(ps[1..]);
    }
  }

  lemma {:induction false} DistinctIdsIndex(ps: seq<LobbyPlayer>)
    requires DistinctIds(ps)
    ensures DistinctKeys(Index(ps))
    decreases |ps|
  {
    if ps != [] {
      assert Index(ps)[1..] == Index(ps[1..]);
      IndexKeys(ps[1..]);
      assert ps[0].id !in Ids(ps[1..]) by {
        forall p | p in ps[1..] ensures p.id != ps[0].id {
          var j :| 0 <= j < |ps[1..]| && ps[1..][j] == p;
          assert ps[j + 1] == p;
        }
      }
      DistinctIdsIndex(ps[1..]);
    }
  }

  /** `JOIN` is an idempotent upsert: afterwards the record is stored under
      its id, every other id keeps its record, and a second identical `JOIN`
      (whatever its timestamp) changes nothing more. */
  lemma JoinIsIdempotentUpsert(l: Lobby, p: LobbyPlayer, ts1: Stamp, ts2: Stamp)
    ensures var once := OnAction(l, Join(ts1, p));
            && p.id in ToMap(once.players) && ToMap(once.players)[p.id] == p
            && (forall k :: k != p.id ==> (k in ToMap(once.players) <==> k in ToMap(l.players)))
            && (forall k :: k != p.id && k in ToMap(l.players) ==> ToMap(once.players)[k] == ToMap(l.players)[k])
            && OnAction(once, Join(ts2, p)) == once
  {
    PutIdempotent(l.players, p.id, p);
  }

  /** `LEFT` removes exactly its id, keeps every other record, is a no-op
      for an id that is not present, and so is idempotent. */
  lemma LeftRemovesExactly(l: Lobby, id: string, ts1: Stamp, ts2: Stamp)
    ensures var once := OnAction(l, Left(ts1, id));
            && id !in ToMap(once.players)
            && (forall k :: k != id ==> (k in ToMap(once.players) <==> k in ToMap(l.players)))
            && (forall k :: k != id && k in ToMap(l.players) ==> ToMap(once.players)[k] == ToMap(l.players)[k])
            && (id !in ToMap(l.players) ==> once == l)
            && OnAction(once, Left(ts2, id)) == once
  {
    var once := OnAction(l, Left(ts1, id));
    assert id !in Keys(once.players);
  }

  /** `STATE` fully replaces: the resulting registry does not depend on the
      registry it replaced, and for a list without repeated ids it holds
      exactly that list, in that order, each record under its own id. */
  lemma {:induction false} StateFullyReplaces(a: Lobby, b: Lobby, ts: Stamp, ps: seq<LobbyPlayer>, cid: string)
    ensures OnAction(a, State(ts, ps, cid)).players == OnAction(b, State(ts, ps, cid)).players
    ensures DistinctIds(ps) ==> GetState(OnAction(a, State(ts, ps, cid))) == Snapshot(ps, cid)
  {
    var r := OnAction(a, State(ts, ps, cid));
    assert r == Lobby(PutAll([], Index(ps)), cid);
    assert OnAction(b, State(ts, ps, cid)) == Lobby(PutAll([], Index(ps)), cid);
    if DistinctIds(ps) {
      RebuildFromDistinctList(ps);
    }
  }

  lemma RebuildFromDistinctList(ps: seq<LobbyPlayer>)
    requires DistinctIds(ps)
    ensures Values(PutAll([], Index(ps))) == ps
  {
    DistinctIdsIndex(ps);
    assert [] + Index(ps) == Index(ps);
    PutAllFresh([], Index(ps));
    assert Values(Index(ps)) == ps;
  }

  /** `STATE` with repeated ids: each id ends up holding the last record the
      list gives for it. */
  lemma StateKeepsLastRecordPerId(l: Lobby, ts: Stamp, ps: seq<LobbyPlayer>, cid: string, i: nat)
    requires i < |ps|
    requires forall j :: i < j < |ps| ==> ps[j].id != ps[i].id
    ensures var r := OnAction(l, State(ts, ps, cid));
            ps[i].id in ToMap(r.players) && ToMap(r.players)[ps[i].id] == ps[i]
  {
    var kvs := Index(ps);
    forall j | i < j < |kvs| ensures kvs[j].0 != kvs[i].0 {
      assert kvs[j].0 == ps[j].id;
    }
    SetAllLastWins(map[], kvs, i);
  }

  /** Two records under one id: the registry keeps the later record, at the
      position where the id was first set. */
  lemma StateWithRepeatedIdKeepsLast(l: Lobby, ts: Stamp, p: LobbyPlayer, q: LobbyPlayer, o: LobbyPlayer, cid: string)
    requires p.id == q.id && o.id != p.id
    ensures OnAction(l, State(ts, [p, o, q], cid)).players == [(p.id, q), (o.id, o)]
  {
    var ps := [p, o, q];
    assert Index(ps) == [(p.id, p), (o.id, o), (q.id, q)];
    var m1 := Put([], p.id, p);
    assert m1 == [(p.id, p)];
    var m2 := Put(m1, o.id, o);
    assert m2 == [(p.id, p), (o.id, o)];
    var m3 := Put(m2, q.id, q);
    assert m3 == [(p.id, q), (o.id, o)] by {
      assert m2[0].0 == q.id;
    }
    var kvs := Index(ps);
    var k1, k2 := kvs[1..], kvs[1..][1..];
    assert k1 == [(o.id, o), (q.id, q)] && k2 == [(q.id, q)] && k2[1..] == [];
    assert PutAll(m3, k2[1..]) == m3;
    assert PutAll(m2, k2) == m3;
    assert PutAll(m1, k1) == m3;
    assert PutAll([], kvs) == m3;
    assert OnAction(l, State(ts, ps, cid)).players == PutAll([], kvs);
  }

  /** Resync round trip: a `STATE` carrying the players of `getState()`
      rebuilds, in any lobby, exactly the registry it was taken from
      (insertion order included), and sets the id the message carries. */
  lemma {:induction false} StateOfSnapshotRoundTrip(source: Lobby, target: Lobby, ts: Stamp, cid: string)
    requires WellFormed(source.players)
    ensures OnAction(target, State(ts, GetState(source).players, cid)) == Lobby(source.players, cid)
  {
    var reg := source.players;
    var ps := GetState(source).players;
    assert Index(ps) == reg by {
      forall i | 0 <= i < |reg| ensures Index(ps)[i] == reg[i] {
        assert reg[i] in reg;
      }
    }
    assert [] + reg == reg;
    PutAllFresh([], reg);
  }
}
