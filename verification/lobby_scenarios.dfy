/**
  Concrete runs of the server reducer: two peers connect, one chats, one
  leaves. They pin down the exact messages the code sends, including two
  points where it differs from a looser reading of the protocol: the
  `STATE` sent to a new peer already lists that peer, and a client message
  whose discriminant is `CONNECTED` is handled like a real connect.
 */
module LobbyScenarios {
  import opened Protocol
  import opened InsertionMap
  import opened Decimal
  import opened GameModeLobby
  import opened LobbyServer

  const X: Conn := 1
  const Y: Conn := 2

  lemma FirstIds()
    ensures DecimalString(1) == "1" && DecimalString(2) == "2"
  {
    assert DigitChar(1) == '1' && DigitChar(2) == '2';
  }

  /** X connects to an empty lobby: it gets id "1", the `JOIN` reaches
      nobody, and X's `STATE` lists X itself. */
  lemma FirstConnect(now: int)
    ensures var r := OnServerAction(Start(), Connected(Some(now)), Some(X), now);
            var p1 := LobbyPlayer("1", "", false);
            && r.Done?
            && r.server.lobby.players == [("1", p1)]
            && r.out == [Envelope(Except({X}), Join(None, p1)), Envelope(To(X), State(None, [p1], "1"))]
            && Deliver(r.out[0].to, {X}) == {}
  {
    FirstIds();
    var p1 := LobbyPlayer("1", "", false);
    assert NewPlayer(1) == p1;
    var lobby := OnAction(Initial(), Join(Some(now), p1));
    assert lobby.players == [("1", p1)];
    assert GetState(lobby).players == [p1];
  }

  /** Y connects while X is there: Y gets id "2", X alone receives the
      `JOIN`, and Y's `STATE` lists X and then Y. */
  lemma SecondConnect(now: int)
    ensures var s1 := After(Start(), Event(Connected(Some(now)), Some(X), now));
            var r := OnServerAction(s1, Connected(Some(now)), Some(Y), now);
            var p1 := LobbyPlayer("1", "", false);
            var p2 := LobbyPlayer("2", "", false);
            && r.Done?
            && r.server.lobby.players == [("1", p1), ("2", p2)]
            && r.out == [Envelope(Except({Y}), Join(None, p2)), Envelope(To(Y), State(None, [p1, p2], "2"))]
            && Deliver(r.out[0].to, {X, Y}) == {X}
  {
    FirstConnect(now);
    var s1 := After(Start(), Event(Connected(Some(now)), Some(X), now));
    var p1 := LobbyPlayer("1", "", false);
    var p2 := LobbyPlayer("2", "", false);
    assert s1 == Server(Lobby([("1", p1)], ""), 1, map[X := p1]);
    FirstIds();
    assert NewPlayer(2) == p2;
    var lobby := OnAction(s1.lobby, Join(Some(now), p2));
    assert "2" !in Keys(s1.lobby.players);
    assert lobby.players == [("1", p1), ("2", p2)];
    assert GetState(lobby).players == [p1, p2];
  }

  /** With X and Y connected: X's chat goes to both, attributed to "1"
      whatever id it claimed; then X's disconnect leaves only Y's record
      and tells everyone. */
  lemma ChatThenLeave(now: int, claimed: string)
    ensures var s2 := Run(Start(), [Event(Connected(Some(now)), Some(X), now), Event(Connected(Some(now)), Some(Y), now)]);
            var chat := OnServerAction(s2, Msg(Some(now), claimed, "hi"), Some(X), now);
            var bye := OnServerAction(s2, Disconnected(Some(now)), Some(X), now);
            && chat == Done(s2, [Envelope(All, Msg(None, "1", "hi"))])
            && Deliver(chat.out[0].to, {X, Y}) == {X, Y}
            && bye.Done?
            && bye.server.lobby.players == [("2", LobbyPlayer("2", "", false))]
            && bye.out == [Envelope(All, Left(None, "1"))]
  {
    var p1 := LobbyPlayer("1", "", false);
    var p2 := LobbyPlayer("2", "", false);
    var s2 := TwoConnected(now);
    assert s2.attached[X].id == "1";
    var reg := [("1", p1), ("2", p2)];
    assert Remove(reg, "1") == [("2", p2)] by {
      assert reg[1..] == [("2", p2)];
    }
    var bye := OnServerAction(s2, Disconnected(Some(now)), Some(X), now);
    assert bye.server.lobby.players == Remove(reg, "1");
  }

  /** The server after X and then Y connect. */
  lemma TwoConnected(now: int) returns (s2: Server)
    ensures s2 == Run(Start(), [Event(Connected(Some(now)), Some(X), now), Event(Connected(Some(now)), Some(Y), now)])
    ensures s2.lobby.players == [("1", LobbyPlayer("1", "", false)), ("2", LobbyPlayer("2", "", false))]
    ensures s2.attached == map[X := LobbyPlayer("1", "", false), Y := LobbyPlayer("2", "", false)]
  {
    var e1 := Event(Connected(Some(now)), Some(X), now);
    var e2 := Event(Connected(Some(now)), Some(Y), now);
    FirstConnect(now);
    SecondConnect(now);
    FirstIds();
    s2 := After(After(Start(), e1), e2);
    var es := [e1, e2];
    assert es[1..] == [e2] && es[1..][1..] == [];
    assert Run(Start(), es) == Run(After(Start(), e1), [e2]);
    assert Run(After(Start(), e1), [e2]) == Run(s2, []);
  }

  /** `onMessage` hands client messages to `onServerAction` unfiltered, so a
      client that sends a `CONNECTED` message is admitted again under a new
      id: its first record stays in the registry, no connection holds it
      any more, and the client's disconnect removes only the new one. */
  lemma ReadmissionOrphansRecord(now: int)
    ensures var s1 := After(Start(), Event(Connected(Some(now)), Some(X), now));
            var s2 := After(s1, Event(Connected(None), Some(X), now));
            var s3 := After(s2, Event(Disconnected(Some(now)), Some(X), now));
            && Keys(s2.lobby.players) == {"1", "2"}
            && (forall c :: c in s2.attached ==> s2.attached[c].id != "1")
            && Keys(s3.lobby.players) == {"1"}
  {
    var p1 := LobbyPlayer("1", "", false);
    var p2 := LobbyPlayer("2", "", false);
    FirstConnect(now);
    var s1 := After(Start(), Event(Connected(Some(now)), Some(X), now));
    assert s1 == Server(Lobby([("1", p1)], ""), 1, map[X := p1]);
    FirstIds();
    assert NewPlayer(2) == p2;
    var s2 := After(s1, Event(Connected(None), Some(X), now));
    assert s2.attached == map[X := p2];
    assert s2.lobby.players == Put([("1", p1)], "2", p2);
    assert "2" !in Keys([("1", p1)]);
    assert s2.lobby.players == [("1", p1), ("2", p2)];
    var s3 := After(s2, Event(Disconnected(Some(now)), Some(X), now));
    assert s3.lobby.players == Remove(s2.lobby.players, "2");
  }
}
