/** What a visit of a client to a pooled connection is, among the events of the pool. */
module Lifecycles {
  import opened ByteStrings
  import opened Packets
  import opened PacketIO
  import opened Sessions
  import opened Connections
  import Pool

  type Id = Pool.Id
  type Event = Pool.Event

  // ---------- the events of a visit ----------

  /** How a connection leaves a session that does not give it back otherwise: returned, or abandoned by a panic. */
  function GivenBack(stop: Option<Stop>, id: Id): Event
  {
    if stop == Some(Panicking) then Pool.Abandoned(id) else Pool.Returned(id)
  }

  /** The events of one turn of the command loop, given the commands at hand and what comes of the turn. */
  function TurnEvents(client: seq<Pkt>, t: Stretch, ends: Ends, id: Id): seq<Event>
  {
    var stop := AsStopped(t.stop, ends);
    if client == [] || client[0].payload == [] || client[0].payload[0] > COM_END || client[0].payload[0] == COM_QUIT
    then [GivenBack(stop, id)]
    else if client[0].payload[0] != COM_CHANGE_USER then
      [Pool.Forwarded(id)] + if stop.None? then [] else [GivenBack(stop, id)]
    else if t.requests == [] then [GivenBack(stop, id)]
    else
      [Pool.ChangeAsked(id),
       if stop.None? then Pool.ChangeSettled(id, true)
       else if stop == Some(Rejected) then Pool.ChangeSettled(id, false)
       else GivenBack(stop, id)]
  }

  /** The events of a turn, by the code of its command: none but the giving back without a command, with one that is
      none, with COM_QUIT, and with a COM_CHANGE_USER that cannot be rewritten; the change for COM_CHANGE_USER; for every other command, that it was forwarded. */
  lemma TurnEventsByCode(cmd: Pkt, c: seq<Pkt>, t: Stretch, ends: Ends, id: Id)
    ensures var back := if AsStopped(t.stop, ends) == Some(Panicking) then Pool.Abandoned(id) else Pool.Returned(id);
            && TurnEvents([], t, ends, id) == [back]
            && (cmd.payload == [] || cmd.payload[0] > 32 || cmd.payload[0] == 1 || (cmd.payload[0] == 17 && t.requests == [])
                ==> TurnEvents([cmd] + c, t, ends, id) == [back])
    ensures var es := TurnEvents([cmd] + c, t, ends, id);
            var stop := AsStopped(t.stop, ends);
            if cmd.payload == [] || cmd.payload[0] > 32 || cmd.payload[0] == 1 then true
            else if cmd.payload[0] == 17 then
              t.requests != [] ==>
                && |es| == 2 && es[0] == Pool.ChangeAsked(id)
                && (es[1] == Pool.ChangeSettled(id, true) <==> stop.None?)
                && (es[1] == Pool.ChangeSettled(id, false) <==> stop == Some(Rejected))
                && (es[1] == Pool.Abandoned(id) <==> stop == Some(Panicking))
            else
              && es[0] == Pool.Forwarded(id) && |es| == (if stop.None? then 1 else 2)
              && (stop.Some? ==> es[1] == if stop == Some(Panicking) then Pool.Abandoned(id) else Pool.Returned(id))
  {
  }

  function SessionEvents(
    client: seq<Pkt>, backend: seq<Pkt>, sid: Byte, caps: Flags, rewrite: Rewrite, room: Room, ends: Ends, id: Id): seq<Event>
    decreases |client|
  {
    var t := ComTurn(client, backend, sid, caps, rewrite, room);
    TurnEvents(client, t, ends, id) +
    if t.stop.Some? then []
    else SessionEvents(t.client, t.backend, t.sid, caps, rewrite, Less(room, |t.replies|), ends, id)
  }

  function LoginEvents(phase: Option<Pool.Phase>, end: Verdict, id: Id): seq<Event>
  {
    [if Pool.NeedsHandshake(phase) then Pool.GreetingRead(id) else Pool.ContinuedAuth(id),
     match end
     case Unwound => Pool.Abandoned(id)
     case Denied => Pool.Verdict(id, false)
     case Granted => Pool.Verdict(id, true)]
  }

  /** The events of a visit, from the check-out on. */
  function VisitEvents(
    phase: Option<Pool.Phase>, hello: Hello, client: seq<Pkt>, backend: seq<Pkt>, ends: Ends, caps: Flags,
    rewrite: Rewrite, room: Room, id: Id): seq<Event>
  {
    var a := Authenticate(Pool.NeedsHandshake(phase), hello, client, backend, ends, room);
    LoginEvents(phase, a.end, id) +
    if a.end == Granted then SessionEvents(a.client, a.backend, 0, caps, rewrite, Less(room, 2), ends, id) else []
  }

  // ---------- they are a path of the connection through the pool ----------

  function Walk(c: Pool.Conn, es: seq<Event>): Option<Pool.Conn>
    decreases |es|
  {
    if es == [] then Some(c)
    else match Pool.Next(c, es[0]) case None => None case Some(d) => Walk(d, es[1..])
  }

  lemma {:induction false} WalkAppend(c: Pool.Conn, a: seq<Event>, b: seq<Event>)
    ensures Walk(c, a + b) == match Walk(c, a) case None => None case Some(d) => Walk(d, b)
    decreases |a|
  {
    if a == [] {
      assert a + b == b;
    } else {
      assert (a + b)[1..] == a[1..] + b;
      if Pool.Next(c, a[0]).Some? {
        WalkAppend(Pool.Next(c, a[0]).value, a[1..], b);
      }
    }
  }

  lemma WalkOne(c: Pool.Conn, e: Event)
    ensures Walk(c, [e]) == Pool.Next(c, e)
  {
    assert [e][1..] == [];
  }

  lemma WalkTwo(c: Pool.Conn, e: Event, f: Event)
    ensures Walk(c, [e, f]) == match Pool.Next(c, e) case None => None case Some(d) => Pool.Next(d, f)
  {
    assert [e, f] == [e] + [f];
    WalkAppend(c, [e], [f]);
    WalkOne(c, e);
    if Pool.Next(c, e).Some? {
      WalkOne(Pool.Next(c, e).value, f);
    }
  }

  const SERVING := Pool.Conn(Some(Pool.Command), Pool.Serving)
  const BACK := Pool.Conn(Some(Pool.Command), Pool.Idle)

  /** A turn takes the connection from a session back to it, or into the pool if it stops. */
  lemma {:induction false} TurnWalks(
    client: seq<Pkt>, backend: seq<Pkt>, sid: Byte, caps: Flags, rewrite: Rewrite, room: Room, ends: Ends, id: Id)
    ensures var t := ComTurn(client, backend, sid, caps, rewrite, room);
            Walk(SERVING, TurnEvents(client, t, ends, id)) == Some(if t.stop.None? then SERVING else BACK)
  {
    GentleTurn(client, backend, sid, caps, rewrite, room);
    StretchWalks(client, ComTurn(client, backend, sid, caps, rewrite, room), ends, id);
  }

  lemma {:induction false} StretchWalks(client: seq<Pkt>, t: Stretch, ends: Ends, id: Id)
    requires t.stop.None? ==>
               && client != [] && client[0].payload != [] && client[0].payload[0] <= COM_END
               && client[0].payload[0] != COM_QUIT && (client[0].payload[0] == COM_CHANGE_USER ==> t.requests != [])
    ensures Walk(SERVING, TurnEvents(client, t, ends, id)) == Some(if t.stop.None? then SERVING else BACK)
  {
    var es := TurnEvents(client, t, ends, id);
    if |es| == 1 {
      assert es == [es[0]];
      WalkOne(SERVING, es[0]);
    } else {
      assert es == [es[0], es[1]];
      WalkTwo(SERVING, es[0], es[1]);
    }
  }

  lemma {:induction false} SessionWalks(
    client: seq<Pkt>, backend: seq<Pkt>, sid: Byte, caps: Flags, rewrite: Rewrite, room: Room, ends: Ends, id: Id)
    ensures Walk(SERVING, SessionEvents(client, backend, sid, caps, rewrite, room, ends, id)) == Some(BACK)
    decreases |client|
  {
    var t := ComTurn(client, backend, sid, caps, rewrite, room);
    var es := TurnEvents(client, t, ends, id);
    TurnWalks(client, backend, sid, caps, rewrite, room, ends, id);
    if t.stop.Some? {
      assert es + [] == es;
    } else {
      var room1 := Less(room, |t.replies|);
      SessionWalks(t.client, t.backend, t.sid, caps, rewrite, room1, ends, id);
      WalkAppend(SERVING, es, SessionEvents(t.client, t.backend, t.sid, caps, rewrite, room1, ends, id));
    }
  }

  lemma LoginWalks(phase: Option<Pool.Phase>, end: Verdict, id: Id)
    ensures Walk(Pool.Conn(phase, Pool.Held), LoginEvents(phase, end, id)) ==
            Some(match end
                 case Unwound => Pool.Conn(phase, Pool.Idle)
                 case Denied => Pool.Conn(Some(Pool.Connection), Pool.Idle)
                 case Granted => SERVING)
  {
    var es := LoginEvents(phase, end, id);
    assert es == [es[0], es[1]];
    WalkTwo(Pool.Conn(phase, Pool.Held), es[0], es[1]);
  }

  /** Every outcome of `connect` is a path of the held connection through the events of the pool, back into the pool
      and with the phase that `connect` leaves it in. */
  lemma {:induction false} VisitWalks(
    phase: Option<Pool.Phase>, hello: Hello, client: seq<Pkt>, backend: seq<Pkt>, ends: Ends, caps: Flags,
    rewrite: Rewrite, room: Room, id: Id)
    ensures Walk(Pool.Conn(phase, Pool.Held), VisitEvents(phase, hello, client, backend, ends, caps, rewrite, room, id)) ==
            Some(Pool.Conn(Connect(phase, hello, client, backend, ends, caps, rewrite, room).phase, Pool.Idle))
  {
    var a := Authenticate(Pool.NeedsHandshake(phase), hello, client, backend, ends, room);
    var login := LoginEvents(phase, a.end, id);
    LoginWalks(phase, a.end, id);
    if a.end == Granted {
      WalkAppend(Pool.Conn(phase, Pool.Held), login, SessionEvents(a.client, a.backend, 0, caps, rewrite, Less(room, 2), ends, id));
      SessionWalks(a.client, a.backend, 0, caps, rewrite, Less(room, 2), ends, id);
    } else {
      assert login + [] == login;
    }
  }

  // ---------- and so every run of the pool can go on with it ----------

  ghost predicate Only(es: seq<Event>, id: Id)
  {
    forall k :: 0 <= k < |es| ==> es[k].id == id && !es[k].Created?
  }

  lemma {:induction false} WalkRuns(es: seq<Event>, id: Id, more: seq<Event>)
    requires Pool.Run(es).Some? && id in Pool.Run(es).value && Only(more, id)
    requires Walk(Pool.Run(es).value[id], more).Some?
    ensures Pool.Run(es + more) == Some(Pool.Run(es).value[id := Walk(Pool.Run(es).value[id], more).value])
    decreases |more|
  {
    var s := Pool.Run(es).value;
    if more == [] {
      assert es + more == es;
      assert s[id := s[id]] == s;
    } else {
      var e := more[0];
      Pool.Snoc(es, e);
      assert (es + [e]) + more[1..] == es + more;
      WalkRuns(es + [e], id, more[1..]);
      var d := Pool.Next(s[id], e).value;
      assert s[id := d][id := Walk(d, more[1..]).value] == s[id := Walk(d, more[1..]).value];
    }
  }

  lemma {:induction false} SessionOnly(
    client: seq<Pkt>, backend: seq<Pkt>, sid: Byte, caps: Flags, rewrite: Rewrite, room: Room, ends: Ends, id: Id)
    ensures Only(SessionEvents(client, backend, sid, caps, rewrite, room, ends, id), id)
    decreases |client|
  {
    var t := ComTurn(client, backend, sid, caps, rewrite, room);
    if t.stop.None? {
      SessionOnly(t.client, t.backend, t.sid, caps, rewrite, Less(room, |t.replies|), ends, id);
    }
  }

  /** Whatever the pool has done before, if a client holds a connection then its visit is a continuation of the run,
      at the end of which that connection is back with the phase that `connect` left it in and every other is
      as it was: what holds of all runs of the pool holds of all sequences of visits. */
  lemma {:induction false} VisitRuns(
    es: seq<Event>, id: Id, hello: Hello, client: seq<Pkt>, backend: seq<Pkt>, ends: Ends, caps: Flags,
    rewrite: Rewrite, room: Room)
    requires Pool.Run(es).Some? && id in Pool.Run(es).value && Pool.Run(es).value[id].place == Pool.Held
    ensures var (s, phase) := (Pool.Run(es).value, Pool.Run(es).value[id].phase);
            var visit := VisitEvents(phase, hello, client, backend, ends, caps, rewrite, room, id);
            Pool.Run(es + visit) ==
            Some(s[id := Pool.Conn(Connect(phase, hello, client, backend, ends, caps, rewrite, room).phase, Pool.Idle)])
  {
    var phase := Pool.Run(es).value[id].phase;
    var a := Authenticate(Pool.NeedsHandshake(phase), hello, client, backend, ends, room);
    VisitWalks(phase, hello, client, backend, ends, caps, rewrite, room, id);
    SessionOnly(a.client, a.backend, 0, caps, rewrite, Less(room, 2), ends, id);
    WalkRuns(es, id, VisitEvents(phase, hello, client, backend, ends, caps, rewrite, room, id));
  }

  // ---------- visits that spoil nothing ----------

  /** The session ended with COM_QUIT, or with a client that went away at the head of the loop. */
  predicate Gentle(stop: Option<Stop>)
  {
    stop == Some(Quit) || stop == Some(NoCommand)
  }

  /** Nothing is spoilt by these events, and the connection is authenticated at the end of them. */
  ghost predicate Sound(es: seq<Event>, n: nat, id: Id)
  {
    Pool.CalmFrom(es, n) && Pool.LatestAuth(es, id) == Pool.Won
  }

  lemma SoundForward(es: seq<Event>, n: nat, id: Id)
    requires n <= |es| && Sound(es, n, id)
    ensures Sound(es + [Pool.Forwarded(id)], n, id) && Sound(es + [Pool.Returned(id)], n, id)
  {
    Pool.Snoc(es, Pool.Forwarded(id));
    Pool.Snoc(es, Pool.Returned(id));
  }

  lemma SoundChange(es: seq<Event>, n: nat, id: Id)
    requires n <= |es| && Sound(es, n, id)
    ensures Sound(es + [Pool.ChangeAsked(id), Pool.ChangeSettled(id, true)], n, id)
  {
    Pool.Snoc(es, Pool.ChangeAsked(id));
    Pool.Snoc(es + [Pool.ChangeAsked(id)], Pool.ChangeSettled(id, true));
    assert es + [Pool.ChangeAsked(id)] + [Pool.ChangeSettled(id, true)]
           == es + [Pool.ChangeAsked(id), Pool.ChangeSettled(id, true)];
  }

  lemma {:induction false} TurnSound(
    es: seq<Event>, n: nat, client: seq<Pkt>, backend: seq<Pkt>, sid: Byte, caps: Flags, rewrite: Rewrite, room: Room,
    ends: Ends, id: Id)
    requires n <= |es| && Sound(es, n, id)
    requires var stop := AsStopped(ComTurn(client, backend, sid, caps, rewrite, room).stop, ends);
             stop.None? || Gentle(stop)
    ensures Sound(es + TurnEvents(client, ComTurn(client, backend, sid, caps, rewrite, room), ends, id), n, id)
  {
    var t := ComTurn(client, backend, sid, caps, rewrite, room);
    SoundForward(es, n, id);
    SoundChange(es, n, id);
    GentleTurn(client, backend, sid, caps, rewrite, room);
    assert [Pool.Forwarded(id)] + [] == [Pool.Forwarded(id)];
  }

  /** Only a turn without a command, or with COM_QUIT, stops gently. */
  lemma {:induction false} GentleTurn(
    client: seq<Pkt>, backend: seq<Pkt>, sid: Byte, caps: Flags, rewrite: Rewrite, room: Room)
    ensures var t := ComTurn(client, backend, sid, caps, rewrite, room);
            && (Gentle(t.stop) ==> client == [] || (client[0].payload != [] && client[0].payload[0] == COM_QUIT))
            && (t.stop.None? ==> client != [] && client[0].payload != [] && client[0].payload[0] <= COM_END
                                 && client[0].payload[0] != COM_QUIT)
            && (t.stop.None? && client[0].payload[0] == COM_CHANGE_USER ==> t.requests != [])
  {
  }

  lemma {:induction false} SessionSound(
    es: seq<Event>, n: nat, client: seq<Pkt>, backend: seq<Pkt>, sid: Byte, caps: Flags, rewrite: Rewrite, room: Room,
    ends: Ends, id: Id)
    requires n <= |es| && Sound(es, n, id)
    requires Gentle(AsStopped(Loop(client, backend, sid, caps, rewrite, room).stop, ends))
    ensures Sound(es + SessionEvents(client, backend, sid, caps, rewrite, room, ends, id), n, id)
    decreases |client|
  {
    var t := ComTurn(client, backend, sid, caps, rewrite, room);
    var turn := TurnEvents(client, t, ends, id);
    TurnSound(es, n, client, backend, sid, caps, rewrite, room, ends, id);
    if t.stop.Some? {
      assert turn + [] == turn;
    } else {
      var room1 := Less(room, |t.replies|);
      SessionSound(es + turn, n, t.client, t.backend, t.sid, caps, rewrite, room1, ends, id);
      Associative(es, turn, SessionEvents(t.client, t.backend, t.sid, caps, rewrite, room1, ends, id));
    }
  }

  /** A visit that is let in, and whose session ends with COM_QUIT or with a client that goes away at the head of the
      loop, spoils nothing: with `PoolSafe`, a pool that sees only such visits is safe. */
  lemma {:induction false} VisitSpoilsNothing(
    es: seq<Event>, id: Id, phase: Option<Pool.Phase>, hello: Hello, client: seq<Pkt>, backend: seq<Pkt>, ends: Ends,
    caps: Flags, rewrite: Rewrite, room: Room)
    requires Gentle(Connect(phase, hello, client, backend, ends, caps, rewrite, room).stop)
    ensures Pool.CalmFrom(es + VisitEvents(phase, hello, client, backend, ends, caps, rewrite, room, id), |es|)
  {
    var a := Authenticate(Pool.NeedsHandshake(phase), hello, client, backend, ends, room);
    var login := LoginEvents(phase, a.end, id);
    var session := SessionEvents(a.client, a.backend, 0, caps, rewrite, Less(room, 2), ends, id);
    LoginSound(es, phase, id);
    SessionSound(es + login, |es|, a.client, a.backend, 0, caps, rewrite, Less(room, 2), ends, id);
    Associative(es, login, session);
  }

  lemma LoginSound(es: seq<Event>, phase: Option<Pool.Phase>, id: Id)
    ensures Sound(es + LoginEvents(phase, Granted, id), |es|, id)
  {
    var login := LoginEvents(phase, Granted, id);
    Pool.Snoc(es, login[0]);
    Pool.Snoc(es + [login[0]], login[1]);
    assert es + [login[0]] + [login[1]] == es + login;
    assert Pool.CalmFrom(es, |es|);
  }
}
