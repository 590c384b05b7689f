/** COM_CHANGE_USER: the relay of authentication rounds between backend and client. */
module ChangeUser {
  import opened ByteStrings
  import opened Packets
  import opened PacketIO
  import opened Streams
  import opened Responses
  import opened Forwarders

  /** One packet passed on, and in which direction. */
  datatype Hop = ToClient(pkt: Pkt) | ToBackend(pkt: Pkt)

  /** How a relay ends: the backend grants or refuses, the client's answer begins like an error, either side has no
      packet where one is needed, the client does not take a packet, or a reader panics. */
  datatype End = Accepted | Refused | Cancelled | BackendGone | ClientGone | Unwritten | Crashing

  /** Where a packet is needed and none comes, the reader may have failed or panicked. */
  function AsEnded(end: End, client: Ending, backend: Ending): End
  {
    if (end == BackendGone && backend == Crashed) || (end == ClientGone && client == Crashed) then Crashing else end
  }

  /** How a relay ends (not at all, for a single turn of its loop), what it leaves unread on either
      side, and the hops it made, in order. */
  datatype Relay<T> = Relay(end: T, backend: seq<Pkt>, client: seq<Pkt>, hops: seq<Hop>)

  /** One turn of the loop of `ChangeUserForwarder::forward`, for a client with so much room. */
  function Turn(backend: seq<Pkt>, client: seq<Pkt>, room: Room): (r: Relay<Option<End>>)
    ensures r.end == None ==> |r.backend| < |backend|
    ensures |r.client| <= |client|
  {
    if backend == [] then Relay(Some(BackendGone), backend, client, [])
    else if room == Some(0) then Relay(Some(Unwritten), backend[1..], client, []) else
    var b := backend[0];
    if IsErr(b.payload) then Relay(Some(Refused), backend[1..], client, [ToClient(b)])
    else if IsOk(b.payload) then Relay(Some(Accepted), backend[1..], client, [ToClient(b)])
    else if client == [] then Relay(Some(ClientGone), backend[1..], client, [ToClient(b)])
    else
      var end := if IsErr(client[0].payload) then Some(Cancelled) else None;
      Relay(end, backend[1..], client[1..], [ToClient(b), ToBackend(client[0])])
  }

  /** `ChangeUserForwarder::forward` on the packets either side delivers. */
  function Dialogue(backend: seq<Pkt>, client: seq<Pkt>, room: Room): (r: Relay<End>)
    ensures |r.client| <= |client| && r.end != Crashing
    decreases |backend|
  {
    var t := Turn(backend, client, room);
    if t.end.Some? then Relay(t.end.value, t.backend, t.client, t.hops)
    else var r := Dialogue(t.backend, t.client, Less(room, 1)); r.(hops := t.hops + r.hops)
  }

  function SentToClient(hops: seq<Hop>): seq<Pkt>
  {
    if hops == [] then []
    else (if hops[0].ToClient? then [hops[0].pkt] else []) + SentToClient(hops[1..])
  }

  function SentToBackend(hops: seq<Hop>): seq<Pkt>
  {
    if hops == [] then []
    else (if hops[0].ToBackend? then [hops[0].pkt] else []) + SentToBackend(hops[1..])
  }

  lemma {:induction false} SentToClientAppend(a: seq<Hop>, b: seq<Hop>)
    ensures SentToClient(a + b) == SentToClient(a) + SentToClient(b)
  {
    if a == [] {
      assert a + b == b;
    } else {
      assert (a + b)[1..] == a[1..] + b;
      SentToClientAppend(a[1..], b);
      Associative(if a[0].ToClient? then [a[0].pkt] else [], SentToClient(a[1..]), SentToClient(b));
    }
  }

  lemma {:induction false} SentToBackendAppend(a: seq<Hop>, b: seq<Hop>)
    ensures SentToBackend(a + b) == SentToBackend(a) + SentToBackend(b)
  {
    if a == [] {
      assert a + b == b;
    } else {
      assert (a + b)[1..] == a[1..] + b;
      SentToBackendAppend(a[1..], b);
      Associative(if a[0].ToBackend? then [a[0].pkt] else [], SentToBackend(a[1..]), SentToBackend(b));
    }
  }

  lemma SentAppend(a: seq<Hop>, b: seq<Hop>)
    ensures SentToClient(a + b) == SentToClient(a) + SentToClient(b)
    ensures SentToBackend(a + b) == SentToBackend(a) + SentToBackend(b)
  {
    SentToClientAppend(a, b);
    SentToBackendAppend(a, b);
  }

  lemma SentOne(h: Hop)
    ensures SentToClient([h]) == (if h.ToClient? then [h.pkt] else [])
    ensures SentToBackend([h]) == (if h.ToBackend? then [h.pkt] else [])
  {
    assert [h][1..] == [];
  }

  ghost predicate Ready(w: PacketWriter)
    reads w
  {
    w.Valid() && w.buf == [] && w.flushed == |w.sent|
  }

  /** Where a relay stands that has made some hops, and whether and how it has ended: what is unread on either side,
      what was sent since the given logs, and the room the client has left. */
  ghost predicate Relayed(
    end: Option<End>, hops: seq<Hop>, backend: seq<Pkt>, client: seq<Pkt>, clientReader: PacketReader,
    clientWriter: PacketWriter, backendWriter: PacketWriter, backendReader: PacketReader, room: Room,
    toClient: seq<Pkt>, toBackend: seq<Pkt>, sid: Byte)
    reads clientReader, clientWriter, backendWriter, backendReader
  {
    && clientWriter.buf == [] && (end != Some(Unwritten) ==> Ready(clientWriter))
    && Ready(backendWriter) && backendWriter.room == None
    && (end != Some(Crashing) ==> clientReader.Valid() && backendReader.Valid())
    && backendReader.pending == backend && clientReader.pending == client
    && clientWriter.log == toClient + SentToClient(hops) && clientWriter.room == Less(room, |SentToClient(hops)|)
    && backendWriter.log == toBackend + SentToBackend(hops)
    && backendWriter.sid == SidAfterSending(sid, SentToBackend(hops))
  }

  /** Hops made in two goes. */
  lemma RelayedMore(
    end: Option<End>, hops: seq<Hop>, more: seq<Hop>, backend: seq<Pkt>, client: seq<Pkt>, clientReader: PacketReader,
    clientWriter: PacketWriter, backendWriter: PacketWriter, backendReader: PacketReader, room: Room,
    toClient: seq<Pkt>, toBackend: seq<Pkt>, sid: Byte)
    requires Relayed(end, more, backend, client, clientReader, clientWriter, backendWriter, backendReader,
                     Less(room, |SentToClient(hops)|), toClient + SentToClient(hops), toBackend + SentToBackend(hops),
                     SidAfterSending(sid, SentToBackend(hops)))
    ensures Relayed(end, hops + more, backend, client, clientReader, clientWriter, backendWriter, backendReader,
                    room, toClient, toBackend, sid)
  {
    SentAppend(hops, more);
    LessLess(room, |SentToClient(hops)|, |SentToClient(more)|);
    SidAfterBoth(sid, SentToBackend(hops), SentToBackend(more));
    Associative(toClient, SentToClient(hops), SentToClient(more));
    Associative(toBackend, SentToBackend(hops), SentToBackend(more));
  }

  lemma NothingSent(log: seq<Pkt>)
    ensures SentToClient([]) == [] && SentToBackend([]) == [] && log + [] == log
  {
  }

  /** How the relay ends that does not get a packet across, if a missing one ends it that way. */
  function Missed(p: Passing, gone: End): End
    requires !p.Passed?
  {
    if p.NotWritten? then Unwritten else if p.ending == Crashed then Crashing else gone
  }

  method PassToClient(
    clientReader: PacketReader, clientWriter: PacketWriter, backendWriter: PacketWriter, backendReader: PacketReader)
    returns (p: Passing)
    requires Ready(clientWriter) && Ready(backendWriter) && clientReader.Valid() && backendReader.Valid()
    requires clientReader != backendReader && clientWriter != backendWriter && backendWriter.room == None
    modifies clientWriter, backendReader
    ensures backendReader.ending == old(backendReader.ending) && (p.NotRead? ==> p.ending == backendReader.ending)
    ensures p.NotRead? <==> old(backendReader.pending) == []
    ensures p.NotWritten? <==> old(backendReader.pending) != [] && old(clientWriter.room) == Some(0)
    ensures p.Passed? ==> p.pkt == old(backendReader.pending)[0]
    ensures Relayed(if p.Passed? then None else Some(Missed(p, BackendGone)), if p.Passed? then [ToClient(p.pkt)] else [],
                    if p.NotRead? then [] else old(backendReader.pending)[1..], clientReader.pending, clientReader,
                    clientWriter, backendWriter, backendReader, old(clientWriter.room), old(clientWriter.log),
                    backendWriter.log, backendWriter.sid)
  {
    NothingSent(clientWriter.log);
    NothingSent(backendWriter.log);
    p := ForwardOnePacket(clientWriter, backendReader, true);
    if p.Passed? {
      SentOne(ToClient(p.pkt));
    }
  }

  method PassToBackend(
    clientReader: PacketReader, clientWriter: PacketWriter, backendWriter: PacketWriter, backendReader: PacketReader)
    returns (p: Passing)
    requires Ready(clientWriter) && Ready(backendWriter) && clientReader.Valid() && backendReader.Valid()
    requires clientReader != backendReader && clientWriter != backendWriter && backendWriter.room == None
    modifies backendWriter, clientReader
    ensures clientReader.ending == old(clientReader.ending) && (p.NotRead? ==> p.ending == clientReader.ending)
    ensures p.Passed? <==> old(clientReader.pending) != []
    ensures p.Passed? ==> p.pkt == old(clientReader.pending)[0]
    ensures !p.NotWritten?
    ensures Relayed(if p.Passed? then None else Some(Missed(p, ClientGone)), if p.Passed? then [ToBackend(p.pkt)] else [],
                    backendReader.pending, if p.Passed? then old(clientReader.pending)[1..] else [], clientReader,
                    clientWriter, backendWriter, backendReader, clientWriter.room, clientWriter.log,
                    old(backendWriter.log), old(backendWriter.sid))
  {
    NothingSent(clientWriter.log);
    NothingSent(backendWriter.log);
    p := ForwardOnePacket(backendWriter, clientReader, true);
    if p.Passed? {
      SentOne(ToBackend(p.pkt));
    }
  }

  /** One turn: each packet is written to the other side unchanged and flushed at once. */
  method ForwardTurn(
    clientReader: PacketReader, clientWriter: PacketWriter, backendWriter: PacketWriter, backendReader: PacketReader)
    returns (end: Option<End>, ghost hops: seq<Hop>)
    requires Ready(clientWriter) && Ready(backendWriter) && clientReader.Valid() && backendReader.Valid()
    requires clientReader != backendReader && clientWriter != backendWriter && backendWriter.room == None
    modifies clientReader, clientWriter, backendWriter, backendReader
    ensures clientReader.ending == old(clientReader.ending) && backendReader.ending == old(backendReader.ending)
    ensures var t := Turn(old(backendReader.pending), old(clientReader.pending), old(clientWriter.room));
            && end == (if t.end.None? then None
                       else Some(AsEnded(t.end.value, clientReader.ending, backendReader.ending)))
            && hops == t.hops
            && Relayed(end, hops, t.backend, t.client, clientReader, clientWriter, backendWriter, backendReader,
                       old(clientWriter.room), old(clientWriter.log), old(backendWriter.log), old(backendWriter.sid))
  {
    ghost var room, cwLog, bwLog, sid := clientWriter.room, clientWriter.log, backendWriter.log, backendWriter.sid;
    var b := PassToClient(clientReader, clientWriter, backendWriter, backendReader);
    if !b.Passed? {
      return Some(Missed(b, BackendGone)), [];
    }
    hops := [ToClient(b.pkt)];
    if IsErr(b.pkt.payload) {
      return Some(Refused), hops;
    } else if IsOk(b.pkt.payload) {
      return Some(Accepted), hops;
    }
    var c := PassToBackend(clientReader, clientWriter, backendWriter, backendReader);
    end := if !c.Passed? then Some(Missed(c, ClientGone)) else if IsErr(c.pkt.payload) then Some(Cancelled) else None;
    ghost var more := if c.Passed? then [ToBackend(c.pkt)] else [];
    RelayedMore(end, hops, more, backendReader.pending, clientReader.pending, clientReader, clientWriter, backendWriter,
                backendReader, room, cwLog, bwLog, sid);
    hops := hops + more;
  }

  lemma TurnSends(backend: seq<Pkt>, client: seq<Pkt>, room: Room)
    requires Turn(backend, client, room).end.None?
    ensures |SentToClient(Turn(backend, client, room).hops)| == 1
  {
    var a, b := ToClient(backend[0]), ToBackend(client[0]);
    SentOne(a);
    SentOne(b);
    SentAppend([a], [b]);
    assert Turn(backend, client, room).hops == [a] + [b];
  }

  /** `ChangeUserForwarder::forward`: the hops are those of the dialogue, in its order. */
  method ForwardChangeUser(
    clientReader: PacketReader, clientWriter: PacketWriter, backendWriter: PacketWriter, backendReader: PacketReader)
    returns (end: End, ghost hops: seq<Hop>)
    requires Ready(clientWriter) && Ready(backendWriter) && clientReader.Valid() && backendReader.Valid()
    requires clientReader != backendReader && clientWriter != backendWriter && backendWriter.room == None
    modifies clientReader, clientWriter, backendWriter, backendReader
    ensures clientReader.ending == old(clientReader.ending) && backendReader.ending == old(backendReader.ending)
    ensures var r := Dialogue(old(backendReader.pending), old(clientReader.pending), old(clientWriter.room));
            && end == AsEnded(r.end, clientReader.ending, backendReader.ending) && hops == r.hops
            && Relayed(Some(end), hops, r.backend, r.client, clientReader, clientWriter, backendWriter, backendReader,
                       old(clientWriter.room), old(clientWriter.log), old(backendWriter.log), old(backendWriter.sid))
  {
    ghost var bs, cs, room := backendReader.pending, clientReader.pending, clientWriter.room;
    ghost var cwLog, bwLog, sid := clientWriter.log, backendWriter.log, backendWriter.sid;
    ghost var goal := Dialogue(bs, cs, room);
    var turn: Option<End> := None;
    hops := [];
    assert hops + goal.hops == goal.hops;
    NothingSent(cwLog);
    NothingSent(bwLog);
    while turn.None?
      invariant clientReader.ending == old(clientReader.ending) && backendReader.ending == old(backendReader.ending)
      invariant Relayed(turn, hops, bs, cs, clientReader, clientWriter, backendWriter, backendReader, room, cwLog, bwLog, sid)
      invariant if turn.None? then Continues(hops, bs, cs, clientWriter.room, goal)
                else goal == Relay(goal.end, bs, cs, hops)
                     && turn.value == AsEnded(goal.end, clientReader.ending, backendReader.ending)
      decreases turn.None?, |bs|
    {
      ghost var t := Turn(bs, cs, clientWriter.room);
      TurnContinues(hops, bs, cs, clientWriter.room, goal);
      if t.end.None? {
        TurnSends(bs, cs, clientWriter.room);
      }
      ghost var more: seq<Hop>;
      turn, more := ForwardTurn(clientReader, clientWriter, backendWriter, backendReader);
      RelayedMore(turn, hops, more, t.backend, t.client, clientReader, clientWriter, backendWriter, backendReader,
                  room, cwLog, bwLog, sid);
      hops, bs, cs := hops + more, t.backend, t.client;
    }
    end := turn.value;
  }

  /** The relay has made these hops and goes on from here. */
  ghost predicate Continues(hops: seq<Hop>, backend: seq<Pkt>, client: seq<Pkt>, room: Room, goal: Relay<End>)
  {
    var r := Dialogue(backend, client, room);
    r.end == goal.end && r.backend == goal.backend && r.client == goal.client && hops + r.hops == goal.hops
  }

  lemma TurnContinues(hops: seq<Hop>, backend: seq<Pkt>, client: seq<Pkt>, room: Room, goal: Relay<End>)
    requires Continues(hops, backend, client, room, goal)
    ensures var t := Turn(backend, client, room);
            if t.end.Some? then goal == Relay(t.end.value, t.backend, t.client, hops + t.hops)
            else Continues(hops + t.hops, t.backend, t.client, Less(room, 1), goal)
  {
    var t := Turn(backend, client, room);
    if t.end.None? {
      Associative(hops, t.hops, Dialogue(t.backend, t.client, Less(room, 1)).hops);
    }
  }

  // ---------- rounds ----------

  /** A round of authentication: a challenge of the backend and the client's answer. */
  datatype Round = Round(challenge: Pkt, answer: Pkt)

  ghost predicate ProperRounds(rounds: seq<Round>)
  {
    forall k :: 0 <= k < |rounds| ==>
      && !ErrPacket(rounds[k].challenge.payload) && !OkHeaded(rounds[k].challenge.payload)
      && !ErrPacket(rounds[k].answer.payload)
  }

  function Challenges(rounds: seq<Round>): seq<Pkt>
  {
    if rounds == [] then [] else [rounds[0].challenge] + Challenges(rounds[1..])
  }

  function Answers(rounds: seq<Round>): seq<Pkt>
  {
    if rounds == [] then [] else [rounds[0].answer] + Answers(rounds[1..])
  }

  function HopsOf(rounds: seq<Round>): seq<Hop>
  {
    if rounds == [] then [] else [ToClient(rounds[0].challenge), ToBackend(rounds[0].answer)] + HopsOf(rounds[1..])
  }

  lemma FirstRound(r: Round, b: seq<Pkt>, c: seq<Pkt>, room: Room)
    requires !ErrPacket(r.challenge.payload) && !OkHeaded(r.challenge.payload) && !ErrPacket(r.answer.payload) && room != Some(0)
    ensures Turn([r.challenge] + b, [r.answer] + c, room) == Relay(None, b, c, [ToClient(r.challenge), ToBackend(r.answer)])
  {
    assert ([r.challenge] + b)[1..] == b && ([r.answer] + c)[1..] == c;
  }

  /** The relay goes through any number of rounds with strict alternation, and then goes on with what
      follows on either side. */
  lemma {:induction false} RoundsRelayed(rounds: seq<Round>, b: seq<Pkt>, c: seq<Pkt>, room: Room)
    requires ProperRounds(rounds) && Takes(room, |rounds|)
    ensures Continues(HopsOf(rounds), b, c, Less(room, |rounds|),
                      Dialogue(Challenges(rounds) + b, Answers(rounds) + c, room))
  {
    if rounds == [] {
      assert Challenges(rounds) + b == b && Answers(rounds) + c == c;
      assert HopsOf(rounds) + Dialogue(b, c, room).hops == Dialogue(b, c, room).hops;
    } else {
      var b1, c1, room1 := Challenges(rounds[1..]) + b, Answers(rounds[1..]) + c, Less(room, |rounds|);
      LessLess(room, 1, |rounds| - 1);
      RoundsRelayed(rounds[1..], b, c, Less(room, 1));
      FirstRound(rounds[0], b1, c1, room);
      Associative([rounds[0].challenge], Challenges(rounds[1..]), b);
      Associative([rounds[0].answer], Answers(rounds[1..]), c);
      Associative([ToClient(rounds[0].challenge), ToBackend(rounds[0].answer)], HopsOf(rounds[1..]), Dialogue(b, c, room1).hops);
    }
  }

  /** For any number of rounds the relay alternates strictly, one challenge to the client and one
      answer to the backend, stops exactly at the verdict, and leaves alone whatever follows on
      either side. */
  lemma DialogueExact(rounds: seq<Round>, verdict: Pkt, b: seq<Pkt>, c: seq<Pkt>, room: Room)
    requires ProperRounds(rounds) && (OkHeaded(verdict.payload) || ErrPacket(verdict.payload)) && Takes(room, |rounds| + 1)
    ensures Dialogue(Challenges(rounds) + ([verdict] + b), Answers(rounds) + c, room) ==
            Relay(if OkHeaded(verdict.payload) then Accepted else Refused, b, c, HopsOf(rounds) + [ToClient(verdict)])
  {
    RoundsRelayed(rounds, [verdict] + b, c, room);
    assert ([verdict] + b)[1..] == b;
  }

  /** A client that goes away when it owes an answer: the relay has passed on one challenge more than
      answers, and the backend goes on waiting for the missing one. */
  lemma GoneExact(rounds: seq<Round>, challenge: Pkt, b: seq<Pkt>, room: Room)
    requires ProperRounds(rounds) && !ErrPacket(challenge.payload) && !OkHeaded(challenge.payload) && Takes(room, |rounds| + 1)
    ensures Dialogue(Challenges(rounds) + ([challenge] + b), Answers(rounds), room) ==
            Relay(ClientGone, b, [], HopsOf(rounds) + [ToClient(challenge)])
  {
    RoundsRelayed(rounds, [challenge] + b, [], room);
    assert Answers(rounds) + [] == Answers(rounds);
    assert ([challenge] + b)[1..] == b;
  }

  /** An answer that begins with 0xff is taken for an error and ends the relay, though the backend has
      yet to give its verdict on it. */
  lemma ErrAnswerExact(rounds: seq<Round>, challenge: Pkt, answer: Pkt, b: seq<Pkt>, c: seq<Pkt>, room: Room)
    requires ProperRounds(rounds) && !ErrPacket(challenge.payload) && !OkHeaded(challenge.payload) && ErrPacket(answer.payload)
    requires Takes(room, |rounds| + 1)
    ensures Dialogue(Challenges(rounds) + ([challenge] + b), Answers(rounds) + ([answer] + c), room) ==
            Relay(Cancelled, b, c, HopsOf(rounds) + [ToClient(challenge), ToBackend(answer)])
  {
    RoundsRelayed(rounds, [challenge] + b, [answer] + c, room);
    assert ([challenge] + b)[1..] == b && ([answer] + c)[1..] == c;
  }

  /** A client that stops taking packets after some rounds: the packet that it does not take, be it a challenge or
      the verdict, has been read and is lost. */
  lemma UnwrittenExact(rounds: seq<Round>, x: Pkt, b: seq<Pkt>, c: seq<Pkt>)
    requires ProperRounds(rounds)
    ensures Dialogue(Challenges(rounds) + ([x] + b), Answers(rounds) + c, Some(|rounds|)) ==
            Relay(Unwritten, b, c, HopsOf(rounds))
  {
    RoundsRelayed(rounds, [x] + b, c, Some(|rounds|));
    assert ([x] + b)[1..] == b;
    assert HopsOf(rounds) + [] == HopsOf(rounds);
  }

  /** A backend that goes away instead of sending a challenge or a verdict. */
  lemma BackendGoneExact(rounds: seq<Round>, c: seq<Pkt>, room: Room)
    requires ProperRounds(rounds) && Takes(room, |rounds|)
    ensures Dialogue(Challenges(rounds), Answers(rounds) + c, room) == Relay(BackendGone, [], c, HopsOf(rounds))
  {
    RoundsRelayed(rounds, [], c, room);
    assert Challenges(rounds) + [] == Challenges(rounds);
    assert HopsOf(rounds) + [] == HopsOf(rounds);
  }

  /** Only a side that is gone can turn out to have panicked, and does exactly if its own stream ends so. */
  lemma EndsAsStreams(end: End, client: Ending, backend: Ending)
    requires end != Crashing
    ensures AsEnded(end, client, backend) == Crashing <==>
            (end == BackendGone && backend == Crashed) || (end == ClientGone && client == Crashed)
    ensures AsEnded(end, client, backend) != Crashing ==> AsEnded(end, client, backend) == end
  {
  }
}
