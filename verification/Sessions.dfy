/** The command loop: every command of a session and the replies to it, over the four ends of the
    client's and the backend's connection. */
module Sessions {
  import opened ByteStrings
  import opened Packets
  import opened Streams
  import opened PacketIO
  import opened QueryRuns
  import opened Forwarders
  import opened PreparedStatements
  import opened ChangeUser

  const COM_QUIT: Byte := 1
  const COM_QUERY: Byte := 3
  const COM_FIELD_LIST: Byte := 4
  const COM_PROCESS_INFO: Byte := 10
  const COM_CHANGE_USER: Byte := 17
  const COM_STMT_PREPARE: Byte := 22
  const COM_STMT_EXECUTE: Byte := 23
  const COM_STMT_SEND_LONG_DATA: Byte := 24
  const COM_STMT_CLOSE: Byte := 25
  const COM_STMT_FETCH: Byte := 28
  const COM_RESET_CONNECTION: Byte := 31
  const COM_END: Byte := 32

  /** What `write_reset_connection` sends: the command and the connection id 8. */
  const RESET_BYTES: Bytes := [COM_RESET_CONNECTION, 8, 0, 0, 0]

  /** Why a session stops: COM_QUIT, no further command, a COM_CHANGE_USER refused by the backend or cut short
      by an answer that begins like an error, no packet of the client or of the backend where one is needed, a
      packet that the client does not take, a panic. */
  datatype Stop = Quit | NoCommand | Rejected | BrokenOff | ClientLost | BackendLost | NotTaken | Panicking

  /** How the streams of both sides end behind their packets. */
  datatype Ends = Ends(client: Ending, backend: Ending)

  /** Where a packet is needed and none comes, the reader may have failed or panicked. */
  function AsStopped(stop: Option<Stop>, ends: Ends): Option<Stop>
  {
    match stop
    case Some(NoCommand) => if ends.client == Crashed then Some(Panicking) else stop
    case Some(ClientLost) => if ends.client == Crashed then Some(Panicking) else stop
    case Some(BackendLost) => if ends.backend == Crashed then Some(Panicking) else stop
    case _ => stop
  }

  /** A stretch of a session: whether it stopped, what it leaves unread on either side, the sequence
      id the backend writer is left with, and what was sent to the backend and to the client. */
  datatype Stretch = Stretch(
    stop: Option<Stop>, client: seq<Pkt>, backend: seq<Pkt>, sid: Byte, requests: seq<Pkt>, replies: seq<Pkt>)

  /** The rewriting of COM_CHANGE_USER is the library's; `None` stands for its panic. */
  type Rewrite = Bytes -> Option<Bytes>

  predicate AsksForResults(code: Byte)
  {
    code == COM_QUERY || code == COM_STMT_EXECUTE || code == COM_PROCESS_INFO
  }

  predicate AsksForList(code: Byte)
  {
    code == COM_FIELD_LIST || code == COM_STMT_FETCH
  }

  /** The forwarder that `on_com` picks for a command, on the packets the backend delivers. */
  function Reply(code: Byte, backend: seq<Pkt>, caps: Flags): (r: Run)
    ensures !r.Starved? ==> |r.rest| < |backend|
  {
    if code == COM_STMT_PREPARE then Prepare(backend, caps)
    else if AsksForResults(code) then Query(backend, caps)
    else if AsksForList(code) then UntilEnd(backend, caps)
    else Counted(backend, 1)
  }

  function Halt(stop: Stop, client: seq<Pkt>, backend: seq<Pkt>, sid: Byte): Stretch
  {
    Stretch(Some(stop), client, backend, sid, [], [])
  }

  function StopOf(run: Run, pkts: seq<Pkt>, room: Room): Option<Stop>
  {
    if Fails(run, pkts, room) then Some(NotTaken)
    else match run
         case Finished(_, _) => None
         case Starved => Some(BackendLost)
         case Panicked(_) => Some(Panicking)
  }

  /** One turn of the loop of `on_com`, for a command that is forwarded unchanged. */
  function Plain(cmd: Pkt, client: seq<Pkt>, backend: seq<Pkt>, caps: Flags, room: Room): (t: Stretch)
    requires cmd.payload != []
    ensures t.client == client
  {
    var code, sid := cmd.payload[0], SidAfter(cmd.sid, cmd.payload);
    if code == COM_STMT_CLOSE then
      Stretch(if |cmd.payload| < 5 then Some(Panicking) else None, client, backend, sid, [cmd], [])
    else
      var run := Reply(code, backend, caps);
      Stretch(StopOf(run, backend, room), client, LeftBy(run, backend, room), sid, [cmd], SentBy(run, backend, room))
  }

  /** COM_QUIT is not forwarded: the connection is reset instead and the reply to that is swallowed.
      The reset goes out under whatever sequence id the backend writer was left with. */
  function Resetting(client: seq<Pkt>, backend: seq<Pkt>, sid: Byte): Stretch
  {
    var stop, rest := if backend == [] then BackendLost else Quit, if backend == [] then [] else backend[1..];
    Stretch(Some(stop), client, rest, SidAfter(sid, RESET_BYTES), [Pkt(sid, RESET_BYTES)], [])
  }

  function StopAfter(end: End): Option<Stop>
  {
    match end
    case Accepted => None
    case Refused => Some(Rejected)
    case Cancelled => Some(BrokenOff)
    case BackendGone => Some(BackendLost)
    case ClientGone => Some(ClientLost)
    case Unwritten => Some(NotTaken)
    case Crashing => Some(Panicking)
  }

  function Changing(cmd: Pkt, client: seq<Pkt>, backend: seq<Pkt>, sid: Byte, rewrite: Rewrite, room: Room): (t: Stretch)
    ensures t.stop.None? ==> |t.client| <= |client|
  {
    match rewrite(cmd.payload)
    case None => Halt(Panicking, client, backend, sid)
    case Some(p) =>
      var r := Dialogue(backend, client, room);
      var requests := [Pkt(cmd.sid, p)] + SentToBackend(r.hops);
      Stretch(StopAfter(r.end), r.client, r.backend, SidAfterSending(sid, requests), requests, SentToClient(r.hops))
  }

  function ComTurn(
    client: seq<Pkt>, backend: seq<Pkt>, sid: Byte, caps: Flags, rewrite: Rewrite, room: Room): (t: Stretch)
    ensures t.stop.None? ==> |t.client| < |client|
  {
    if client == [] then Halt(NoCommand, client, backend, sid) else
    var cmd := client[0];
    if cmd.payload == [] || cmd.payload[0] > COM_END then Halt(Panicking, client[1..], backend, sid)
    else if cmd.payload[0] == COM_QUIT then Resetting(client[1..], backend, sid)
    else if cmd.payload[0] == COM_CHANGE_USER then Changing(cmd, client[1..], backend, sid, rewrite, room)
    else Plain(cmd, client[1..], backend, caps, room)
  }

  function Then(t: Stretch, u: Stretch): Stretch
  {
    u.(requests := t.requests + u.requests, replies := t.replies + u.replies)
  }

  /** `on_com` on the packets either side delivers, for a client that takes so many replies. */
  function Loop(client: seq<Pkt>, backend: seq<Pkt>, sid: Byte, caps: Flags, rewrite: Rewrite, room: Room): (t: Stretch)
    ensures t.stop.Some?
    decreases |client|
  {
    var t := ComTurn(client, backend, sid, caps, rewrite, room);
    if t.stop.Some? then t else Then(t, Loop(t.client, t.backend, t.sid, caps, rewrite, Less(room, |t.replies|)))
  }

  // ---------- the commands by their codes ----------

  /** Which forwarder a command goes to, by its code in the protocol: COM_QUERY, COM_PROCESS_INFO and
      COM_STMT_EXECUTE are answered with results, COM_FIELD_LIST and COM_STMT_FETCH with a list, COM_STMT_PREPARE
      with a counted number of packets, and everything else that is answered with one packet. */
  lemma ReplyByCode(code: Byte, backend: seq<Pkt>, caps: Flags)
    ensures Reply(code, backend, caps) ==
            if code in {3, 10, 23} then Query(backend, caps)
            else if code in {4, 28} then UntilEnd(backend, caps)
            else if code == 22 then Prepare(backend, caps)
            else if backend == [] then Starved
            else Finished(backend[1..], {})
  {
  }

  /** What a turn of the loop does with a command that it does not forward as it is, and with one that is none. */
  lemma TurnByCode(cmd: Pkt, c: seq<Pkt>, backend: seq<Pkt>, sid: Byte, caps: Flags, rewrite: Rewrite, room: Room)
    ensures ComTurn([], backend, sid, caps, rewrite, room) == Stretch(Some(NoCommand), [], backend, sid, [], [])
    ensures var t := ComTurn([cmd] + c, backend, sid, caps, rewrite, room);
            if cmd.payload == [] || cmd.payload[0] > 32 then t == Stretch(Some(Panicking), c, backend, sid, [], [])
            else if cmd.payload[0] == 1 then
              && t.client == c && t.replies == [] && t.requests == [Pkt(sid, [31, 8, 0, 0, 0])] && t.sid == NextSid(sid)
              && (if backend == [] then t.stop == Some(BackendLost) && t.backend == []
                  else t.stop == Some(Quit) && t.backend == backend[1..])
            else if cmd.payload[0] == 25 then
              t == Stretch(if |cmd.payload| < 5 then Some(Panicking) else None, c, backend,
                           SidAfter(cmd.sid, cmd.payload), [cmd], [])
            else if cmd.payload[0] == 17 then
              match rewrite(cmd.payload)
              case None => t == Stretch(Some(Panicking), c, backend, sid, [], [])
              case Some(p) => t.requests != [] && t.requests[0] == Pkt(cmd.sid, p)
            else t.requests == [cmd] && t.client == c && t.sid == SidAfter(cmd.sid, cmd.payload)
  {
    assert ([cmd] + c)[1..] == c;
  }

  /** How a turn with a command that is answered stops, for a client that takes the whole answer: not at all if the
      forwarder comes to an end, else with the backend lost or in its panic; and it passes on all it takes. */
  lemma AnsweredTurn(cmd: Pkt, c: seq<Pkt>, backend: seq<Pkt>, sid: Byte, caps: Flags, rewrite: Rewrite)
    requires cmd.payload != [] && cmd.payload[0] <= 32 && cmd.payload[0] !in {1, 17, 25}
    ensures var (t, run) := (ComTurn([cmd] + c, backend, sid, caps, rewrite, None), Reply(cmd.payload[0], backend, caps));
            && t.stop == (match run
                          case Finished(_, _) => None
                          case Starved => Some(BackendLost)
                          case Panicked(_) => Some(Panicking))
            && t.backend == RestOf(run) && t.replies == backend[..|backend| - |RestOf(run)|]
  {
    assert ([cmd] + c)[1..] == c;
  }

  /** Where a packet is missing, it is a panic exactly if the stream of that side ends in one; every other stop is
      what it is. */
  lemma StopsAsStreams(stop: Stop, ends: Ends)
    ensures AsStopped(Some(stop), ends) ==
            Some(if (stop in {NoCommand, ClientLost} && ends.client == Crashed) || (stop == BackendLost && ends.backend == Crashed)
                 then Panicking else stop)
    ensures AsStopped(None, ends) == None
  {
  }

  // ---------- the loop as it runs ----------

  /** The four connection ends of a session, with nothing left unsent. The backend takes every packet. */
  ghost predicate Linked(cr: PacketReader, cw: PacketWriter, br: PacketReader, bw: PacketWriter)
    reads cr, cw, br, bw
  {
    cr != br && cw != bw && cr.Valid() && br.Valid() && Ready(cw) && Ready(bw) && bw.room == None
  }

  /** The dispatch of `on_com` to the forwarder of a command. */
  method ForwardReply(code: Byte, caps: Flags, br: PacketReader, cw: PacketWriter) returns (r: Return)
    requires Ready(cw) && br.Valid()
    modifies cw, br
    ensures Forwarded(r, Reply(code, old(br.pending), caps), br, cw,
                      old(br.ending), old(cw.room), old(cw.log), old(br.pending))
  {
    if code == COM_STMT_PREPARE {
      r := ForwardPrepareStmt(caps, br, cw);
    } else if AsksForResults(code) {
      r := ForwardQuery(caps, br, cw);
    } else if AsksForList(code) {
      r := ForwardUntilResultEnd(caps, br, cw);
    } else {
      r := ForwardCounted(1, br, cw);
    }
  }

  /** Where the connections stand: what is unread on either side, what was sent since the given logs, and the room
      the client has left. Unless it was a write to the client that failed, the bytes sent are those of the logs,
      whether or not they have been flushed. */
  ghost predicate Stands(
    cr: PacketReader, cw: PacketWriter, br: PacketReader, bw: PacketWriter, client: seq<Pkt>, backend: seq<Pkt>,
    cwLog: seq<Pkt>, bwLog: seq<Pkt>, torn: bool)
    reads cr, cw, br, bw
  {
    && (torn || cw.Valid()) && bw.Valid() && cw.buf == [] && bw.buf == []
    && cr.pending == client && br.pending == backend && cw.log == cwLog && bw.log == bwLog
  }

  /** A turn left the connections where the given stretch says. */
  ghost predicate Left(t: Stretch, cr: PacketReader, cw: PacketWriter, br: PacketReader, bw: PacketWriter,
                       room: Room, cwLog: seq<Pkt>, bwLog: seq<Pkt>)
    reads cr, cw, br, bw
  {
    && bw.sid == t.sid && cw.room == Less(room, |t.replies|)
    && Stands(cr, cw, br, bw, t.client, t.backend, cwLog + t.replies, bwLog + t.requests, t.stop == Some(NotTaken))
  }

  ghost function EndsOf(cr: PacketReader, br: PacketReader): Ends
    reads cr, br
  {
    Ends(cr.ending, br.ending)
  }

  /** The session goes on or has come to an end of its own, so all connections are in order. */
  predicate Orderly(stop: Option<Stop>)
  {
    stop.None? || stop.value in {Quit, NoCommand, Rejected, BrokenOff}
  }

  /** `write_to_backend`, for a command that is forwarded. */
  method SendFirst(bw: PacketWriter, p: Pkt)
    requires Ready(bw) && bw.room == None
    modifies bw
    ensures Ready(bw) && bw.room == None && bw.log == old(bw.log) + [p] && bw.sid == SidAfter(p.sid, p.payload)
  {
    var ok := SendAndFlush(bw, p);
  }

  /** A packet written and flushed, if it can be written. */
  method SendAndFlush(w: PacketWriter, p: Pkt) returns (ok: bool)
    requires Ready(w)
    modifies w
    ensures w.buf == [] && ok == (old(w.room) != Some(0)) && w.room == Less(old(w.room), 1)
    ensures ok ==> Ready(w) && w.log == old(w.log) + [p] && w.sid == SidAfter(p.sid, p.payload)
    ensures !ok ==> w.log == old(w.log)
  {
    ok := w.Send(p);
    if ok {
      w.FlushAll();
    }
  }

  lemma NothingLeft(log: seq<Pkt>, room: Room)
    ensures log + [] == log && Less(room, 0) == room
  {
  }

  method SendPlain(cmd: Pkt, cr: PacketReader, cw: PacketWriter, br: PacketReader, bw: PacketWriter, caps: Flags)
    returns (stop: Option<Stop>)
    requires Linked(cr, cw, br, bw) && cmd.payload != []
    modifies cw, br, bw
    ensures EndsOf(cr, br) == old(EndsOf(cr, br)) && (Orderly(stop) ==> Linked(cr, cw, br, bw))
    ensures var t := Plain(cmd, cr.pending, old(br.pending), caps, old(cw.room));
            && stop == AsStopped(t.stop, EndsOf(cr, br))
            && Left(t, cr, cw, br, bw, old(cw.room), old(cw.log), old(bw.log))
  {
    NothingLeft(cw.log, cw.room);
    SendFirst(bw, cmd);
    var code := cmd.payload[0];
    if code == COM_STMT_CLOSE {
      return if |cmd.payload| < 5 then Some(Panicking) else None;
    }
    var r := ForwardReply(code, caps, br, cw);
    return match r
           case Ok(_) => None
           case ReadFailed => Some(BackendLost)
           case WriteFailed => Some(NotTaken)
           case Panic => Some(Panicking);
  }

  /** `ResetConnForwarder::forward` */
  method SendReset(cr: PacketReader, cw: PacketWriter, br: PacketReader, bw: PacketWriter)
    returns (stop: Option<Stop>)
    requires Linked(cr, cw, br, bw)
    modifies br, bw
    ensures EndsOf(cr, br) == old(EndsOf(cr, br)) && (Orderly(stop) ==> Linked(cr, cw, br, bw))
    ensures var t := Resetting(cr.pending, old(br.pending), old(bw.sid));
            && stop == AsStopped(t.stop, EndsOf(cr, br))
            && Left(t, cr, cw, br, bw, cw.room, cw.log, old(bw.log))
  {
    NothingLeft(cw.log, cw.room);
    var ok := WritePacket(bw, RESET_BYTES);
    bw.FlushAll();
    var o := ReadPacket(br);
    return Some(if o.Got? then Quit else if o.Crash? then Panicking else BackendLost);
  }

  lemma FirstRequest(log: seq<Pkt>, sid: Byte, p: Pkt, rest: seq<Pkt>)
    ensures log + ([p] + rest) == log + [p] + rest
    ensures SidAfterSending(sid, [p] + rest) == SidAfterSending(SidAfter(p.sid, p.payload), rest)
  {
    Associative(log, [p], rest);
    SidAfterBoth(sid, [p], rest);
  }

  lemma StopsAsEnded(end: End, ends: Ends)
    requires end != Crashing
    ensures StopAfter(AsEnded(end, ends.client, ends.backend)) == AsStopped(StopAfter(end), ends)
    ensures AsEnded(end, ends.client, ends.backend) == Unwritten <==> end == Unwritten
  {
  }

  method SendChangeUser(
    cmd: Pkt, cr: PacketReader, cw: PacketWriter, br: PacketReader, bw: PacketWriter, rewrite: Rewrite)
    returns (stop: Option<Stop>)
    requires Linked(cr, cw, br, bw)
    modifies cr, cw, br, bw
    ensures EndsOf(cr, br) == old(EndsOf(cr, br)) && (Orderly(stop) ==> Linked(cr, cw, br, bw))
    ensures var t := Changing(cmd, old(cr.pending), old(br.pending), old(bw.sid), rewrite, old(cw.room));
            && stop == AsStopped(t.stop, EndsOf(cr, br))
            && Left(t, cr, cw, br, bw, old(cw.room), old(cw.log), old(bw.log))
  {
    NothingLeft(cw.log, cw.room);
    NothingLeft(bw.log, bw.room);
    var p := rewrite(cmd.payload);
    if p.None? {
      return Some(Panicking);
    }
    SendFirst(bw, Pkt(cmd.sid, p.value));
    ghost var hops: seq<Hop>;
    ghost var r := Dialogue(br.pending, cr.pending, cw.room);
    var end: End;
    end, hops := ForwardChangeUser(cr, cw, bw, br);
    StopsAsEnded(r.end, EndsOf(cr, br));
    FirstRequest(old(bw.log), old(bw.sid), Pkt(cmd.sid, p.value), SentToBackend(hops));
    return StopAfter(end);
  }

  /** One turn of the loop of `on_com`. */
  method OnComTurn(
    cr: PacketReader, cw: PacketWriter, br: PacketReader, bw: PacketWriter, caps: Flags, rewrite: Rewrite)
    returns (stop: Option<Stop>)
    requires Linked(cr, cw, br, bw)
    modifies cr, cw, br, bw
    ensures EndsOf(cr, br) == old(EndsOf(cr, br)) && (Orderly(stop) ==> Linked(cr, cw, br, bw))
    ensures var t := ComTurn(old(cr.pending), old(br.pending), old(bw.sid), caps, rewrite, old(cw.room));
            && stop == AsStopped(t.stop, EndsOf(cr, br))
            && Left(t, cr, cw, br, bw, old(cw.room), old(cw.log), old(bw.log))
  {
    NothingLeft(cw.log, cw.room);
    NothingLeft(bw.log, bw.room);
    var o := ReadPacket(cr);
    if !o.Got? {
      return Some(if o.Crash? then Panicking else NoCommand);
    }
    var cmd := o.pkt;
    if cmd.payload == [] || cmd.payload[0] > COM_END {
      return Some(Panicking);
    } else if cmd.payload[0] == COM_QUIT {
      stop := SendReset(cr, cw, br, bw);
    } else if cmd.payload[0] == COM_CHANGE_USER {
      stop := SendChangeUser(cmd, cr, cw, br, bw, rewrite);
    } else {
      stop := SendPlain(cmd, cr, cw, br, bw, caps);
    }
  }

  /** Two stretches one after the other, the first of which did not stop. */
  lemma ThenAssociative(t: Stretch, u: Stretch, v: Stretch)
    ensures Then(t, Then(u, v)) == Then(Then(t, u), v)
  {
    Associative(t.requests, u.requests, v.requests);
    Associative(t.replies, u.replies, v.replies);
  }

  /** A stretch left behind another one. */
  lemma LeftMore(
    t: Stretch, u: Stretch, cr: PacketReader, cw: PacketWriter, br: PacketReader, bw: PacketWriter,
    room: Room, cwLog: seq<Pkt>, bwLog: seq<Pkt>)
    requires Left(u, cr, cw, br, bw, Less(room, |t.replies|), cwLog + t.replies, bwLog + t.requests)
    ensures Left(Then(t, u), cr, cw, br, bw, room, cwLog, bwLog)
  {
    Associative(bwLog, t.requests, u.requests);
    Associative(cwLog, t.replies, u.replies);
    LessLess(room, |t.replies|, |u.replies|);
  }

  /** The loop has gone through a stretch of the session and goes on from there. */
  ghost predicate LoopsOn(done: Stretch, room: Room, caps: Flags, rewrite: Rewrite, goal: Stretch)
  {
    goal == Then(done, Loop(done.client, done.backend, done.sid, caps, rewrite, Less(room, |done.replies|)))
  }

  lemma {:induction false} NextTurn(done: Stretch, room: Room, caps: Flags, rewrite: Rewrite, goal: Stretch)
    requires LoopsOn(done, room, caps, rewrite, goal)
    ensures var t := ComTurn(done.client, done.backend, done.sid, caps, rewrite, Less(room, |done.replies|));
            if t.stop.Some? then goal == Then(done, t) else LoopsOn(Then(done, t), room, caps, rewrite, goal)
  {
    var room1 := Less(room, |done.replies|);
    var t := ComTurn(done.client, done.backend, done.sid, caps, rewrite, room1);
    if t.stop.None? {
      LessLess(room, |done.replies|, |t.replies|);
      ThenAssociative(done, t, Loop(t.client, t.backend, t.sid, caps, rewrite, Less(room1, |t.replies|)));
    }
  }

  /** `on_com`: the session runs as `Loop` says and leaves the connections where `Loop` says, however it
      stops; unless it breaks or panics, with everything sent flushed. */
  method OnCom(
    cr: PacketReader, cw: PacketWriter, br: PacketReader, bw: PacketWriter, caps: Flags, rewrite: Rewrite)
    returns (stop: Stop)
    requires Linked(cr, cw, br, bw)
    modifies cr, cw, br, bw
    ensures EndsOf(cr, br) == old(EndsOf(cr, br)) && (Orderly(Some(stop)) ==> Linked(cr, cw, br, bw))
    ensures var t := Loop(old(cr.pending), old(br.pending), 0, caps, rewrite, old(cw.room));
            && Some(stop) == AsStopped(t.stop, EndsOf(cr, br))
            && Left(t, cr, cw, br, bw, old(cw.room), old(cw.log), old(bw.log))
  {
    bw.SetSid(0);
    ghost var room, cwLog, bwLog := cw.room, cw.log, bw.log;
    ghost var goal := Loop(cr.pending, br.pending, 0, caps, rewrite, room);
    ghost var done := Stretch(None, cr.pending, br.pending, 0, [], []);
    NothingLeft(cwLog, room);
    NothingLeft(bwLog, None);
    assert LoopsOn(done, room, caps, rewrite, goal) by {
      assert [] + goal.requests == goal.requests && [] + goal.replies == goal.replies;
    }
    var turn: Option<Stop> := None;
    while turn.None?
      invariant EndsOf(cr, br) == old(EndsOf(cr, br)) && turn == AsStopped(done.stop, EndsOf(cr, br))
      invariant Orderly(turn) ==> Linked(cr, cw, br, bw)
      invariant Left(done, cr, cw, br, bw, room, cwLog, bwLog)
      invariant if turn.Some? then goal == done else LoopsOn(done, room, caps, rewrite, goal)
      decreases turn.None?, |done.client|
    {
      ghost var t := ComTurn(done.client, done.backend, done.sid, caps, rewrite, cw.room);
      NextTurn(done, room, caps, rewrite, goal);
      turn := OnComTurn(cr, cw, br, bw, caps, rewrite);
      LeftMore(done, t, cr, cw, br, bw, room, cwLog, bwLog);
      done := Then(done, t);
    }
    return turn.value;
  }

  /** What the bytes sent are, in terms of the packets sent: short of them only if an empty payload was. */
  ghost predicate Sends(wire: Bytes, pkts: seq<Pkt>)
  {
    NoLonger(wire, WireAll(pkts)) && (NoneEmpty(pkts) ==> wire == WireAll(pkts))
  }

  lemma LeftBytes(t: Stretch, cr: PacketReader, cw: PacketWriter, br: PacketReader, bw: PacketWriter, room: Room)
    requires Left(t, cr, cw, br, bw, room, [], [])
    ensures Sends(bw.sent, t.requests) && (t.stop != Some(NotTaken) ==> Sends(cw.sent, t.replies))
  {
    assert [] + t.requests == t.requests && [] + t.replies == t.replies;
    SentBytes(cw.sent, t.replies);
    SentBytes(bw.sent, t.requests);
  }

  /** `on_com` on byte streams, delivered and accepted in any portions, whichever way it stops; for a client that
      stops taking packets, the bytes of the one that it did not take may have gone out in part. */
  method Serve(fromClient: Bytes, fromBackend: Bytes, caps: Flags, rewrite: Rewrite, room: Room)
    returns (stop: Stop, toClient: Bytes, toBackend: Bytes)
    ensures var t := Loop(Received(fromClient), Received(fromBackend), 0, caps, rewrite, room);
            && Some(stop) == AsStopped(t.stop, Ends(EndOf(fromClient), EndOf(fromBackend)))
            && (t.stop != Some(NotTaken) ==> Sends(toClient, t.replies)) && Sends(toBackend, t.requests)
  {
    var cr := new PacketReader(fromClient);
    var br := new PacketReader(fromBackend);
    var cw := new PacketWriter(room);
    var bw := new PacketWriter(None);
    ghost var client, backend, ends := cr.pending, br.pending, EndsOf(cr, br);
    stop := OnCom(cr, cw, br, bw, caps, rewrite);
    LeftBytes(Loop(client, backend, 0, caps, rewrite, room), cr, cw, br, bw, room);
    toClient, toBackend := cw.sent, bw.sent;
    StreamBytes(fromClient, client, ends.client);
    StreamBytes(fromBackend, backend, ends.backend);
  }
}
