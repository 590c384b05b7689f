/** A client's connection from authentication to the end of its session, and one session after
    another on the same pooled backend connection. */
module Connections {
  import opened ByteStrings
  import opened Packets
  import opened Streams
  import opened Codecs
  import opened PacketIO
  import opened Responses
  import opened QueryRuns
  import opened ChangeUser
  import opened Sessions
  import opened SessionAlignment
  import opened Negotiation
  import Pool

  const AUTH_SWITCH_REQUEST: Byte := 0xfe

  /** What the proxy knows of a client when it connects: the sequence id of its handshake response,
      and the requests the library makes of it for either way of authenticating; making the first of
      them may fail. */
  datatype Hello = Hello(sid: Byte, handshake: Option<Bytes>, changeUser: Bytes)

  /** One can be added to the sequence id without a panic. */
  predicate Advances(sid: Byte)
  {
    OVERFLOW_CHECKS ==> sid < 255
  }

  datatype Verdict = Granted | Denied | Unwound

  /** Where a packet is needed and none comes, the reader may have failed or panicked. */
  function Missing(ending: Ending): Verdict
  {
    if ending == Crashed then Unwound else Denied
  }

  /** An authentication: its end, what it leaves unread on either side, and what it sent. */
  datatype Auth = Auth(end: Verdict, client: seq<Pkt>, backend: seq<Pkt>, requests: seq<Pkt>, replies: seq<Pkt>)

  /** The first half of `process_auth_switch_plugin`: the backend's request goes to the client, the
      client's answer to the backend. */
  function Challenge(sid: Byte, client: seq<Pkt>, backend: seq<Pkt>, ends: Ends, room: Room): Auth
  {
    if backend == [] then Auth(Missing(ends.backend), client, [], [], []) else
    var s := backend[0];
    if s.payload == [] || s.payload[0] != AUTH_SWITCH_REQUEST then Auth(Unwound, client, backend[1..], [], []) else
    match CheckedAdd(sid, 1, 256) case None => Auth(Unwound, client, backend[1..], [], []) case Some(sid1) =>
    if !Takes(room, 1) then Auth(Denied, client, backend[1..], [], []) else
    var asked := [Pkt(sid1, s.payload)];
    if client == [] then Auth(Missing(ends.client), [], backend[1..], [], asked) else
    match CheckedAdd(s.sid, 1, 256) case None => Auth(Unwound, client[1..], backend[1..], [], asked) case Some(sid2) =>
    Auth(Granted, client[1..], backend[1..], [Pkt(sid2, client[0].payload)], asked)
  }

  /** `process_auth_switch_plugin`: after the challenge, the next packet of the backend decides. */
  function SwitchPlugin(sid: Byte, client: seq<Pkt>, backend: seq<Pkt>, ends: Ends, room: Room): Auth
  {
    var a := Challenge(sid, client, backend, ends, room);
    if a.end != Granted then a
    else if a.backend == [] then a.(end := Missing(ends.backend))
    else if !Takes(room, 2) then a.(end := Denied, backend := a.backend[1..])
    else
      var v := a.backend[0].payload;
      a.(end := if v == [] then Unwound else if v[0] == 0xff then Denied else Granted,
         backend := a.backend[1..], replies := a.replies + [a.backend[0]])
  }

  /** `reply_handshake_response` or, on a connection in the command phase, `continue_auth`. */
  function Authenticate(handshake: bool, hello: Hello, client: seq<Pkt>, backend: seq<Pkt>, ends: Ends, room: Room): Auth
  {
    if handshake && backend == [] then Auth(Missing(ends.backend), client, [], [], [])
    else if handshake && hello.handshake.None? then Auth(Denied, client, backend[1..], [], [])
    else
      var request := if handshake then Pkt(hello.sid, hello.handshake.value) else Pkt(0, hello.changeUser);
      var a := SwitchPlugin(hello.sid, client, if handshake then backend[1..] else backend, ends, room);
      a.(requests := [request] + a.requests)
  }

  /** A connection: the phase it leaves the pooled connection in, how its session stopped if it came to
      one, what is left unread on either side, and what was sent either way. */
  datatype Connected = Connected(
    phase: Option<Pool.Phase>, stop: Option<Stop>, client: seq<Pkt>, backend: seq<Pkt>,
    requests: seq<Pkt>, replies: seq<Pkt>)

  /** `connect`, from the check-out on; a panic leaves the phase as it was. */
  function Connect(
    phase: Option<Pool.Phase>, hello: Hello, client: seq<Pkt>, backend: seq<Pkt>, ends: Ends, caps: Flags,
    rewrite: Rewrite, room: Room): Connected
  {
    var a := Authenticate(Pool.NeedsHandshake(phase), hello, client, backend, ends, room);
    if a.end == Granted then
      var t := Loop(a.client, a.backend, 0, caps, rewrite, Less(room, 2));
      Connected(Some(Pool.Command), AsStopped(t.stop, ends), t.client, t.backend,
                a.requests + t.requests, a.replies + t.replies)
    else
      Connected(if a.end == Unwound then phase else Some(Pool.Connection), None, a.client, a.backend,
                a.requests, a.replies)
  }

  // ---------- as it runs ----------

  /** Where an authentication leaves the connections; with two packets for the client it goes through whole. */
  ghost predicate Authenticated(
    a: Auth, cr: PacketReader, cw: PacketWriter, br: PacketReader, bw: PacketWriter, room: Room, n: nat,
    cwLog: seq<Pkt>, bwLog: seq<Pkt>)
    reads cr, cw, br, bw
  {
    && (a.end == Granted ==> Linked(cr, cw, br, bw) && cw.room == Less(room, n))
    && Stands(cr, cw, br, bw, a.client, a.backend, cwLog + a.replies, bwLog + a.requests, !Takes(room, n))
  }

  method RunChallenge(sid: Byte, cr: PacketReader, cw: PacketWriter, br: PacketReader, bw: PacketWriter)
    returns (end: Verdict)
    requires Linked(cr, cw, br, bw)
    modifies cr, cw, br, bw
    ensures EndsOf(cr, br) == old(EndsOf(cr, br))
    ensures var a := Challenge(sid, old(cr.pending), old(br.pending), EndsOf(cr, br), old(cw.room));
            end == a.end && Authenticated(a, cr, cw, br, bw, old(cw.room), 1, old(cw.log), old(bw.log))
  {
    NothingLeft(cw.log, cw.room);
    NothingLeft(bw.log, bw.room);
    var s := ReadPacket(br);
    if !s.Got? {
      return if s.Crash? then Unwound else Denied;
    }
    if s.pkt.payload == [] || s.pkt.payload[0] != AUTH_SWITCH_REQUEST {
      return Unwound;
    }
    var sid1 := CheckedAdd(sid, 1, 256);
    if sid1.None? {
      return Unwound;
    }
    var ok := SendAndFlush(cw, Pkt(sid1.value, s.pkt.payload));
    if !ok {
      return Denied;
    }
    var answer := ReadPacket(cr);
    if !answer.Got? {
      return if answer.Crash? then Unwound else Denied;
    }
    var sid2 := CheckedAdd(s.pkt.sid, 1, 256);
    if sid2.None? {
      return Unwound;
    }
    SendFirst(bw, Pkt(sid2.value, answer.pkt.payload));
    return Granted;
  }

  method RunSwitchPlugin(sid: Byte, cr: PacketReader, cw: PacketWriter, br: PacketReader, bw: PacketWriter)
    returns (end: Verdict)
    requires Linked(cr, cw, br, bw)
    modifies cr, cw, br, bw
    ensures EndsOf(cr, br) == old(EndsOf(cr, br))
    ensures var a := SwitchPlugin(sid, old(cr.pending), old(br.pending), EndsOf(cr, br), old(cw.room));
            end == a.end && Authenticated(a, cr, cw, br, bw, old(cw.room), 2, old(cw.log), old(bw.log))
  {
    ghost var a := Challenge(sid, cr.pending, br.pending, EndsOf(cr, br), cw.room);
    end := RunChallenge(sid, cr, cw, br, bw);
    if end != Granted {
      return;
    }
    var v := ReadPacket(br);
    if !v.Got? {
      return if v.Crash? then Unwound else Denied;
    }
    var ok := SendAndFlush(cw, v.pkt);
    if !ok {
      return Denied;
    }
    Associative(old(cw.log), a.replies, [v.pkt]);
    return if v.pkt.payload == [] then Unwound else if v.pkt.payload[0] == 0xff then Denied else Granted;
  }

  method RunAuthenticate(
    handshake: bool, hello: Hello, cr: PacketReader, cw: PacketWriter, br: PacketReader, bw: PacketWriter)
    returns (end: Verdict)
    requires Linked(cr, cw, br, bw)
    modifies cr, cw, br, bw
    ensures EndsOf(cr, br) == old(EndsOf(cr, br))
    ensures var a := Authenticate(handshake, hello, old(cr.pending), old(br.pending), EndsOf(cr, br), old(cw.room));
            end == a.end && Authenticated(a, cr, cw, br, bw, old(cw.room), 2, old(cw.log), old(bw.log))
  {
    NothingLeft(cw.log, cw.room);
    NothingLeft(bw.log, bw.room);
    var request := Pkt(0, hello.changeUser);
    if handshake {
      var greeting := ReadPacket(br);
      if !greeting.Got? {
        return if greeting.Crash? then Unwound else Denied;
      }
      if hello.handshake.None? {
        return Denied;
      }
      request := Pkt(hello.sid, hello.handshake.value);
    }
    ghost var a := SwitchPlugin(hello.sid, cr.pending, br.pending, EndsOf(cr, br), cw.room);
    SendFirst(bw, request);
    Associative(old(bw.log), [request], a.requests);
    end := RunSwitchPlugin(hello.sid, cr, cw, br, bw);
  }

  /** `connect`, from the check-out on: authenticate as the phase demands, record the verdict in the
      pooled connection, and run the command loop if it was favourable. */
  method RunConnect(
    conn: Pool.PooledConn, hello: Hello, cr: PacketReader, cw: PacketWriter, br: PacketReader, bw: PacketWriter,
    caps: Flags, rewrite: Rewrite)
    returns (stop: Option<Stop>)
    requires Linked(cr, cw, br, bw)
    modifies conn, cr, cw, br, bw
    ensures stop.Some? && Orderly(stop) ==> Linked(cr, cw, br, bw)
    ensures var c := Connect(old(conn.phase), hello, old(cr.pending), old(br.pending), old(EndsOf(cr, br)), caps, rewrite,
                             old(cw.room));
            && conn.phase == c.phase && stop == c.stop
            && Stands(cr, cw, br, bw, c.client, c.backend, old(cw.log) + c.replies, old(bw.log) + c.requests,
                      if stop.None? then !Takes(old(cw.room), 2) else stop == Some(NotTaken))
  {
    ghost var a := Authenticate(Pool.NeedsHandshake(conn.phase), hello, cr.pending, br.pending, EndsOf(cr, br), cw.room);
    ghost var room := cw.room;
    bw.SetSid(0);
    var end := RunAuthenticate(Pool.NeedsHandshake(conn.phase), hello, cr, cw, br, bw);
    if end == Unwound {
      return None;
    }
    conn.UpdateConnLifeCycle(if end == Granted then Pool.Command else Pool.Connection);
    if end == Denied {
      return None;
    }
    ghost var t := Loop(a.client, a.backend, 0, caps, rewrite, Less(room, 2));
    Associative(old(bw.log), a.requests, t.requests);
    Associative(old(cw.log), a.replies, t.replies);
    var s := OnCom(cr, cw, br, bw, caps, rewrite);
    return Some(s);
  }

  // ---------- authentication ends where the backend's does ----------

  /** The proxy takes the second packet of the backend for its verdict, and anything but an ERR for a
      favourable one. */
  lemma GrantedExactly(sid: Byte, client: seq<Pkt>, backend: seq<Pkt>, ends: Ends, room: Room)
    requires client != [] && |backend| >= 2 && Advances(sid) && Advances(backend[0].sid) && Takes(room, 2)
    requires backend[0].payload != [] && backend[0].payload[0] == 0xfe && backend[1].payload != []
    ensures SwitchPlugin(sid, client, backend, ends, room).end == Granted <==> backend[1].payload[0] != 0xff
    ensures SwitchPlugin(sid, client, backend, ends, room).backend == backend[2..]
  {
    assert backend[1..][1..] == backend[2..];
  }

  /** A login that the backend refuses: the client is sent the request to switch and then the ERR, the backend the
      answer, and both streams are left right behind. */
  lemma RefusedExact(sid: Byte, answer: Pkt, switch: Pkt, err: Pkt, c: seq<Pkt>, b: seq<Pkt>, ends: Ends, room: Room)
    requires Advances(sid) && Advances(switch.sid) && Takes(room, 2)
    requires switch.payload != [] && switch.payload[0] == 0xfe && ErrPacket(err.payload)
    ensures SwitchPlugin(sid, [answer] + c, [switch, err] + b, ends, room) ==
            Auth(Denied, c, b, [Pkt(NextSid(switch.sid), answer.payload)], [Pkt(NextSid(sid), switch.payload), err])
  {
    assert ([answer] + c)[1..] == c && ([switch, err] + b)[1..] == [err] + b && ([err] + b)[1..] == b;
  }

  /** It ends the visit: no session is served, and the connection is left in the connection phase, in which it is
      not recycled. The handshake is made anew on every connection that is not in the command phase. */
  lemma RefusedConnect(
    phase: Option<Pool.Phase>, greeting: Pkt, hello: Hello, answer: Pkt, switch: Pkt, err: Pkt, c: seq<Pkt>, b: seq<Pkt>,
    ends: Ends, caps: Flags, rewrite: Rewrite, room: Room)
    requires Advances(hello.sid) && Advances(switch.sid) && Takes(room, 2)
    requires switch.payload != [] && switch.payload[0] == 0xfe && ErrPacket(err.payload)
    requires phase != Some(Pool.Command) ==> hello.handshake.Some?
    ensures var backend := [switch, err] + b;
            var asked := Pkt(NextSid(switch.sid), answer.payload);
            Connect(phase, hello, [answer] + c, if phase == Some(Pool.Command) then backend else [greeting] + backend,
                    ends, caps, rewrite, room) ==
            Connected(Some(Pool.Connection), None, c, b,
                      [if phase == Some(Pool.Command) then Pkt(0, hello.changeUser)
                       else Pkt(hello.sid, hello.handshake.value)] + [asked],
                      [Pkt(NextSid(hello.sid), switch.payload), err])
  {
    RefusedExact(hello.sid, answer, switch, err, c, b, ends, room);
    assert ([greeting] + ([switch, err] + b))[1..] == [switch, err] + b;
  }

  /** How an authentication breaks off before there is a verdict, step by step: no packet of the backend, one that is
      no request to switch, a client that does not take it, or has no answer. */
  lemma BrokenOffLogin(sid: Byte, x: Pkt, c: seq<Pkt>, b: seq<Pkt>, ends: Ends, room: Room)
    requires Advances(sid) && Advances(x.sid)
    ensures SwitchPlugin(sid, c, [], ends, room) == Auth(Missing(ends.backend), c, [], [], [])
    ensures var a := SwitchPlugin(sid, c, [x] + b, ends, room);
            var switch := x.payload != [] && x.payload[0] == 0xfe;
            && (!switch ==> a == Auth(Unwound, c, b, [], []))
            && (switch && room == Some(0) ==> a == Auth(Denied, c, b, [], []))
            && (switch && room != Some(0) && c == [] ==>
                  a == Auth(Missing(ends.client), [], b, [], [Pkt(NextSid(sid), x.payload)]))
  {
    assert ([x] + b)[1..] == b;
  }

  /** And how it breaks off at the verdict: there is none, the client does not take it, or it is empty. */
  lemma NoVerdictLogin(sid: Byte, answer: Pkt, switch: Pkt, v: Pkt, c: seq<Pkt>, b: seq<Pkt>, ends: Ends, room: Room)
    requires Advances(sid) && Advances(switch.sid) && Takes(room, 1)
    requires switch.payload != [] && switch.payload[0] == 0xfe
    ensures var (asked, answered) := ([Pkt(NextSid(sid), switch.payload)], [Pkt(NextSid(switch.sid), answer.payload)]);
            && SwitchPlugin(sid, [answer] + c, [switch], ends, room) == Auth(Missing(ends.backend), c, [], answered, asked)
            && (room == Some(1) ==>
                  SwitchPlugin(sid, [answer] + c, [switch, v] + b, ends, room) == Auth(Denied, c, b, answered, asked))
            && (Takes(room, 2) && v.payload == [] ==>
                  SwitchPlugin(sid, [answer] + c, [switch, v] + b, ends, room) == Auth(Unwound, c, b, answered, asked + [v]))
  {
    assert ([answer] + c)[1..] == c && [switch][1..] == [];
    assert ([switch, v] + b)[1..] == [v] + b && ([v] + b)[1..] == b;
  }

  /** Sequence ids that cannot be counted on unwind the task, in a build that checks for overflow. */
  lemma OverflowingLogin(sid: Byte, answer: Pkt, switch: Pkt, c: seq<Pkt>, b: seq<Pkt>, ends: Ends, room: Room)
    requires OVERFLOW_CHECKS && switch.payload != [] && switch.payload[0] == 0xfe && Takes(room, 1)
    ensures sid == 255 ==> SwitchPlugin(sid, [answer] + c, [switch] + b, ends, room) == Auth(Unwound, [answer] + c, b, [], [])
    ensures sid < 255 && switch.sid == 255 ==>
              SwitchPlugin(sid, [answer] + c, [switch] + b, ends, room) ==
              Auth(Unwound, c, b, [], [Pkt(sid + 1, switch.payload)])
  {
    assert ([answer] + c)[1..] == c && ([switch] + b)[1..] == b;
  }

  lemma MissingExactly(ending: Ending)
    ensures Missing(ending) == Unwound <==> ending == Crashed
    ensures Missing(ending) == Denied <==> ending != Crashed
  {
  }

  /** A handshake that does not come to a request: no greeting, or a response that cannot be made. */
  lemma NoHandshake(phase: Option<Pool.Phase>, hello: Hello, c: seq<Pkt>, b: seq<Pkt>, ends: Ends, caps: Flags,
                    rewrite: Rewrite, room: Room)
    requires phase != Some(Pool.Command) && (b == [] || hello.handshake.None?)
    ensures Connect(phase, hello, c, b, ends, caps, rewrite, room) ==
            Connected(if b == [] && ends.backend == Crashed then phase else Some(Pool.Connection), None, c,
                      if b == [] then [] else b[1..], [], [])
  {
  }

  /** What may stand between the request to switch and the verdict: packets such as AuthMoreData. */
  ghost predicate NoVerdict(more: seq<Pkt>)
  {
    forall k :: 0 <= k < |more| ==> more[k].payload != [] && !OkHeaded(more[k].payload) && !ErrPacket(more[k].payload)
  }

  /** Authentication ends with the backend's verdict, and right behind it, iff nothing stands between the
      request to switch and the verdict; otherwise the client is let in before there is a verdict. */
  lemma VerdictExactly(
    sid: Byte, answer: Pkt, c: seq<Pkt>, switch: Pkt, more: seq<Pkt>, verdict: Pkt, b: seq<Pkt>, ends: Ends, room: Room)
    requires Advances(sid) && Advances(switch.sid) && Takes(room, 2)
    requires switch.payload != [] && switch.payload[0] == 0xfe
    requires NoVerdict(more) && (OkHeaded(verdict.payload) || ErrPacket(verdict.payload))
    ensures var a := SwitchPlugin(sid, [answer] + c, [switch] + (more + ([verdict] + b)), ends, room);
            && (a.backend == b && (a.end == Granted <==> OkHeaded(verdict.payload)) <==> more == [])
            && (more != [] ==> a.end == Granted && a.backend == more[1..] + ([verdict] + b))
  {
    var backend := [switch] + (more + ([verdict] + b));
    GrantedExactly(sid, [answer] + c, backend, ends, room);
    if more == [] {
      assert backend[2..] == b;
    } else {
      assert backend[2..] == more[1..] + ([verdict] + b);
      assert |backend[2..]| > |b|;
    }
  }

  /** With one such packet, the first command hears the verdict on the login, every later one the reply
      to the one before, and the connection goes back to the pool with a reply left over. */
  lemma {:induction false} MoreDataHeard(
    hello: Hello, answer: Pkt, switch: Pkt, more: Pkt, verdict: Pkt, es: seq<Exchange>, b: seq<Pkt>, ends: Ends,
    caps: Flags, rewrite: Rewrite)
    requires Advances(hello.sid) && Advances(switch.sid)
    requires switch.payload != [] && switch.payload[0] == 0xfe
    requires more.payload != [] && !ErrPacket(more.payload)
    requires forall k :: 0 <= k < |es| ==> es[k].Simple? && Conforming(es[k], caps, rewrite)
    ensures var c := Connect(Some(Pool.Command), hello, [answer] + (AllFromClient(es) + []),
                             [switch, more] + ([verdict] + (AllFromBackend(es) + b)), ends, caps, rewrite, None);
            && c.phase == Some(Pool.Command) && c.backend == [LeftOver(verdict, es)] + b
            && c.replies == [Pkt(NextSid(hello.sid), switch.payload), more] + Heard(verdict, es)
  {
    SwitchedExact(hello.sid, answer, switch, more, AllFromClient(es) + [], [verdict] + (AllFromBackend(es) + b), ends, None);
    Lagging(verdict, es, [], b, 0, caps, rewrite);
    assert Heard(verdict, es) + [] == Heard(verdict, es);
  }

  lemma SwitchedExact(sid: Byte, answer: Pkt, switch: Pkt, grant: Pkt, c: seq<Pkt>, b: seq<Pkt>, ends: Ends, room: Room)
    requires Advances(sid) && Advances(switch.sid) && Takes(room, 2)
    requires switch.payload != [] && switch.payload[0] == 0xfe
    requires grant.payload != [] && !ErrPacket(grant.payload)
    ensures SwitchPlugin(sid, [answer] + c, [switch, grant] + b, ends, room) ==
            Auth(Granted, c, b, [Pkt(NextSid(switch.sid), answer.payload)], [Pkt(NextSid(sid), switch.payload), grant])
  {
    assert ([answer] + c)[1..] == c && ([switch, grant] + b)[1..] == [grant] + b && ([grant] + b)[1..] == b;
  }

  // ---------- one session after another ----------

  /** A whole visit of a client, with capabilities, a rewriting and room of its own: it is let in, converses,
      and ends its session in one way or another. */
  datatype Visit = Visit(
    caps: Flags, rewrite: Rewrite, room: Room, hello: Hello, switch: Pkt, answer: Pkt, grant: Pkt,
    es: seq<Exchange>, farewell: Farewell, clientEnd: Ending)

  /** The visit follows the protocol on a connection with the negotiated capabilities. */
  ghost predicate ProperVisit(v: Visit, negotiated: Flags)
  {
    && Advances(v.hello.sid) && Advances(v.switch.sid)
    && v.switch.payload != [] && v.switch.payload[0] == 0xfe
    && v.grant.payload != [] && !ErrPacket(v.grant.payload)
    && Completed(v.es, negotiated, v.rewrite) && Parting(v.farewell, negotiated, v.rewrite)
  }

  function ClientSays(v: Visit): seq<Pkt>
  {
    [v.answer] + (AllFromClient(v.es) + (ClientParts(v.farewell) + []))
  }

  /** Behind the greeting, which a backend sends once. */
  function BackendSays(v: Visit): seq<Pkt>
  {
    [v.switch, v.grant] + (AllFromBackend(v.es) + BackendParts(v.farewell))
  }

  /** What the client is to receive. */
  function ClientHears(v: Visit): seq<Pkt>
  {
    [Pkt(NextSid(v.hello.sid), v.switch.payload), v.grant] + AllReplies(v.es, v.farewell)
  }

  /** The client takes all that it is sent. */
  predicate Listens(v: Visit)
  {
    Takes(v.room, |ClientHears(v)|)
  }

  /** The greeting stands before everything else on a connection that has not been authenticated yet. */
  function Behind(phase: Option<Pool.Phase>, greeting: Pkt, b: seq<Pkt>): seq<Pkt>
  {
    if phase.None? then [greeting] + b else b
  }

  /** A connection that can be visited: fresh, if the client's handshake can be made, or left in the
      command phase. */
  predicate Open(phase: Option<Pool.Phase>, v: Visit)
  {
    phase == Some(Pool.Command) || (phase == None && v.hello.handshake.Some?)
  }

  /** What the backend is sent of an authentication. */
  function Login(v: Visit, phase: Option<Pool.Phase>): seq<Pkt>
    requires Open(phase, v)
  {
    [if phase.None? then Pkt(v.hello.sid, v.hello.handshake.value) else Pkt(0, v.hello.changeUser)]
    + [Pkt(NextSid(v.switch.sid), v.answer.payload)]
  }

  lemma AuthExact(
    v: Visit, phase: Option<Pool.Phase>, greeting: Pkt, c: seq<Pkt>, b: seq<Pkt>, ends: Ends, negotiated: Flags)
    requires ProperVisit(v, negotiated) && Open(phase, v) && Takes(v.room, 2)
    ensures var a := Authenticate(Pool.NeedsHandshake(phase), v.hello, [v.answer] + c,
                                  Behind(phase, greeting, [v.switch, v.grant] + b), ends, v.room);
            && a.end == Granted && a.client == c && a.backend == b
            && a.requests == Login(v, phase)
            && a.replies == [Pkt(NextSid(v.hello.sid), v.switch.payload), v.grant]
  {
    SwitchedExact(v.hello.sid, v.answer, v.switch, v.grant, c, b, ends, v.room);
    assert phase.None? ==> Behind(phase, greeting, [v.switch, v.grant] + b)[1..] == [v.switch, v.grant] + b;
  }

  function Visited(v: Visit, phase: Option<Pool.Phase>, backend: seq<Pkt>, end: Ending): Connected
  {
    Connect(phase, v.hello, ClientSays(v), backend, Ends(v.clientEnd, end), v.caps, v.rewrite, v.room)
  }

  /** The visit takes exactly its own packets from the backend, whatever follows them, gives the client
      exactly its own replies, and leaves the connection in the command phase. */
  ghost predicate ServedExactly(v: Visit, phase: Option<Pool.Phase>, greeting: Pkt, b: seq<Pkt>, end: Ending)
    requires Open(phase, v)
  {
    var c := Visited(v, phase, Behind(phase, greeting, BackendSays(v) + b), end);
    && c.phase == Some(Pool.Command) && c.stop == AsStopped(Some(StopWith(v.farewell)), Ends(v.clientEnd, end))
    && c.client == [] && c.backend == b && c.replies == ClientHears(v)
    && c.requests == Login(v, phase) + AllRequests(v.es, v.farewell)
  }

  lemma VisitPackets(v: Visit, b: seq<Pkt>)
    ensures BackendSays(v) + b == [v.switch, v.grant] + (AllFromBackend(v.es) + (BackendParts(v.farewell) + b))
  {
    Associative([v.switch, v.grant], AllFromBackend(v.es) + BackendParts(v.farewell), b);
    Associative(AllFromBackend(v.es), BackendParts(v.farewell), b);
  }

  /** A proper visit comes to its session, and what becomes of it is what becomes of the session. */
  lemma VisitedLoop(v: Visit, phase: Option<Pool.Phase>, greeting: Pkt, b: seq<Pkt>, end: Ending, negotiated: Flags)
    requires ProperVisit(v, negotiated) && Open(phase, v) && Takes(v.room, 2)
    ensures var t := Loop(AllFromClient(v.es) + (ClientParts(v.farewell) + []),
                          AllFromBackend(v.es) + (BackendParts(v.farewell) + b), 0, v.caps, v.rewrite, Less(v.room, 2));
            Visited(v, phase, Behind(phase, greeting, BackendSays(v) + b), end) ==
            Connected(Some(Pool.Command), AsStopped(t.stop, Ends(v.clientEnd, end)), t.client, t.backend,
                      Login(v, phase) + t.requests,
                      [Pkt(NextSid(v.hello.sid), v.switch.payload), v.grant] + t.replies)
  {
    VisitPackets(v, b);
    AuthExact(v, phase, greeting, AllFromClient(v.es) + (ClientParts(v.farewell) + []),
              AllFromBackend(v.es) + (BackendParts(v.farewell) + b), Ends(v.clientEnd, end), negotiated);
  }

  /** A visit by a client that agrees with the connection is served exactly, however it ends. */
  lemma VisitExact(v: Visit, phase: Option<Pool.Phase>, greeting: Pkt, b: seq<Pkt>, end: Ending, negotiated: Flags)
    requires ProperVisit(v, negotiated) && Open(phase, v) && Listens(v) && Agrees(v.caps, negotiated)
    ensures ServedExactly(v, phase, greeting, b, end)
  {
    LessLess(v.room, 2, |AllReplies(v.es, v.farewell)|);
    VisitedLoop(v, phase, greeting, b, end, negotiated);
    SessionUnder(v.es, v.farewell, negotiated, v.caps, v.rewrite);
    SessionExact(v.es, v.farewell, [], b, v.caps, v.rewrite, Less(v.room, 2));
  }

  // ---------- clients that do not agree with the connection ----------

  /** A visit with a single query, answered by a single result. */
  predicate AsksOnce(v: Visit, cmd: Pkt, r: Result)
  {
    && cmd.payload != [] && cmd.payload[0] in {3, 10, 23}
    && v.es == [Results(cmd, [r])] && v.farewell.Leaves? && v.clientEnd == Drained && v.room == None
  }

  lemma AsksOncePackets(v: Visit, cmd: Pkt, r: Result, b: seq<Pkt>)
    requires AsksOnce(v, cmd, r)
    ensures AllFromClient(v.es) + (ClientParts(v.farewell) + []) == [cmd]
    ensures AllFromBackend(v.es) + (BackendParts(v.farewell) + b) == PacketsOf(r) + b
    ensures AllReplies(v.es, v.farewell) == PacketsOf(r)
  {
    OnlyExchange(Results(cmd, [r]));
    OnlyPackets(r);
    assert [cmd] + ([] + []) == [cmd];
    assert [] + b == b && PacketsOf(r) + [] == PacketsOf(r);
  }

  /** A query and nothing else: unless its response is seen to end, the session breaks; and it has passed
      on whatever it has taken. */
  lemma {:induction false} QueryAlone(cmd: Pkt, backend: seq<Pkt>, caps: Flags, rewrite: Rewrite)
    requires cmd.payload != [] && cmd.payload[0] in {3, 10, 23}
    ensures var t := Loop([cmd], backend, 0, caps, rewrite, None);
            && (t.stop == Some(NoCommand) <==> Query(backend, caps).Finished?)
            && t.backend == RestOf(Query(backend, caps))
            && t.replies == backend[..|backend| - |t.backend|]
  {
    assert [cmd] + [] == [cmd];
    Dispatch(cmd, [], backend, 0, caps, rewrite, None);
    var t := ComTurn([cmd], backend, 0, caps, rewrite, None);
    assert t.replies + [] == t.replies;
  }

  lemma QueryVisited(
    v: Visit, cmd: Pkt, r: Result, b: seq<Pkt>, phase: Option<Pool.Phase>, greeting: Pkt, end: Ending, negotiated: Flags)
    requires ProperVisit(v, negotiated) && Open(phase, v) && AsksOnce(v, cmd, r)
    ensures var c := Visited(v, phase, Behind(phase, greeting, BackendSays(v) + b), end);
            var t := Loop([cmd], PacketsOf(r) + b, 0, v.caps, v.rewrite, None);
            && c.stop == AsStopped(t.stop, Ends(v.clientEnd, end)) && c.backend == t.backend
            && c.replies == [Pkt(NextSid(v.hello.sid), v.switch.payload), v.grant] + t.replies
  {
    VisitedLoop(v, phase, greeting, b, end, negotiated);
    AsksOncePackets(v, cmd, r, b);
  }

  lemma HeardAndMore(v: Visit, cmd: Pkt, r: Result, b: seq<Pkt>)
    requires AsksOnce(v, cmd, r)
    ensures ClientHears(v) + b == [Pkt(NextSid(v.hello.sid), v.switch.payload), v.grant] + (PacketsOf(r) + b)
  {
    AsksOncePackets(v, cmd, r, b);
    Associative([Pkt(NextSid(v.hello.sid), v.switch.payload), v.grant], PacketsOf(r), b);
  }

  /** What a client hears that asks for a whole result set on a connection with the other kind of EOF packets, if the
      backend sends anything behind it: its own replies, and then that. */
  lemma MixedClientHearsNext(
    v: Visit, cmd: Pkt, r: Result, x: Pkt, phase: Option<Pool.Phase>, greeting: Pkt, end: Ending, negotiated: Flags)
    requires ProperVisit(v, negotiated) && Open(phase, v) && AsksOnce(v, cmd, r) && WholeRowSet(r)
    requires CLIENT_DEPRECATE_EOF in v.caps <==> CLIENT_DEPRECATE_EOF !in negotiated
    ensures var c := Visited(v, phase, Behind(phase, greeting, BackendSays(v) + [x]), end);
            c.replies == ClientHears(v) + [x] && c.backend == []
  {
    assert CompletedAt(v.es, 0, negotiated, v.rewrite) && Conforms([r][0], negotiated);
    OverrunTakes(r, x, v.caps, negotiated);
    QueryVisited(v, cmd, r, [x], phase, greeting, end, negotiated);
    HeardAndMore(v, cmd, r, [x]);
    var pkts := PacketsOf(r) + [x];
    QueryAlone(cmd, pkts, v.caps, v.rewrite);
    assert pkts[..|pkts|] == pkts;
  }

  lemma OverrunTakes(r: Result, x: Pkt, caps: Flags, negotiated: Flags)
    requires WholeRowSet(r) && Conforms(r, negotiated)
    requires CLIENT_DEPRECATE_EOF in caps <==> CLIENT_DEPRECATE_EOF !in negotiated
    ensures RestOf(Query(PacketsOf(r) + [x], caps)) == []
  {
    RowSetOverruns(r, [x], caps, negotiated);
  }

  function SampleVisit(caps: Flags, r: Result): (v: Visit)
    ensures v.caps == caps && v.hello.handshake.Some? && Listens(v) && AsksOnce(v, Pkt(0, [COM_QUERY]), r)
  {
    Visit(caps, _ => None, None, Hello(0, Some([]), []), Pkt(0, [0xfe]), Pkt(0, [1]), Pkt(0, [0]),
          [Results(Pkt(0, [COM_QUERY]), [r])], Leaves, Drained)
  }

  lemma SampleVisitProper(caps: Flags, r: Result, negotiated: Flags)
    requires Response([r], negotiated)
    ensures ProperVisit(SampleVisit(caps, r), negotiated)
  {
    var v := SampleVisit(caps, r);
    assert Conforming(v.es[0], negotiated, v.rewrite);
  }

  lemma MisreadVisit(
    v: Visit, cmd: Pkt, r: Result, phase: Option<Pool.Phase>, greeting: Pkt, end: Ending, negotiated: Flags)
    requires ProperVisit(v, negotiated) && Open(phase, v) && AsksOnce(v, cmd, r)
    requires !Query(PacketsOf(r), v.caps).Finished?
    ensures !ServedExactly(v, phase, greeting, [], end)
  {
    assert PacketsOf(r) + [] == PacketsOf(r);
    QueryVisited(v, cmd, r, [], phase, greeting, end, negotiated);
    QueryAlone(cmd, PacketsOf(r) + [], v.caps, v.rewrite);
    assert AsStopped(Some(StopWith(v.farewell)), Ends(v.clientEnd, end)) == Some(NoCommand);
    assert Visited(v, phase, Behind(phase, greeting, BackendSays(v) + []), end).stop != Some(NoCommand);
  }

  /** Every visit of clients with the given capabilities is served exactly, on a connection with others, iff
      these agree: otherwise there is a proper visit that is not. */
  lemma VisitExactly(caps: Flags, negotiated: Flags, phase: Option<Pool.Phase>, greeting: Pkt, end: Ending)
    requires phase == None || phase == Some(Pool.Command)
    ensures (forall v: Visit, b: seq<Pkt> :: v.caps == caps && ProperVisit(v, negotiated) && Open(phase, v) && Listens(v)
                            ==> ServedExactly(v, phase, greeting, b, end))
            <==> Agrees(caps, negotiated)
  {
    if Agrees(caps, negotiated) {
      forall v: Visit, b: seq<Pkt> | v.caps == caps && ProperVisit(v, negotiated) && Open(phase, v) && Listens(v)
        ensures ServedExactly(v, phase, greeting, b, end)
      {
        VisitExact(v, phase, greeting, b, end, negotiated);
      }
    } else {
      var r := Misread(caps, negotiated);
      SampleVisitProper(caps, r, negotiated);
      MisreadVisit(SampleVisit(caps, r), Pkt(0, [COM_QUERY]), r, phase, greeting, end, negotiated);
    }
  }

  /** What the clients of a pooled connection hear, one visit after another, and what is left unread. */
  datatype History = History(heard: seq<seq<Pkt>>, backend: seq<Pkt>)

  function Visits(phase: Option<Pool.Phase>, vs: seq<Visit>, backend: seq<Pkt>, end: Ending): History
    decreases |vs|
  {
    if |vs| == 0 then History([], backend) else
    var c := Visited(vs[0], phase, backend, end);
    var h := Visits(c.phase, vs[1..], c.backend, end);
    History([c.replies] + h.heard, h.backend)
  }

  function AllBackendSays(vs: seq<Visit>): seq<Pkt>
  {
    if |vs| == 0 then [] else BackendSays(vs[0]) + AllBackendSays(vs[1..])
  }

  function EachHears(vs: seq<Visit>): (r: seq<seq<Pkt>>)
    ensures |r| == |vs| && forall k :: 0 <= k < |vs| ==> r[k] == ClientHears(vs[k])
  {
    if |vs| == 0 then [] else [ClientHears(vs[0])] + EachHears(vs[1..])
  }

  /** Any number of visits on one pooled connection, each ending in any way, by clients that agree with what
      was negotiated on it: every client hears its own replies and nothing of anybody else's, and the
      connection ends where its replies end. */
  lemma {:induction false} VisitsExact(
    phase: Option<Pool.Phase>, vs: seq<Visit>, greeting: Pkt, b: seq<Pkt>, end: Ending, negotiated: Flags)
    requires forall k :: 0 <= k < |vs| ==> ProperVisit(vs[k], negotiated) && Listens(vs[k]) && Agrees(vs[k].caps, negotiated)
    requires phase == Some(Pool.Command) || (|vs| > 0 && Open(phase, vs[0]))
    ensures Visits(phase, vs, Behind(phase, greeting, AllBackendSays(vs) + b), end) == History(EachHears(vs), b)
    decreases |vs|
  {
    if |vs| == 0 {
      assert AllBackendSays(vs) + b == b;
    } else {
      FirstVisit(phase, vs, greeting, b, end, negotiated);
      VisitsExact(Some(Pool.Command), vs[1..], greeting, b, end, negotiated);
    }
  }

  lemma FirstVisit(
    phase: Option<Pool.Phase>, vs: seq<Visit>, greeting: Pkt, b: seq<Pkt>, end: Ending, negotiated: Flags)
    requires |vs| > 0 && ProperVisit(vs[0], negotiated) && Listens(vs[0]) && Agrees(vs[0].caps, negotiated) && Open(phase, vs[0])
    ensures var rest := AllBackendSays(vs[1..]) + b;
            var h := Visits(Some(Pool.Command), vs[1..], rest, end);
            Visits(phase, vs, Behind(phase, greeting, AllBackendSays(vs) + b), end)
            == History([ClientHears(vs[0])] + h.heard, h.backend)
  {
    var rest := AllBackendSays(vs[1..]) + b;
    Associative(BackendSays(vs[0]), AllBackendSays(vs[1..]), b);
    VisitExact(vs[0], phase, greeting, rest, end, negotiated);
  }

  /** In particular from the greeting on, when the first client's capabilities are the negotiated ones. */
  lemma FreshConnectionExact(vs: seq<Visit>, greeting: Pkt, b: seq<Pkt>, end: Ending)
    requires |vs| > 0 && vs[0].hello.handshake.Some?
    requires forall k :: 0 <= k < |vs| ==> ProperVisit(vs[k], vs[0].caps) && Listens(vs[k]) && Agrees(vs[k].caps, vs[0].caps)
    ensures Visits(None, vs, [greeting] + (AllBackendSays(vs) + b), end) == History(EachHears(vs), b)
  {
    VisitsExact(None, vs, greeting, b, end, vs[0].caps);
  }

  // ---------- what a session that breaks leaves behind ----------

  /** A packet that is left unread on a connection in the command phase meets the next client: if it is not like a
      request to switch, the task that serves that client panics on it; if it is, the client is sent it as the
      request to switch. */
  lemma {:induction false} LeftoverMeetsNext(
    x: Pkt, b: seq<Pkt>, next: Hello, c: seq<Pkt>, ends: Ends, caps: Flags, rewrite: Rewrite, room: Room)
    requires Advances(next.sid) && Takes(room, 1)
    ensures var r := Connect(Some(Pool.Command), next, c, [x] + b, ends, caps, rewrite, room);
            if x.payload == [] || x.payload[0] != 0xfe
            then r == Connected(Some(Pool.Command), None, c, b, [Pkt(0, next.changeUser)], [])
            else r.replies != [] && r.replies[0] == Pkt(NextSid(next.sid), x.payload)
  {
    assert ([x] + b)[1..] == b;
    if x.payload != [] && x.payload[0] == 0xfe {
      FirstReply(next.sid, c, [x] + b, ends, room);
    }
  }

  lemma FirstReply(sid: Byte, client: seq<Pkt>, backend: seq<Pkt>, ends: Ends, room: Room)
    requires Advances(sid) && Takes(room, 1)
    requires backend != [] && backend[0].payload != [] && backend[0].payload[0] == 0xfe
    ensures var a := SwitchPlugin(sid, client, backend, ends, room);
            a.replies != [] && a.replies[0] == Pkt(NextSid(sid), backend[0].payload)
  {
  }

  /** A client that goes away inside a COM_CHANGE_USER leaves its challenge unanswered, and its connection in
      the command phase. The backend takes the next client's first packet for the answer, and its verdict,
      which is no request to switch, unwinds the task that serves that client. */
  lemma {:induction false} DepartureStrandsNext(
    es: seq<Exchange>, cmd: Pkt, rewritten: Bytes, rounds: seq<Round>, challenge: Pkt, verdict: Pkt, b: seq<Pkt>,
    caps: Flags, rewrite: Rewrite, next: Hello, c: seq<Pkt>, ends: Ends, nextCaps: Flags, nextRewrite: Rewrite, room: Room)
    requires Completed(es, caps, rewrite) && Advances(next.sid) && Takes(room, 1)
    requires cmd.payload != [] && cmd.payload[0] == 17 && rewrite(cmd.payload) == Some(rewritten)
    requires ProperRounds(rounds) && !ErrPacket(challenge.payload) && !OkHeaded(challenge.payload)
    requires OkHeaded(verdict.payload) || ErrPacket(verdict.payload)
    ensures var t := Loop(AllFromClient(es) + ([cmd] + Answers(rounds)),
                          AllFromBackend(es) + (Challenges(rounds) + ([challenge] + ([verdict] + b))), 0, caps, rewrite, None);
            && t.stop == Some(ClientLost)
            && Connect(Some(Pool.Command), next, c, t.backend, ends, nextCaps, nextRewrite, room) ==
               Connected(Some(Pool.Command), None, c, b, [Pkt(0, next.changeUser)], [])
  {
    DepartureExact(es, cmd, rewritten, rounds, challenge, [verdict] + b, caps, rewrite);
    LeftoverMeetsNext(verdict, b, next, c, ends, nextCaps, nextRewrite, room);
  }

  /** A client that stops taking packets before the last one of a reply leaves the rest of the reply to the next
      client of the connection, which is met by its first packet. */
  lemma {:induction false} NotTakenMeetsNext(
    es: seq<Exchange>, e: Exchange, m: nat, c: seq<Pkt>, b: seq<Pkt>, caps: Flags, rewrite: Rewrite, room: Room,
    next: Hello, c1: seq<Pkt>, ends: Ends, nextCaps: Flags, nextRewrite: Rewrite, nextRoom: Room)
    requires Completed(es, caps, rewrite) && Conforming(e, caps, rewrite) && m < |FromBackend(e)| - 1
    requires Takes(room, |AllFromBackend(es)|) && Less(room, |AllFromBackend(es)|) == Some(m)
    requires Advances(next.sid) && Takes(nextRoom, 1)
    ensures var t := Loop(AllFromClient(es) + (FromClient(e) + c), AllFromBackend(es) + (FromBackend(e) + b), 0, caps,
                          rewrite, room);
            var x := FromBackend(e)[m + 1].payload;
            var r := Connect(Some(Pool.Command), next, c1, t.backend, ends, nextCaps, nextRewrite, nextRoom);
            && t.stop == Some(NotTaken)
            && if x == [] || x[0] != 0xfe then r.stop.None? && r.replies == [] && r.phase == Some(Pool.Command)
               else r.replies != [] && r.replies[0] == Pkt(NextSid(next.sid), x)
  {
    NotTakenLeaves(es, e, m, c, b, caps, rewrite, room);
    LeftoverMeetsNext(FromBackend(e)[m + 1], FromBackend(e)[m + 2..] + b, next, c1, ends, nextCaps, nextRewrite, nextRoom);
  }
}
