/** The forwarders as they run: loops that read packets from the backend connection and pass them on
    to the client connection. */
module Forwarders {
  import opened ByteStrings
  import opened Packets
  import opened PacketIO
  import opened Streams
  import opened Codecs
  import opened Responses
  import opened QueryRuns

  /** How a forwarder returns: with a status, with the error of a failed read or write, or not at all. */
  datatype Return = Ok(status: Flags) | ReadFailed | WriteFailed | Panic

  /** A reader that yields no packet: the call fails, or `packet` panics in it. */
  function NoPacket(ending: Ending): Return
  {
    if ending == Crashed then Return.Panic else ReadFailed
  }

  // ---------- a run, and how far the client lets it go ----------

  /** How many packets a run takes from the backend; it passes on each of them before it looks at it. */
  function Consumed(run: Run, pkts: seq<Pkt>): int
  {
    |pkts| - |RestOf(run)|
  }

  /** The client does not take all packets of the run. */
  predicate Fails(run: Run, pkts: seq<Pkt>, room: Room)
  {
    room.Some? && room.value < Consumed(run, pkts)
  }

  /** How a forwarder returns from a run, for a client with so much room and a backend whose stream ends that way. */
  function ReturnOf(run: Run, pkts: seq<Pkt>, room: Room, ending: Ending): Return
  {
    if Fails(run, pkts, room) then WriteFailed
    else match run
         case Finished(_, status) => Return.Ok(status)
         case Starved => NoPacket(ending)
         case Panicked(_) => Return.Panic
  }

  /** What is left unread: a packet that could not be passed on has been read. */
  function LeftBy(run: Run, pkts: seq<Pkt>, room: Room): seq<Pkt>
  {
    if Fails(run, pkts, room) then pkts[room.value + 1..] else RestOf(run)
  }

  /** What is passed on. */
  function SentBy(run: Run, pkts: seq<Pkt>, room: Room): seq<Pkt>
    requires 0 <= Consumed(run, pkts)
  {
    if Fails(run, pkts, room) then pkts[..room.value] else pkts[..Consumed(run, pkts)]
  }

  /** A run in two parts: `n` packets that have been passed on, and the rest. */
  lemma Onward(run: Run, pkts: seq<Pkt>, n: nat, room: Room, ending: Ending)
    requires n <= |pkts| && Takes(room, n) && n <= Consumed(run, pkts)
    ensures var room1 := Less(room, n);
            && ReturnOf(run, pkts[n..], room1, ending) == ReturnOf(run, pkts, room, ending)
            && LeftBy(run, pkts[n..], room1) == LeftBy(run, pkts, room)
            && pkts[..n] + SentBy(run, pkts[n..], room1) == SentBy(run, pkts, room)
            && Less(room1, |SentBy(run, pkts[n..], room1)|) == Less(room, |SentBy(run, pkts, room)|)
  {
    assert forall m: nat :: n + m <= |pkts| ==> pkts[n..][m..] == pkts[n + m..];
    assert forall m: nat :: n + m <= |pkts| ==> pkts[..n] + pkts[n..][..m] == pkts[..n + m];
  }

  // ---------- one packet ----------

  /** What comes of passing on a packet. */
  datatype Passing = Passed(pkt: Pkt) | NotRead(ending: Ending) | NotWritten

  /** `forward_one_packet`: the next packet of the source goes to the destination with the sequence
      id it came with. */
  method ForwardOnePacket(dest: PacketWriter, src: PacketReader, isFlush: bool) returns (r: Passing)
    requires dest.Valid() && dest.buf == [] && src.Valid()
    modifies dest, src
    ensures dest.buf == [] && src.ending == old(src.ending) && (r == NotRead(Crashed) || src.Valid())
    ensures r.NotWritten? || dest.Valid()
    ensures r.NotRead? <==> old(src.pending) == []
    ensures r.NotWritten? <==> old(src.pending) != [] && old(dest.room) == Some(0)
    ensures src.pending == if r.NotRead? then [] else old(src.pending)[1..]
    ensures r.NotRead? ==> r.ending == src.ending
    ensures r.Passed? ==>
              && r.pkt == old(src.pending)[0] && dest.log == old(dest.log) + [r.pkt]
              && dest.room == Less(old(dest.room), 1) && dest.sid == SidAfter(r.pkt.sid, r.pkt.payload)
              && (isFlush ==> dest.flushed == |dest.sent|)
    ensures !r.Passed? ==> dest.log == old(dest.log) && dest.room == old(dest.room)
    ensures r.NotRead? ==> dest.sent == old(dest.sent) && dest.sid == old(dest.sid) && dest.flushed == old(dest.flushed)
  {
    var o := ReadPacket(src);
    if !o.Got? {
      return NotRead(EndingOf(o));
    }
    var ok := dest.Send(o.pkt);
    if !ok {
      return NotWritten;
    }
    if isFlush {
      dest.FlushAll();
    }
    return Passed(o.pkt);
  }

  /** What `forward_one_packet` returns instead of a packet. */
  function Failure(r: Passing): Return
    requires !r.Passed?
  {
    if r.NotRead? then NoPacket(r.ending) else WriteFailed
  }

  /** A forwarder that has passed on `n` packets of a run and finds the next one missing or cannot pass it on. */
  lemma StopsHere(run: Run, pkts: seq<Pkt>, n: nat, room: Room, ending: Ending)
    requires n <= |pkts| && Takes(room, n) && 0 <= Consumed(run, pkts)
    requires n == |pkts| ==> run.Starved?
    requires n < |pkts| ==> room == Some(n) && |RestOf(run)| < |pkts| - n
    ensures ReturnOf(run, pkts, room, ending) == if n < |pkts| then WriteFailed else NoPacket(ending)
    ensures LeftBy(run, pkts, room) == if n < |pkts| then pkts[n..][1..] else []
    ensures SentBy(run, pkts, room) == pkts[..n] && Less(room, n) == Less(room, |SentBy(run, pkts, room)|)
  {
  }

  // ---------- the forwarders ----------

  /** Where a forwarder stands that has passed on `n` of the packets it was given. */
  ghost predicate Underway(
    backend: PacketReader, client: PacketWriter, ending: Ending, room: Room, log: seq<Pkt>, pkts: seq<Pkt>, n: nat)
    reads backend, client
  {
    && client.Valid() && client.buf == [] && backend.Valid() && backend.ending == ending
    && n <= |pkts| && Takes(room, n) && client.room == Less(room, n)
    && backend.pending == pkts[n..] && client.log == log + pkts[..n]
  }

  /** Where a forwarder stands when it has returned from a run. */
  ghost predicate Forwarded(
    r: Return, run: Run, backend: PacketReader, client: PacketWriter, ending: Ending, room: Room, log: seq<Pkt>,
    pkts: seq<Pkt>)
    reads backend, client
  {
    && r == ReturnOf(run, pkts, room, ending)
    && (r.Panic? || backend.Valid()) && (r.WriteFailed? || client.Valid()) && client.buf == []
    && backend.ending == ending && backend.pending == LeftBy(run, pkts, room)
    && 0 <= Consumed(run, pkts) && client.log == log + SentBy(run, pkts, room)
    && client.room == Less(room, |SentBy(run, pkts, room)|)
    && (r.Ok? ==> client.flushed == |client.sent| && backend.pending == pkts[Consumed(run, pkts)..])
  }

  lemma PassedOne(log: seq<Pkt>, pkts: seq<Pkt>, n: nat, room: Room)
    requires n < |pkts| && Takes(room, n) && Less(room, n) != Some(0)
    ensures pkts[n..][1..] == pkts[n + 1..] && log + pkts[..n] + [pkts[n..][0]] == log + pkts[..n + 1]
    ensures Takes(room, n + 1) && Less(Less(room, n), 1) == Less(room, n + 1)
  {
    assert pkts[..n] + [pkts[n]] == pkts[..n + 1];
  }

  /** A run that ends when `n` packets have been passed on. */
  lemma EndsHere(run: Run, pkts: seq<Pkt>, n: nat, room: Room, ending: Ending)
    requires n <= |pkts| && Takes(room, n) && !run.Starved? && RestOf(run) == pkts[n..]
    ensures LeftBy(run, pkts, room) == pkts[n..] && SentBy(run, pkts, room) == pkts[..n]
    ensures ReturnOf(run, pkts, room, ending) == if run.Finished? then Return.Ok(run.status) else Return.Panic
  {
  }

  /** `forward_until_result_end` */
  method ForwardUntilResultEnd(caps: Flags, backend: PacketReader, client: PacketWriter) returns (r: Return)
    requires client.Valid() && client.buf == [] && backend.Valid()
    modifies client, backend
    ensures Forwarded(r, UntilEnd(old(backend.pending), caps), backend, client,
                      old(backend.ending), old(client.room), old(client.log), old(backend.pending))
  {
    ghost var pkts, room := backend.pending, client.room;
    ghost var n: nat := 0;
    ghost var run := UntilEnd(pkts, caps);
    while true
      invariant Underway(backend, client, old(backend.ending), room, old(client.log), pkts, n)
      invariant run == UntilEnd(backend.pending, caps)
      decreases |backend.pending|
    {
      var o := ForwardOnePacket(client, backend, false);
      if !o.Passed? {
        StopsHere(run, pkts, n, room, backend.ending);
        return Failure(o);
      }
      PassedOne(old(client.log), pkts, n, room);
      n := n + 1;
      var p := o.pkt.payload;
      if IsErr(p) {
        client.FlushAll();
        EndsHere(run, pkts, n, room, backend.ending);
        return Return.Ok({});
      }
      if CLIENT_DEPRECATE_EOF !in caps {
        if IsEof(p) {
          client.FlushAll();
          EndsHere(run, pkts, n, room, backend.ending);
          if |p| < 5 {
            return Return.Panic;
          }
          return Return.Ok(Bits(FromLe(p[3..5]), 16) * KNOWN_STATUS);
        }
      } else if IsResultSetEof(p) {
        EndsHere(run, pkts, n, room, backend.ending);
        var ok := ReadOk(p, caps);
        if ok.Fail? {
          return Return.Panic;
        }
        client.FlushAll();
        return Return.Ok(Bits(ok.value.status, 16));
      }
    }
  }

  /** A forwarder that hands over to another one after `n` packets. */
  lemma HandsOver(
    r: Return, run: Run, backend: PacketReader, client: PacketWriter, ending: Ending, room: Room, log: seq<Pkt>,
    pkts: seq<Pkt>, n: nat)
    requires n <= |pkts| && Takes(room, n) && n <= Consumed(run, pkts)
    requires Forwarded(r, run, backend, client, ending, Less(room, n), log + pkts[..n], pkts[n..])
    ensures Forwarded(r, run, backend, client, ending, room, log, pkts)
  {
    Onward(run, pkts, n, room, ending);
    Associative(log, pkts[..n], SentBy(run, pkts[n..], Less(room, n)));
    if r.Ok? {
      NextResult(log, pkts, n, Consumed(run, pkts[n..]), room);
    }
  }

  /** The loop of `forward_result` up to the EOF packet behind the column definitions. */
  method ForwardToFirstEof(backend: PacketReader, client: PacketWriter) returns (r: Return)
    requires client.Valid() && client.buf == [] && backend.Valid()
    modifies client, backend
    ensures var run := ToFirstEof(old(backend.pending));
            && r == ReturnOf(run, old(backend.pending), old(client.room), old(backend.ending))
            && (r.Ok? ==> backend.pending == run.rest)
            && (r.Ok? ==> Underway(backend, client, old(backend.ending), old(client.room), old(client.log),
                                   old(backend.pending), |old(backend.pending)| - |run.rest|))
            && (!r.Ok? ==> Forwarded(r, run, backend, client, old(backend.ending), old(client.room), old(client.log),
                                     old(backend.pending)))
  {
    ghost var pkts, room := backend.pending, client.room;
    ghost var n: nat := 0;
    ghost var run := ToFirstEof(pkts);
    while true
      invariant Underway(backend, client, old(backend.ending), room, old(client.log), pkts, n)
      invariant run == ToFirstEof(backend.pending)
      decreases |backend.pending|
    {
      var o := ForwardOnePacket(client, backend, false);
      if !o.Passed? {
        StopsHere(run, pkts, n, room, backend.ending);
        return Failure(o);
      }
      PassedOne(old(client.log), pkts, n, room);
      n := n + 1;
      var p := o.pkt.payload;
      if IsEof(p) {
        EndsHere(run, pkts, n, room, backend.ending);
        return if |p| < 5 then Return.Panic else Return.Ok(Bits(FromLe(p[3..5]), 16));
      }
    }
  }

  lemma ResultSetFails(pkts: seq<Pkt>, caps: Flags, room: Room, ending: Ending)
    requires CLIENT_DEPRECATE_EOF !in caps && !ReturnOf(ToFirstEof(pkts), pkts, room, ending).Ok?
    ensures var (run, part) := (ResultSet(pkts, caps), ToFirstEof(pkts));
            && ReturnOf(run, pkts, room, ending) == ReturnOf(part, pkts, room, ending)
            && LeftBy(run, pkts, room) == LeftBy(part, pkts, room) && SentBy(run, pkts, room) == SentBy(part, pkts, room)
  {
  }

  /** `forward_result` */
  method ForwardResult(caps: Flags, backend: PacketReader, client: PacketWriter) returns (r: Return)
    requires client.Valid() && client.buf == [] && backend.Valid()
    modifies client, backend
    ensures Forwarded(r, ResultSet(old(backend.pending), caps), backend, client,
                      old(backend.ending), old(client.room), old(client.log), old(backend.pending))
  {
    ghost var pkts, room := backend.pending, client.room;
    ghost var n: nat := 0;
    ghost var run := ResultSet(pkts, caps);
    assert pkts[0..] == pkts && old(client.log) + pkts[..0] == old(client.log);
    if CLIENT_DEPRECATE_EOF !in caps {
      r := ForwardToFirstEof(backend, client);
      if !r.Ok? {
        ResultSetFails(pkts, caps, room, backend.ending);
        return;
      }
      n := |pkts| - |ToFirstEof(pkts).rest|;
      var status := r.status;
      if CursorSeen(status) {
        client.FlushAll();
        EndsHere(run, pkts, n, room, backend.ending);
        return;
      }
    }
    r := ForwardUntilResultEnd(caps, backend, client);
    HandsOver(r, run, backend, client, backend.ending, room, old(client.log), pkts, n);
  }

  /** One turn of the loop of `forward_query`. */
  method ForwardOneResult(caps: Flags, backend: PacketReader, client: PacketWriter) returns (r: Return)
    requires client.Valid() && client.buf == [] && backend.Valid()
    modifies client, backend
    ensures Forwarded(r, OneResult(old(backend.pending), caps), backend, client,
                      old(backend.ending), old(client.room), old(client.log), old(backend.pending))
  {
    ghost var pkts, room := backend.pending, client.room;
    ghost var run := OneResult(pkts, caps);
    assert pkts[0..] == pkts && old(client.log) + pkts[..0] == old(client.log);
    var o := ForwardOnePacket(client, backend, false);
    if !o.Passed? {
      StopsHere(run, pkts, 0, room, backend.ending);
      return Failure(o);
    }
    PassedOne(old(client.log), pkts, 0, room);
    var p := o.pkt.payload;
    if IsOk(p) {
      client.FlushAll();
      EndsHere(run, pkts, 1, room, backend.ending);
      var ok := ReadOk(p, caps);
      return if ok.Fail? then Return.Panic else Return.Ok(Bits(ok.value.status, 16));
    } else if IsErr(p) {
      client.FlushAll();
      EndsHere(run, pkts, 1, room, backend.ending);
      return Return.Ok({});
    } else if IsLocalInFile(p) {
      EndsHere(run, pkts, 1, room, backend.ending);
      return Return.Panic;
    } else {
      r := ForwardResult(caps, backend, client);
      HandsOver(r, run, backend, client, backend.ending, room, old(client.log), pkts, 1);
    }
  }

  /** What a query takes it takes result by result; it fails where a result fails. */
  lemma QueryFails(pkts: seq<Pkt>, caps: Flags, room: Room, ending: Ending)
    requires ReturnOf(OneResult(pkts, caps), pkts, room, ending).Ok? ==>
               SERVER_MORE_RESULTS_EXISTS !in OneResult(pkts, caps).status
    ensures var (run, part) := (Query(pkts, caps), OneResult(pkts, caps));
            && ReturnOf(run, pkts, room, ending) == ReturnOf(part, pkts, room, ending)
            && LeftBy(run, pkts, room) == LeftBy(part, pkts, room) && SentBy(run, pkts, room) == SentBy(part, pkts, room)
  {
  }

  lemma QueryReturns(
    r: Return, backend: PacketReader, client: PacketWriter, ending: Ending, room: Room, log: seq<Pkt>, pkts: seq<Pkt>,
    n: nat, caps: Flags)
    requires n <= |pkts| && Takes(room, n) && Query(pkts[n..], caps) == Query(pkts, caps)
    requires Forwarded(r, OneResult(pkts[n..], caps), backend, client, ending, Less(room, n), log + pkts[..n], pkts[n..])
    requires r.Ok? ==> SERVER_MORE_RESULTS_EXISTS !in r.status
    ensures Forwarded(r, Query(pkts, caps), backend, client, ending, room, log, pkts)
  {
    QueryFails(pkts[n..], caps, Less(room, n), ending);
    HandsOver(r, Query(pkts, caps), backend, client, ending, room, log, pkts, n);
  }

  lemma MoreResults(pkts: seq<Pkt>, caps: Flags)
    requires OneResult(pkts, caps).Finished? && SERVER_MORE_RESULTS_EXISTS in OneResult(pkts, caps).status
    ensures Query(pkts, caps) == Query(OneResult(pkts, caps).rest, caps)
  {
  }

  /** A forwarder that goes on after another one has returned. */
  lemma GoesOn(
    r: Return, run: Run, backend: PacketReader, client: PacketWriter, ending: Ending, room: Room, log: seq<Pkt>,
    pkts: seq<Pkt>, n: nat, m: nat)
    requires n <= |pkts| && Takes(room, n) && r.Ok? && m == Consumed(run, pkts[n..])
    requires Forwarded(r, run, backend, client, ending, Less(room, n), log + pkts[..n], pkts[n..])
    ensures Underway(backend, client, ending, room, log, pkts, n + m)
    ensures run.Finished? && run.rest == pkts[n + m..] && run.status == r.status
  {
    var part := pkts[n..];
    assert !Fails(run, part, Less(room, n));
    assert SentBy(run, part, Less(room, n)) == part[..m] && LeftBy(run, part, Less(room, n)) == RestOf(run);
    NextResult(log, pkts, n, m, room);
  }

  lemma QueryGoesOn(
    r: Return, backend: PacketReader, client: PacketWriter, ending: Ending, room: Room, log: seq<Pkt>, pkts: seq<Pkt>,
    n: nat, m: nat, caps: Flags)
    requires n <= |pkts| && Takes(room, n) && m == Consumed(OneResult(pkts[n..], caps), pkts[n..])
    requires Forwarded(r, OneResult(pkts[n..], caps), backend, client, ending, Less(room, n), log + pkts[..n], pkts[n..])
    requires r.Ok? && SERVER_MORE_RESULTS_EXISTS in r.status
    ensures m > 0 && Underway(backend, client, ending, room, log, pkts, n + m)
    ensures Query(pkts[n + m..], caps) == Query(pkts[n..], caps)
  {
    GoesOn(r, OneResult(pkts[n..], caps), backend, client, ending, room, log, pkts, n, m);
    MoreResults(pkts[n..], caps);
  }

  /** One turn of that loop when `n` packets of the response have been passed on. */
  method ForwardResultAt(
    caps: Flags, backend: PacketReader, client: PacketWriter, ghost room: Room, ghost log: seq<Pkt>, ghost pkts: seq<Pkt>,
    ghost n: nat)
    returns (r: Return)
    requires Underway(backend, client, backend.ending, room, log, pkts, n)
    modifies client, backend
    ensures Forwarded(r, OneResult(pkts[n..], caps), backend, client, old(backend.ending), Less(room, n), log + pkts[..n], pkts[n..])
  {
    r := ForwardOneResult(caps, backend, client);
  }

  /** The run is that of a query, stated so that the loop below is not burdened with what queries are. */
  ghost predicate RunsQuery(run: Run, pkts: seq<Pkt>, caps: Flags)
  {
    forall k :: AsBytes(k) ==> run == Query(pkts, caps)
  }

  lemma RunsQueryExactly(run: Run, pkts: seq<Pkt>, caps: Flags)
    ensures RunsQuery(run, pkts, caps) <==> run == Query(pkts, caps)
  {
    assert AsBytes(0);
  }

  /** The loop goes on with the rest of the response. */
  lemma QueryTurnMore(
    r: Return, backend: PacketReader, client: PacketWriter, ending: Ending, room: Room, log: seq<Pkt>, pkts: seq<Pkt>,
    n: nat, run: Run, caps: Flags)
    returns (m: nat)
    requires n <= |pkts| && Takes(room, n) && RunsQuery(run, pkts[n..], caps)
    requires Forwarded(r, OneResult(pkts[n..], caps), backend, client, ending, Less(room, n), log + pkts[..n], pkts[n..])
    requires r.Ok? && SERVER_MORE_RESULTS_EXISTS in r.status
    ensures m > n && Underway(backend, client, ending, room, log, pkts, m) && RunsQuery(run, pkts[m..], caps)
  {
    var k := Consumed(OneResult(pkts[n..], caps), pkts[n..]);
    RunsQueryExactly(run, pkts[n..], caps);
    QueryGoesOn(r, backend, client, ending, room, log, pkts, n, k, caps);
    RunsQueryExactly(run, pkts[n + k..], caps);
    m := n + k;
  }

  /** The loop has returned from the whole of it. */
  lemma QueryTurnLast(
    r: Return, backend: PacketReader, client: PacketWriter, ending: Ending, room: Room, log: seq<Pkt>, pkts: seq<Pkt>,
    n: nat, run: Run, caps: Flags)
    requires n <= |pkts| && Takes(room, n) && RunsQuery(run, pkts, caps) && RunsQuery(run, pkts[n..], caps)
    requires Forwarded(r, OneResult(pkts[n..], caps), backend, client, ending, Less(room, n), log + pkts[..n], pkts[n..])
    requires r.Ok? ==> SERVER_MORE_RESULTS_EXISTS !in r.status
    ensures Forwarded(r, run, backend, client, ending, room, log, pkts)
  {
    RunsQueryExactly(run, pkts, caps);
    RunsQueryExactly(run, pkts[n..], caps);
    QueryReturns(r, backend, client, ending, room, log, pkts, n, caps);
  }

  /** `forward_query`: the client is sent the packets the backend sends, in order and unchanged, and
      the run ends where `Query` says it ends, with everything flushed, or where the client stops taking packets. */
  method ForwardQuery(caps: Flags, backend: PacketReader, client: PacketWriter) returns (r: Return)
    requires client.Valid() && client.buf == [] && backend.Valid()
    modifies client, backend
    ensures Forwarded(r, Query(old(backend.pending), caps), backend, client,
                      old(backend.ending), old(client.room), old(client.log), old(backend.pending))
  {
    ghost var pkts, room, log := backend.pending, client.room, client.log;
    ghost var run := Query(pkts, caps);
    ghost var n: nat := 0;
    assert pkts[0..] == pkts && log + pkts[..0] == log;
    while true
      invariant Underway(backend, client, old(backend.ending), room, log, pkts, n)
      invariant RunsQuery(run, pkts, caps) && RunsQuery(run, pkts[n..], caps)
      decreases |pkts| - n
    {
      r := ForwardResultAt(caps, backend, client, room, log, pkts, n);
      if !r.Ok? || SERVER_MORE_RESULTS_EXISTS !in r.status {
        QueryTurnLast(r, backend, client, backend.ending, room, log, pkts, n, run, caps);
        return;
      }
      n := QueryTurnMore(r, backend, client, backend.ending, room, log, pkts, n, run, caps);
    }
  }

  lemma NextResult(log: seq<Pkt>, pkts: seq<Pkt>, n: nat, m: nat, room: Room)
    requires n + m <= |pkts|
    ensures log + pkts[..n] + pkts[n..][..m] == log + pkts[..n + m] && pkts[n..][m..] == pkts[n + m..]
    ensures Takes(room, n + m) <==> Takes(room, n) && Takes(Less(room, n), m)
    ensures Less(Less(room, n), m) == Less(room, n + m)
  {
    assert pkts[..n] + pkts[n..][..m] == pkts[..n + m];
    LessLess(room, n, m);
  }
}
