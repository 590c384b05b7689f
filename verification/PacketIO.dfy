/** The buffered packet writer and the two packet readers, over sockets that accept and deliver
    bytes in whatever portions they please. */
module PacketIO {
  import opened ByteStrings
  import opened Packets
  import opened Streams

  /** The sequence id of the writer after a payload: one step per frame, none for an empty payload. */
  function SidAfter(sid: Byte, p: Bytes): Byte
    decreases |p|
  {
    if p == [] then sid
    else if |p| <= MAX_PAYLOAD_LEN then NextSid(sid)
    else SidAfter(NextSid(sid), p[MAX_PAYLOAD_LEN..])
  }

  /** The sequence id of the writer after a list of packets. */
  function SidAfterSending(sid: Byte, pkts: seq<Pkt>): Byte
  {
    if pkts == [] then sid else SidAfter(pkts[|pkts| - 1].sid, pkts[|pkts| - 1].payload)
  }

  lemma SidAfterBoth(sid: Byte, a: seq<Pkt>, b: seq<Pkt>)
    ensures SidAfterSending(sid, a + b) == SidAfterSending(SidAfterSending(sid, a), b)
  {
    if b == [] {
      assert a + b == a;
    }
  }

  /** What is still to be sent of a payload, as bytes; nothing once the payload is used up. */
  function Remaining(sid: Byte, p: Bytes): Bytes
  {
    if p == [] then [] else Encode(Split(sid, p))
  }

  function ChunkLen(p: Bytes): (n: nat)
    ensures n <= |p| && n <= MAX_PAYLOAD_LEN && (p != [] ==> n > 0)
  {
    if |p| < MAX_PAYLOAD_LEN then |p| else MAX_PAYLOAD_LEN
  }

  lemma NextChunk(sid: Byte, p: Bytes)
    requires p != []
    ensures var n := ChunkLen(p);
            && Remaining(sid, p) == EncodeFrame(Frame(sid, p[..n])) + Remaining(NextSid(sid), p[n..])
            && SidAfter(sid, p) == SidAfter(NextSid(sid), p[n..])
  {
    var n := ChunkLen(p);
    var fs := Split(sid, p);
    if n == |p| {
      assert p[..n] == p;
      EncodeOne(fs[0]);
      assert EncodeFrame(fs[0]) + [] == EncodeFrame(fs[0]);
    } else {
      assert fs[1..] == Split(NextSid(sid), p[n..]);
    }
    assert fs[0] == Frame(sid, p[..n]);
  }

  lemma EmptyWire(sid: Byte)
    ensures Wire(Pkt(sid, [])) == ToLe(0, 3) + [sid]
  {
    var f := Frame(sid, []);
    EncodeOne(f);
    assert EncodeFrame(f) == ToLe(0, 3) + [sid];
  }

  // ---------- bytes and packets ----------

  /** A dummy: it is always true. The predicates below say what the bytes of a connection are under a
      quantifier that only this predicate triggers, so that the verifier does not unfold byte strings in
      proofs about packets; mentioning it, as `SentBytes` and `StreamBytes` do, brings the facts back. */
  ghost predicate AsBytes(k: int)
  {
    true
  }

  /** The bytes a writer has sent are the packets of its log, or fall short of them because an empty
      payload went out short; without empty payloads they are exactly the log. */
  ghost predicate Carries(sent: Bytes, log: seq<Pkt>)
  {
    forall k :: AsBytes(k) ==>
      NoLonger(sent, WireAll(log)) && (NoneEmpty(log) ==> sent == WireAll(log))
  }

  /** What a writer has offered is the packets of its log, whether or not it was accepted. */
  ghost predicate Offers(offered: Bytes, log: seq<Pkt>)
  {
    forall k :: AsBytes(k) ==> offered == WireAll(log)
  }

  /** The packets a stream will deliver, and how it ends behind them. */
  ghost predicate Delivers(stream: Bytes, pkts: seq<Pkt>, ending: Ending)
  {
    forall k :: AsBytes(k) ==> pkts == Received(stream) && ending == EndOf(stream)
  }

  lemma SentBytes(sent: Bytes, log: seq<Pkt>)
    ensures Carries(sent, log) <==> NoLonger(sent, WireAll(log)) && (NoneEmpty(log) ==> sent == WireAll(log))
  {
    assert AsBytes(0);
  }

  lemma OfferedBytes(offered: Bytes, log: seq<Pkt>)
    ensures Offers(offered, log) <==> offered == WireAll(log)
  {
    assert AsBytes(0);
  }

  lemma StreamBytes(stream: Bytes, pkts: seq<Pkt>, ending: Ending)
    ensures Delivers(stream, pkts, ending) <==> pkts == Received(stream) && ending == EndOf(stream)
  {
    assert AsBytes(0);
  }

  lemma Delivered(stream: Bytes) returns (pkts: seq<Pkt>, ending: Ending)
    ensures Delivers(stream, pkts, ending)
  {
    pkts, ending := Received(stream), EndOf(stream);
  }

  /** The first string is shorter than the second, or equal to it. */
  ghost predicate NoLonger(a: Bytes, b: Bytes)
  {
    |a| < |b| || a == b
  }

  ghost predicate NoneEmpty(ps: seq<Pkt>)
  {
    forall p :: p in ps ==> p.payload != []
  }

  lemma OfferStep(offered: Bytes, log: seq<Pkt>, p: Pkt)
    requires Offers(offered, log)
    ensures Offers(offered + Wire(p), log + [p])
  {
    assert AsBytes(0);
    WireAllSnoc(log, p);
  }

  lemma LogStep(sent: Bytes, log: seq<Pkt>, p: Pkt, sent': Bytes)
    requires Carries(sent, log) && sent <= sent' <= sent + Wire(p) && (p.payload != [] ==> sent' == sent + Wire(p))
    ensures Carries(sent', log + [p])
  {
    assert AsBytes(0);
    WireAllSnoc(log, p);
    assert NoneEmpty(log + [p]) ==> NoneEmpty(log) && p.payload != [] by {
      assert p in log + [p];
      assert forall q :: q in log ==> q in log + [p];
    }
  }

  // ---------- peers that stop taking packets ----------

  /** How many more packets a peer takes before a write to it fails; `None` if it takes them all. */
  type Room = Option<nat>

  predicate Takes(room: Room, n: nat)
  {
    room.None? || n <= room.value
  }

  function Less(room: Room, n: nat): Room
  {
    if room.None? then None else if n <= room.value then Some(room.value - n) else Some(0)
  }

  lemma LessLess(room: Room, m: nat, n: nat)
    ensures Takes(room, m + n) <==> Takes(room, m) && Takes(Less(room, m), n)
    ensures Less(Less(room, m), n) == Less(room, m + n)
  {
  }

  class PacketWriter {
    var buf: Bytes
    var sid: Byte
    /** How many more packets the inner writer takes. */
    var room: Room
    /** Everything the inner writer has accepted, and how much of it has been flushed. */
    var sent: Bytes
    var flushed: nat
    /** Everything it has been offered, each frame once. */
    ghost var offered: Bytes
    /** The packets handed to `EndPacket`. */
    ghost var log: seq<Pkt>

    ghost predicate Valid()
      reads this
    {
      flushed <= |sent| && Carries(sent, log) && Offers(offered, log)
    }

    constructor (capacity: Room)
      ensures Valid() && buf == [] && sid == 0 && sent == [] && flushed == 0 && log == [] && room == capacity
    {
      buf, sid, sent, flushed, room := [], 0, [], 0, capacity;
      log, offered := [], [];
      new;
      SentBytes([], []);
      OfferedBytes([], []);
    }

    /** The inner writer: takes any prefix of what it is offered. */
    method WriteVectored(data: Bytes) returns (written: nat)
      modifies this`sent, this`offered
      ensures written <= |data| && sent == old(sent) + data[..written] && offered == old(offered) + data
    {
      written :| 0 <= written <= |data|;
      sent := sent + data[..written];
      offered := offered + data;
    }

    method SetSid(s: Byte)
      modifies this`sid
      ensures sid == s
    {
      sid := s;
    }

    method Write(data: Bytes)
      modifies this`buf
      ensures buf == old(buf) + data
    {
      buf := buf + data;
    }

    method FlushAll()
      requires Valid()
      modifies this`flushed
      ensures Valid() && flushed == |sent|
    {
      flushed := |sent|;
    }

    /** `end_packet`: whatever the inner writer accepts at a time, a non-empty payload goes out whole
        and in frames; an empty one is offered once, so it may go out short. If the write fails, any part of
        the packet may have gone out, and nothing more is said of the bytes. */
    method EndPacket() returns (ok: bool)
      requires Valid()
      modifies this`buf, this`sid, this`sent, this`log, this`room, this`offered
      ensures buf == [] && ok == (old(room) != Some(0)) && room == Less(old(room), 1)
      ensures offered == old(offered) + Wire(Pkt(old(sid), old(buf)))
      ensures old(sent) <= sent <= old(sent) + Wire(Pkt(old(sid), old(buf)))
      ensures ok ==>
                && Valid() && sid == SidAfter(old(sid), old(buf))
                && log == old(log) + [Pkt(old(sid), old(buf))]
                && (old(buf) != [] ==> sent == old(sent) + Wire(Pkt(old(sid), old(buf))))
      ensures !ok ==> log == old(log)
    {
      ghost var p := Pkt(sid, buf);
      var raw := buf;
      buf := [];
      if room == Some(0) {
        var written := WriteVectored(Wire(Pkt(sid, raw)));
        return false;
      }
      room := Less(room, 1);
      if raw != [] {
        WriteChunks(raw);
      } else {
        EmptyWire(sid);
        var written := WriteVectored(ToLe(0, 3) + [sid]);
      }
      LogStep(old(sent), old(log), p, sent);
      OfferStep(old(offered), old(log), p);
      log := log + [p];
      return true;
    }

    /** Set the sequence id, write the payload, end the packet: how every packet is passed on. */
    method Send(p: Pkt) returns (ok: bool)
      requires Valid() && buf == []
      modifies this`buf, this`sid, this`sent, this`log, this`room, this`offered
      ensures buf == [] && ok == (old(room) != Some(0)) && room == Less(old(room), 1)
      ensures ok ==>
                && Valid() && log == old(log) + [p] && sid == SidAfter(p.sid, p.payload)
                && (p.payload != [] ==> sent == old(sent) + Wire(p))
      ensures !ok ==> log == old(log)
    {
      SetSid(p.sid);
      Write(p.payload);
      assert buf == p.payload;
      ok := EndPacket();
    }

    /** One frame: what a short vectored write leaves over goes out with `write_all`. */
    method WriteFrame(header: Bytes, chunk: Bytes)
      modifies this`sent, this`offered
      ensures sent == old(sent) + (header + chunk) && offered == old(offered) + (header + chunk)
    {
      var data := header + chunk;
      var written := WriteVectored(data);
      if written != |data| {
        sent := sent + data[written..];
      }
      assert data[..written] + data[written..] == data;
    }

    /** The loop over the chunks of at most MAX bytes. */
    method WriteChunks(raw: Bytes)
      modifies this`sid, this`sent, this`offered
      ensures sent == old(sent) + Remaining(old(sid), raw) && offered == old(offered) + Remaining(old(sid), raw)
      ensures sid == SidAfter(old(sid), raw)
    {
      var todo := raw;
      while todo != []
        invariant SidAfter(sid, todo) == SidAfter(old(sid), raw)
        invariant sent + Remaining(sid, todo) == old(sent) + Remaining(old(sid), raw)
        invariant offered + Remaining(sid, todo) == old(offered) + Remaining(old(sid), raw)
        decreases |todo|
      {
        NextChunk(sid, todo);
        var n := ChunkLen(todo);
        ghost var before, asked := sent, offered;
        WriteFrame(ToLe(n, 3) + [sid], todo[..n]);
        Associative(before, EncodeFrame(Frame(sid, todo[..n])), Remaining(NextSid(sid), todo[n..]));
        Associative(asked, EncodeFrame(Frame(sid, todo[..n])), Remaining(NextSid(sid), todo[n..]));
        sid := NextSid(sid);
        todo := todo[n..];
      }
    }
  }

  // ---------- readers ----------

  const PACKET_BUFFER_SIZE := 4096
  const PACKET_LARGE_BUFFER_SIZE := 1048576

  /** What one call of a reader returns. */
  datatype Outcome = Got(pkt: Pkt) | NoMore | UnexpectedEof | Crash

  /** What a call that yields no packet says of the stream. */
  function EndingOf(r: Outcome): Ending
    requires !r.Got?
  {
    match r
    case NoMore => Drained
    case UnexpectedEof => Truncated
    case Crash => Crashed
  }

  /** The packet `packet` finds at the head of the whole unread stream, and what it leaves of it. */
  function Next(s: Bytes): Outcome
  {
    match Parse(s)
    case Packet(p, _) => Got(p)
    case Panic => Crash
    case Incomplete => if s == [] then NoMore else UnexpectedEof
  }

  function After(s: Bytes): Bytes
  {
    if Parse(s).Packet? then Parse(s).rest else s
  }

  /** A call that returns `r` and leaves `rest` has dealt with the stream as `packet` would. */
  ghost predicate Settles(stream: Bytes, r: Outcome, rest: Bytes)
  {
    forall k :: AsBytes(k) ==> r == Next(stream) && (!r.Crash? ==> rest == After(stream))
  }

  /** What a call says where no packet is left: nothing left is no more packets, bytes that never become a packet are
      an unexpected end, and misnumbered frames the panic. */
  lemma NoPacketLeft(s: Bytes)
    ensures Next(s) == NoMore <==> s == []
    ensures Next(s) == UnexpectedEof <==> s != [] && Parse(s).Incomplete?
    ensures Next(s) == Crash <==> Parse(s).Panic?
    ensures !Parse(s).Packet? ==> After(s) == s
  {
  }

  /** The bytes at hand are not yet a packet. */
  ghost predicate Undecided(live: Bytes)
  {
    forall k :: AsBytes(k) ==> Parse(live).Incomplete?
  }

  /** What `packet` decides on the bytes at hand it decides on the whole stream. */
  lemma Decided(live: Bytes, incoming: Bytes)
    requires !Parse(live).Incomplete?
    ensures match Parse(live)
            case Packet(p, rest) => Settles(live + incoming, Got(p), rest + incoming)
            case _ => forall rest :: Settles(live + incoming, Crash, rest)
  {
    ParseStable(live, incoming);
  }

  lemma SettlesExactly(stream: Bytes, r: Outcome, rest: Bytes)
    ensures Settles(stream, r, rest) <==> r == Next(stream) && (!r.Crash? ==> rest == After(stream))
  {
    assert AsBytes(0);
  }

  lemma NothingIsUndecided()
    ensures Undecided([])
  {
  }

  lemma AtEnd(live: Bytes)
    requires Undecided(live)
    ensures Settles(live, if live == [] then NoMore else UnexpectedEof, live)
  {
    assert AsBytes(0);
  }

  /** `Vec::resize` with zero bytes: it may cut as well as pad. */
  function Resize(s: Bytes, n: nat): (r: Bytes)
    ensures |r| == n
    ensures forall k :: 0 <= k < n && k < |s| ==> r[k] == s[k]
  {
    if n <= |s| then s[..n] else s + seq(n - |s|, _ => 0)
  }

  /** Reading into the free part of a buffer. */
  function Overwrite(s: Bytes, at: nat, chunk: Bytes): (r: Bytes)
    requires at + |chunk| <= |s|
    ensures |r| == |s| && r[..at + |chunk|] == s[..at] + chunk
  {
    s[..at] + chunk + s[at + |chunk|..]
  }

  lemma DropDrop(s: Bytes, i: nat, j: nat)
    requires i + j <= |s|
    ensures s[i..][j..] == s[i + j..]
  {
  }

  function Max(a: nat, b: nat): nat
  {
    if a < b then b else a
  }

  class PacketReader {
    var bytes: Bytes
    var start: nat
    var remaining: nat
    /** What the peer has sent and the socket has not delivered yet. */
    var incoming: Bytes

    /** The packets this reader will still deliver, and how its stream ends behind them. */
    ghost var pending: seq<Pkt>
    ghost var ending: Ending

    ghost predicate Buffered()
      reads this`bytes, this`remaining
    {
      remaining <= |bytes|
    }

    /** Between calls the unread bytes are the last `remaining` ones of the buffer, then the socket's. */
    ghost function Unread(): Bytes
      requires Buffered()
      reads this`bytes, this`remaining, this`incoming
    {
      bytes[|bytes| - remaining..] + incoming
    }

    ghost predicate Valid()
      reads this
    {
      Buffered() && Delivers(Unread(), pending, ending)
    }

    constructor (stream: Bytes)
      ensures Valid() && Unread() == stream
    {
      bytes, start, remaining, incoming := [], 0, 0, stream;
      ghost var pkts, end := Delivered(stream);
      pending, ending := pkts, end;
      new;
      assert Unread() == stream by {
        assert bytes[|bytes| - remaining..] == [];
        assert [] + stream == stream;
      }
    }

    /** One read from the socket: any non-empty portion, or nothing at the end of the stream. That a
        read of nothing means the end depends on the space offered never being empty. */
    method Read(space: nat) returns (chunk: Bytes)
      requires space > 0
      modifies this`incoming
      ensures |chunk| <= space && old(incoming) == chunk + incoming
      ensures chunk == [] <==> old(incoming) == []
    {
      var n := 0;
      if incoming != [] {
        n :| 0 < n <= |incoming| && n <= space;
      }
      chunk, incoming := incoming[..n], incoming[n..];
    }

    /** The refill step of `next_async`: drop what was consumed, grow the buffer if the free space is
        below `bufferSize`, read into the free space; the padding behind the live bytes stays. */
    method RefillAsync(bufferSize: nat) returns (read: nat)
      requires start + remaining <= |bytes| && bufferSize > 0
      modifies this`bytes, this`start, this`remaining, this`incoming
      ensures start == 0 && remaining == old(remaining) + read <= |bytes|
      ensures bytes[..remaining] + incoming == old(bytes[start..start + remaining] + incoming)
      ensures |incoming| == old(|incoming|) - read
      ensures read == 0 ==> incoming == [] && bytes[..remaining] == old(bytes[start..start + remaining])
    {
      ghost var live := bytes[start..start + remaining];
      bytes := bytes[start..];
      start := 0;
      var end := remaining;
      assert bytes[..end] == live;
      if |bytes| - end < bufferSize {
        bytes := Resize(bytes, Max(bufferSize, end * 2));
        assert bytes[..end] == live;
      }
      var chunk := Read(|bytes| - end);
      bytes := Overwrite(bytes, end, chunk);
      read := |chunk|;
      remaining := end + read;
      Associative(live, chunk, incoming);
    }

    /** The refill step of `next_read`: the buffer always ends with the live bytes. */
    method RefillSync() returns (read: nat)
      requires start + remaining == |bytes|
      modifies this`bytes, this`start, this`remaining, this`incoming
      ensures start == 0 && remaining == |bytes| == old(remaining) + read
      ensures bytes[start..] + incoming == old(bytes[start..] + incoming)
      ensures |incoming| == old(|incoming|) - read
      ensures read == 0 ==> incoming == [] && bytes == old(bytes[start..])
    {
      ghost var live := bytes[start..];
      bytes := bytes[start..];
      start := 0;
      var end := |bytes|;
      bytes := Resize(bytes, Max(4096, end * 2));
      assert bytes[..end] == live;
      var chunk := Read(|bytes| - end);
      bytes := Overwrite(bytes, end, chunk);
      bytes := bytes[..end + |chunk|];
      read := |chunk|;
      remaining := |bytes|;
      assert bytes[start..] == live + chunk;
      Associative(live, chunk, incoming);
    }

    /** A packet delivered is one packet less to deliver. The panic of `packet` unwinds the task that
        reads, so nothing is said of the buffer behind it. */
    ghost method Settle(stream: Bytes, r: Outcome)
      requires Buffered() && Delivers(stream, pending, ending) && Settles(stream, r, Unread())
      modifies this`pending
      ensures Settles(stream, r, Unread()) && (!r.Crash? ==> Valid())
      ensures r.Got? <==> old(pending) != []
      ensures if r.Got? then old(pending) == [r.pkt] + pending else pending == [] && EndingOf(r) == ending
    {
      assert AsBytes(0);
      StreamBytes(stream, pending, ending);
      if !r.Crash? {
        pending := Received(Unread());
        StreamBytes(Unread(), pending, ending);
      }
    }

    /** The parsing step of `next_async`: on success what is left becomes the buffer. */
    method TakeAsync() returns (r: Option<Outcome>)
      requires start + remaining <= |bytes|
      modifies this`bytes, this`start, this`remaining
      ensures Buffered()
      ensures var live := old(bytes[start..start + remaining]);
              match r
              case None => Undecided(live) && bytes == old(bytes) && start == old(start) && remaining == old(remaining)
              case Some(o) => Settles(live + incoming, o, Unread())
    {
      ghost var live := bytes[start..start + remaining];
      NothingIsUndecided();
      if remaining == 0 {
        return None;
      }
      var parsed := ParsePacket(bytes[start..start + remaining]);
      if parsed.Incomplete? {
        return None;
      }
      Decided(live, incoming);
      if parsed.Panic? {
        return Some(Crash);
      }
      remaining := |parsed.rest|;
      if remaining > 0 {
        bytes := parsed.rest;
        start := 0;
      }
      assert bytes[|bytes| - remaining..] == parsed.rest;
      return Some(Got(parsed.pkt));
    }

    /** The parsing step of `next_read`: on success the buffer stays and only the mark moves. */
    method TakeSync() returns (r: Option<Outcome>)
      requires start + remaining == |bytes|
      modifies this`remaining
      ensures Buffered()
      ensures var live := bytes[start..];
              match r
              case None => Undecided(live) && remaining == old(remaining)
              case Some(o) => Settles(live + incoming, o, Unread())
    {
      ghost var live := bytes[start..];
      NothingIsUndecided();
      if remaining == 0 {
        return None;
      }
      var parsed := ParsePacket(bytes[start..]);
      if parsed.Incomplete? {
        return None;
      }
      Decided(live, incoming);
      if parsed.Panic? {
        return Some(Crash);
      }
      ParsedSuffix(live);
      remaining := |parsed.rest|;
      assert bytes[|bytes| - remaining..] == parsed.rest by {
        DropDrop(bytes, start, |live| - |parsed.rest|);
      }
      return Some(Got(parsed.pkt));
    }

    /** The end of `next_async` when the stream has ended: the padding is cut off. */
    method EndAsync() returns (r: Outcome)
      requires remaining <= |bytes| && incoming == [] && Undecided(bytes[..remaining])
      modifies this`bytes
      ensures Buffered() && Settles(old(bytes[..remaining]), r, Unread())
    {
      bytes := bytes[..remaining];
      assert Unread() == bytes + [] == bytes;
      AtEnd(bytes);
      r := if bytes == [] then NoMore else UnexpectedEof;
    }

    /** `next_async` refines `packet` applied to the whole unread stream, however the bytes arrive. */
    method NextAsync() returns (r: Outcome)
      requires Valid()
      modifies this
      ensures Buffered() && Settles(old(Unread()), r, Unread()) && (!r.Crash? ==> Valid())
      ensures ending == old(ending)
      ensures r.Got? <==> old(pending) != []
      ensures if r.Got? then old(pending) == [r.pkt] + pending else pending == [] && EndingOf(r) == ending
    {
      start := |bytes| - remaining;
      ghost var stream := Unread();
      var bufferSize := PACKET_BUFFER_SIZE;
      assert bytes[start..start + remaining] == bytes[start..];
      while true
        invariant start + remaining <= |bytes| && bufferSize > 0 && pending == old(pending) && ending == old(ending)
        invariant bytes[start..start + remaining] + incoming == stream
        decreases |incoming|
      {
        var taken := TakeAsync();
        if taken.Some? {
          r := taken.value;
          break;
        }
        var read := RefillAsync(bufferSize);
        bufferSize := PACKET_LARGE_BUFFER_SIZE;
        if read == 0 {
          assert stream == bytes[..remaining] + [] == bytes[..remaining];
          r := EndAsync();
          break;
        }
        assert bytes[start..start + remaining] == bytes[..remaining];
      }
      Settle(stream, r);
    }

    /** `next_read`, the blocking reader, keeps its buffer differently and promises the same. */
    method NextRead() returns (r: Outcome)
      requires Valid()
      modifies this
      ensures Buffered() && Settles(old(Unread()), r, Unread()) && (!r.Crash? ==> Valid())
      ensures ending == old(ending)
      ensures r.Got? <==> old(pending) != []
      ensures if r.Got? then old(pending) == [r.pkt] + pending else pending == [] && EndingOf(r) == ending
    {
      start := |bytes| - remaining;
      ghost var stream := Unread();
      while true
        invariant start + remaining == |bytes| && pending == old(pending) && ending == old(ending)
        invariant bytes[start..] + incoming == stream
        decreases |incoming|
      {
        var taken := TakeSync();
        if taken.Some? {
          r := taken.value;
          break;
        }
        var read := RefillSync();
        if read == 0 {
          assert stream == bytes + [] == bytes;
          AtEnd(bytes);
          r := if bytes == [] then NoMore else UnexpectedEof;
          break;
        }
      }
      Settle(stream, r);
    }
  }

  /** `async_packet_read!`: the next packet, seen as packets only. */
  method ReadPacket(reader: PacketReader) returns (r: Outcome)
    requires reader.Valid()
    modifies reader
    ensures !r.Crash? ==> reader.Valid()
    ensures reader.ending == old(reader.ending)
    ensures r.Got? <==> old(reader.pending) != []
    ensures r.Got? ==> r.pkt == old(reader.pending)[0] && reader.pending == old(reader.pending)[1..]
    ensures !r.Got? ==> reader.pending == [] && EndingOf(r) == reader.ending
  {
    r := reader.NextAsync();
  }
}
