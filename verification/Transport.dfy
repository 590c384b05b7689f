/** Whole runs of the transport: draining a reader, and a writer feeding a reader. */
module Transport {
  import opened ByteStrings
  import opened Packets
  import opened Streams
  import opened PacketIO

  /** Repeated `next_async` until it yields no packet. */
  method DrainAsync(reader: PacketReader) returns (got: seq<Pkt>, end: Ending)
    requires reader.Valid()
    modifies reader
    ensures got == Received(old(reader.Unread())) && end == EndOf(old(reader.Unread()))
  {
    ghost var stream := reader.Unread();
    StreamBytes(stream, reader.pending, reader.ending);
    got := [];
    while true
      invariant reader.Valid()
      invariant got + reader.pending == Received(stream)
      invariant reader.ending == EndOf(stream)
      decreases |reader.pending|
    {
      var r := reader.NextAsync();
      if !r.Got? {
        return got, EndingOf(r);
      }
      got := got + [r.pkt];
    }
  }

  /** Repeated `next_read` until it yields no packet. */
  method DrainRead(reader: PacketReader) returns (got: seq<Pkt>, end: Ending)
    requires reader.Valid()
    modifies reader
    ensures got == Received(old(reader.Unread())) && end == EndOf(old(reader.Unread()))
  {
    ghost var stream := reader.Unread();
    StreamBytes(stream, reader.pending, reader.ending);
    got := [];
    while true
      invariant reader.Valid()
      invariant got + reader.pending == Received(stream)
      invariant reader.ending == EndOf(stream)
      decreases |reader.pending|
    {
      var r := reader.NextRead();
      if !r.Got? {
        return got, EndingOf(r);
      }
      got := got + [r.pkt];
    }
  }

  /** The two readers agree on every byte stream, whatever portions each of them is delivered. */
  method ReadersAgree(stream: Bytes) returns (got: seq<Pkt>, end: Ending, got': seq<Pkt>, end': Ending)
    ensures got == got' == Received(stream) && end == end' == EndOf(stream)
  {
    var a := new PacketReader(stream);
    got, end := DrainAsync(a);
    var b := new PacketReader(stream);
    got', end' := DrainRead(b);
  }

  /** Writes each packet the way every caller does: set the sequence id, write, end the packet. */
  method SendAll(ps: seq<Pkt>) returns (wire: Bytes)
    ensures (forall p :: p in ps ==> p.payload != []) ==> wire == WireAll(ps)
    ensures NoLonger(wire, WireAll(ps))
  {
    var writer := new PacketWriter(None);
    for k := 0 to |ps|
      invariant writer.Valid() && writer.buf == [] && writer.room == None
      invariant writer.log == ps[..k]
    {
      var ok := writer.Send(ps[k]);
      assert ps[..k + 1] == ps[..k] + [ps[k]];
    }
    assert ps[..|ps|] == ps;
    SentBytes(writer.sent, ps);
    wire := writer.sent;
  }

  /** End to end over any short writes and any delivery: the packets come out exactly as written and
      the stream ends cleanly iff every packet survives framing and no empty payload went out short. */
  method EndToEnd(ps: seq<Pkt>) returns (wire: Bytes, got: seq<Pkt>, end: Ending)
    ensures (forall p :: p in ps ==> p.payload != []) ==> wire == WireAll(ps)
    ensures got == AllAsReceived(ps) && end == Drained
            <==> wire == WireAll(ps) && forall p :: p in ps ==> Survives(p)
  {
    wire := SendAll(ps);
    var reader := new PacketReader(wire);
    got, end := DrainAsync(reader);
    TransportExactly(ps);
    if got == AllAsReceived(ps) && end == Drained {
      DrainedLength(wire);
      WrittenLength(ps);
    }
  }
}
