/** Prepared statements: what the proxy's own server side writes in answer to COM_STMT_PREPARE, and
    how many packets its forwarder expects of such an answer. */
module PreparedStatements {
  import opened ByteStrings
  import opened Packets
  import opened PacketIO
  import opened Codecs
  import opened Responses
  import opened QueryRuns
  import opened Forwarders

  // ---------- the writer ----------

  datatype Column = Column(table: Bytes, column: Bytes, columnType: Byte, flags: nat)

  function EofBytes(status: nat): Bytes
  {
    [0xfe, 0x00, 0x00] + ToLe(status, 2)
  }

  /** Protocol::ColumnDefinition41, as `write_column_definitions_41` writes it. */
  function DefinitionBytes(c: Column): (r: Bytes)
    requires |c.table| < U64 && |c.column| < U64
    ensures ColumnDef(r)
  {
    var catalog: Bytes := Text([0x64, 0x65, 0x66]);
    assert catalog == [3, 0x64, 0x65, 0x66];
    catalog + (Text([]) + Text(c.table) + Text([]) + Text(c.column) + Text([]) + Number(0xc)
               + ToLe(33, 2) + ToLe(1024, 4) + [c.columnType] + ToLe(c.flags, 2) + [0x00] + [0x00, 0x00])
  }

  ghost predicate Writable(cs: seq<Column>)
  {
    forall c :: c in cs ==> |c.table| < U64 && |c.column| < U64
  }

  function Definitions(cs: seq<Column>): (r: seq<Bytes>)
    requires Writable(cs)
    ensures |r| == |cs|
  {
    seq(|cs|, k requires 0 <= k < |cs| => DefinitionBytes(cs[k]))
  }

  /** The column definitions and, unless the client has done away with it, an EOF packet. */
  function DefinitionPayloads(cs: seq<Column>, caps: Flags): (r: seq<Bytes>)
    requires Writable(cs)
    ensures |r| == |cs| + if CLIENT_DEPRECATE_EOF in caps then 0 else 1
  {
    Definitions(cs) + if CLIENT_DEPRECATE_EOF in caps then [] else [EofBytes(0)]
  }

  /** COM_STMT_PREPARE_OK; the counts are cut to sixteen bits. */
  function PrepareOkBytes(id: nat, columns: nat, params: nat): Bytes
  {
    [0x00] + ToLe(id, 4) + ToLe(columns, 2) + ToLe(params, 2) + [0x00] + ToLe(0, 2)
  }

  function PreparePayloads(id: nat, params: seq<Column>, columns: seq<Column>, caps: Flags): seq<Bytes>
    requires Writable(params) && Writable(columns)
  {
    [PrepareOkBytes(id, |columns|, |params|)] + Block(params, caps) + Block(columns, caps)
  }

  /** Payloads numbered the way a writer numbers them, one step per frame. */
  function Numbered(sid: Byte, ps: seq<Bytes>): (r: seq<Pkt>)
    ensures |r| == |ps| && forall k :: 0 <= k < |ps| ==> r[k].payload == ps[k]
    decreases |ps|
  {
    if ps == [] then [] else [Pkt(sid, ps[0])] + Numbered(SidAfter(sid, ps[0]), ps[1..])
  }

  function SidAfterAll(sid: Byte, ps: seq<Bytes>): Byte
    decreases |ps|
  {
    if ps == [] then sid else SidAfterAll(SidAfter(sid, ps[0]), ps[1..])
  }

  lemma {:induction false} NumberedAppend(sid: Byte, a: seq<Bytes>, b: seq<Bytes>)
    ensures Numbered(sid, a + b) == Numbered(sid, a) + Numbered(SidAfterAll(sid, a), b)
    ensures SidAfterAll(sid, a + b) == SidAfterAll(SidAfterAll(sid, a), b)
    decreases |a|
  {
    if a == [] {
      assert a + b == b;
    } else {
      var sid1 := SidAfter(sid, a[0]);
      assert (a + b)[1..] == a[1..] + b;
      NumberedAppend(sid1, a[1..], b);
      Associative([Pkt(sid, a[0])], Numbered(sid1, a[1..]), Numbered(SidAfterAll(sid, a), b));
    }
  }

  method WritePacket(w: PacketWriter, payload: Bytes) returns (ok: bool)
    requires w.Valid() && w.buf == []
    modifies w
    ensures w.buf == [] && ok == (old(w.room) != Some(0)) && w.room == Less(old(w.room), 1)
    ensures ok ==> w.Valid() && w.log == old(w.log) + [Pkt(old(w.sid), payload)] && w.sid == SidAfter(old(w.sid), payload)
    ensures !ok ==> w.log == old(w.log)
  {
    w.Write(payload);
    assert w.buf == payload;
    ok := w.EndPacket();
  }

  /** A writer that was to write payloads, numbered from a sequence id, has written as many as its peer takes. */
  ghost predicate Wrote(ok: bool, w: PacketWriter, log: seq<Pkt>, sid: Byte, room: Room, ps: seq<Bytes>)
    reads w
  {
    && w.buf == [] && ok == Takes(room, |ps|) && w.room == Less(room, |ps|)
    && (ok ==> w.Valid() && w.log == log + Numbered(sid, ps) && w.sid == SidAfterAll(sid, ps))
    && (!ok ==> room.value < |ps| && w.log == log + Numbered(sid, ps)[..room.value])
  }

  /** Payloads written in two goes. */
  lemma WroteMore(
    ok: bool, w: PacketWriter, log: seq<Pkt>, sid: Byte, room: Room, a: seq<Bytes>, b: seq<Bytes>, log1: seq<Pkt>)
    requires Takes(room, |a|) && log1 == log + Numbered(sid, a)
    requires Wrote(ok, w, log1, SidAfterAll(sid, a), Less(room, |a|), b)
    ensures Wrote(ok, w, log, sid, room, a + b)
  {
    NumberedAppend(sid, a, b);
    LessLess(room, |a|, |b|);
    var (x, y) := (Numbered(sid, a), Numbered(SidAfterAll(sid, a), b));
    Associative(log, x, y);
    if !ok {
      assert (x + y)[..room.value] == x + y[..Less(room, |a|).value];
      Associative(log, x, y[..Less(room, |a|).value]);
    }
  }

  /** Payloads of which the first go has failed. */
  lemma WroteLess(w: PacketWriter, log: seq<Pkt>, sid: Byte, room: Room, a: seq<Bytes>, b: seq<Bytes>)
    requires Wrote(false, w, log, sid, room, a)
    ensures Wrote(false, w, log, sid, room, a + b)
  {
    NumberedAppend(sid, a, b);
    assert (Numbered(sid, a) + Numbered(SidAfterAll(sid, a), b))[..room.value] == Numbered(sid, a)[..room.value];
  }

  method WriteOne(w: PacketWriter, payload: Bytes) returns (ok: bool)
    requires w.Valid() && w.buf == []
    modifies w
    ensures Wrote(ok, w, old(w.log), old(w.sid), old(w.room), [payload])
  {
    NumberedOne(w.sid, payload);
    ok := WritePacket(w, payload);
    assert old(w.log) + [] == old(w.log);
  }

  lemma NumberedOne(sid: Byte, p: Bytes)
    ensures Numbered(sid, [p]) == [Pkt(sid, p)] && SidAfterAll(sid, [p]) == SidAfter(sid, p)
  {
    assert [p][1..] == [];
  }

  /** One payload more, behind those that have been written. */
  method WriteNext(
    w: PacketWriter, payload: Bytes, ghost log: seq<Pkt>, ghost sid: Byte, ghost room: Room, ghost ps: seq<Bytes>)
    returns (ok: bool)
    requires Wrote(true, w, log, sid, room, ps)
    modifies w
    ensures Wrote(ok, w, log, sid, room, ps + [payload])
  {
    ghost var before := w.log;
    ok := WriteOne(w, payload);
    WroteMore(ok, w, log, sid, room, ps, [payload], before);
  }

  /** The loop over the columns, given what is written for each: a packet that cannot be written ends it. */
  method WriteEach(ps: seq<Bytes>, w: PacketWriter) returns (ok: bool)
    requires w.Valid() && w.buf == []
    modifies w
    ensures Wrote(ok, w, old(w.log), old(w.sid), old(w.room), ps)
  {
    ghost var log, sid, room := w.log, w.sid, w.room;
    assert log + [] == log;
    for k := 0 to |ps|
      invariant Wrote(true, w, log, sid, room, ps[..k])
    {
      ok := WriteNext(w, ps[k], log, sid, room, ps[..k]);
      assert ps[..k] + [ps[k]] == ps[..k + 1];
      if !ok {
        WroteLess(w, log, sid, room, ps[..k + 1], ps[k + 1..]);
        assert ps[..k + 1] + ps[k + 1..] == ps;
        return;
      }
    }
    ok := true;
    assert ps[..|ps|] == ps;
  }

  /** `write_column_definitions_41` */
  method WriteDefinitions(cs: seq<Column>, w: PacketWriter, caps: Flags) returns (ok: bool)
    requires w.Valid() && w.buf == [] && Writable(cs)
    modifies w
    ensures Wrote(ok, w, old(w.log), old(w.sid), old(w.room), DefinitionPayloads(cs, caps))
  {
    ghost var log, sid, room := w.log, w.sid, w.room;
    ghost var eof: seq<Bytes> := if CLIENT_DEPRECATE_EOF in caps then [] else [EofBytes(0)];
    ok := WriteEach(Definitions(cs), w);
    if !ok {
      WroteLess(w, log, sid, room, Definitions(cs), eof);
    } else if CLIENT_DEPRECATE_EOF !in caps {
      ok := WriteNext(w, EofBytes(0), log, sid, room, Definitions(cs));
    } else {
      assert Definitions(cs) + eof == Definitions(cs);
    }
  }

  /** The definitions of the parameters or of the columns, if there are any. */
  function Block(cs: seq<Column>, caps: Flags): seq<Bytes>
    requires Writable(cs)
  {
    if cs == [] then [] else DefinitionPayloads(cs, caps)
  }

  method WriteBlock(cs: seq<Column>, w: PacketWriter, caps: Flags) returns (ok: bool)
    requires w.Valid() && w.buf == [] && Writable(cs)
    modifies w
    ensures Wrote(ok, w, old(w.log), old(w.sid), old(w.room), Block(cs, caps))
  {
    ok := true;
    if |cs| > 0 {
      ok := WriteDefinitions(cs, w, caps);
    } else {
      assert w.log + [] == w.log;
    }
  }

  /** `write_prepare_ok`: the packets of the answer, as many of them as the client takes. */
  method WritePrepareOk(id: nat, params: seq<Column>, columns: seq<Column>, w: PacketWriter, caps: Flags)
    returns (ok: bool)
    requires w.Valid() && w.buf == [] && Writable(params) && Writable(columns)
    modifies w
    ensures Wrote(ok, w, old(w.log), old(w.sid), old(w.room), PreparePayloads(id, params, columns, caps))
  {
    ghost var log, sid, room := w.log, w.sid, w.room;
    ghost var a, b, c := [PrepareOkBytes(id, |columns|, |params|)], Block(params, caps), Block(columns, caps);
    ok := WriteOne(w, PrepareOkBytes(id, |columns|, |params|));
    if !ok {
      WroteLess(w, log, sid, room, a, b);
      WroteLess(w, log, sid, room, a + b, c);
      return;
    }
    ghost var log1 := w.log;
    ok := WriteBlock(params, w, caps);
    WroteMore(ok, w, log, sid, room, a, b, log1);
    if !ok {
      WroteLess(w, log, sid, room, a + b, c);
      return;
    }
    ghost var log2 := w.log;
    ok := WriteBlock(columns, w, caps);
    WroteMore(ok, w, log, sid, room, a + b, c, log2);
  }

  // ---------- the forwarder ----------

  /** `column + params`, plus one for each EOF packet to come, in sixteen-bit arithmetic. */
  function Expected(columns: nat, params: nat, caps: Flags): (r: Option<nat>)
    requires columns < U16 && params < U16
    ensures r.Some? ==> r.value < U16
    ensures columns + params + Eofs(columns, params, caps) < U16 ==>
              r == Some(columns + params + Eofs(columns, params, caps))
  {
    match CheckedAdd(columns, params, U16) case None => None case Some(n) =>
    match (if CLIENT_DEPRECATE_EOF !in caps && columns > 0 then CheckedAdd(n, 1, U16) else Some(n))
    case None => None
    case Some(m) => if CLIENT_DEPRECATE_EOF !in caps && params > 0 then CheckedAdd(m, 1, U16) else Some(m)
  }

  function Eofs(columns: nat, params: nat, caps: Flags): nat
  {
    if CLIENT_DEPRECATE_EOF in caps then 0
    else (if columns > 0 then 1 else 0) + (if params > 0 then 1 else 0)
  }

  /** The number of packets a COM_STMT_PREPARE_OK announces; `None` if reading it panics. */
  function Announced(p: Bytes, caps: Flags): (r: Option<nat>)
    ensures r.Some? ==> r.value < U16
  {
    if |p| < 9 then None else
    LeInjective(p[5..7]);
    LeInjective(p[7..9]);
    Pow256Values();
    Expected(FromLe(p[5..7]), FromLe(p[7..9]), caps)
  }

  /** `forward_prepare_stmt` on the packets a backend delivers. */
  function Prepare(pkts: seq<Pkt>, caps: Flags): (r: Run)
    ensures !r.Starved? ==> |r.rest| < |pkts|
  {
    if pkts == [] then Starved else
    var p := pkts[0].payload;
    if IsErr(p) then Finished(pkts[1..], {})
    else if !IsOk(p) then Panicked(pkts[1..])
    else
      match Announced(p, caps)
      case None => Panicked(pkts[1..])
      case Some(n) => Counted(pkts[1..], n)
  }

  /** So many packets, if there are that many. */
  function Counted(pkts: seq<Pkt>, n: nat): (r: Run)
    ensures !r.Starved? ==> |r.rest| <= |pkts|
  {
    if |pkts| < n then Starved else Finished(pkts[n..], {})
  }

  /** The counted loop, which passes on `n` packets or as many as there are, and the flush behind it. */
  method ForwardCounted(n: nat, backend: PacketReader, client: PacketWriter) returns (r: Return)
    requires client.Valid() && client.buf == [] && backend.Valid()
    modifies client, backend
    ensures Forwarded(r, Counted(old(backend.pending), n), backend, client,
                      old(backend.ending), old(client.room), old(client.log), old(backend.pending))
  {
    ghost var pkts, room := backend.pending, client.room;
    ghost var run := Counted(pkts, n);
    assert pkts[0..] == pkts && old(client.log) + pkts[..0] == old(client.log);
    for k := 0 to n
      invariant Underway(backend, client, old(backend.ending), room, old(client.log), pkts, k)
    {
      var o := ForwardOnePacket(client, backend, false);
      if !o.Passed? {
        StopsHere(run, pkts, k, room, backend.ending);
        return Failure(o);
      }
      PassedOne(old(client.log), pkts, k, room);
    }
    client.FlushAll();
    EndsHere(run, pkts, n, room, backend.ending);
    return Return.Ok({});
  }

  /** What follows the header, which has been passed on. */
  method ForwardAnnounced(
    n: nat, backend: PacketReader, client: PacketWriter, ghost run: Run, ghost room: Room, ghost log: seq<Pkt>,
    ghost pkts: seq<Pkt>)
    returns (r: Return)
    requires pkts != [] && run == Counted(pkts[1..], n) && Underway(backend, client, backend.ending, room, log, pkts, 1)
    modifies client, backend
    ensures Forwarded(r, run, backend, client, old(backend.ending), room, log, pkts)
  {
    r := ForwardCounted(n, backend, client);
    HandsOver(r, run, backend, client, backend.ending, room, log, pkts, 1);
  }

  /** `forward_prepare_stmt` */
  method ForwardPrepareStmt(caps: Flags, backend: PacketReader, client: PacketWriter) returns (r: Return)
    requires client.Valid() && client.buf == [] && backend.Valid()
    modifies client, backend
    ensures Forwarded(r, Prepare(old(backend.pending), caps), backend, client,
                      old(backend.ending), old(client.room), old(client.log), old(backend.pending))
  {
    ghost var pkts, room := backend.pending, client.room;
    ghost var run := Prepare(pkts, caps);
    assert pkts[0..] == pkts && old(client.log) + pkts[..0] == old(client.log);
    var o := ForwardOnePacket(client, backend, false);
    if !o.Passed? {
      StopsHere(run, pkts, 0, room, backend.ending);
      return Failure(o);
    }
    PassedOne(old(client.log), pkts, 0, room);
    var p := o.pkt.payload;
    if IsErr(p) {
      client.FlushAll();
      EndsHere(run, pkts, 1, room, backend.ending);
      return Return.Ok({});
    } else if !IsOk(p) {
      EndsHere(run, pkts, 1, room, backend.ending);
      return Return.Panic;
    }
    var announced := Announced(p, caps);
    if announced.None? {
      EndsHere(run, pkts, 1, room, backend.ending);
      return Return.Panic;
    }
    r := ForwardAnnounced(announced.value, backend, client, run, room, old(client.log), pkts);
  }

  /** Writer and forwarder agree exactly up to the sixteen-bit limit: whatever follows, the forwarder
      consumes the packets the writer emits, no more and no fewer, iff the parameters, columns and
      EOF packets together number at most 65535. */
  lemma PrepareAgreement(
    sid: Byte, id: nat, params: seq<Column>, columns: seq<Column>, t: seq<Pkt>, caps: Flags)
    requires Writable(params) && Writable(columns)
    ensures Prepare(Numbered(sid, PreparePayloads(id, params, columns, caps)) + t, caps) == Finished(t, {})
            <==> |columns| + |params| + Eofs(|columns|, |params|, caps) < U16
  {
    var emitted := Numbered(sid, PreparePayloads(id, params, columns, caps));
    var p := PrepareOkBytes(id, |columns|, |params|);
    assert (emitted + t)[0].payload == p;
    assert |emitted| == 1 + |columns| + |params| + Eofs(|columns|, |params|, caps);
    assert IsOk(p) && !IsErr(p);
    if |columns| + |params| + Eofs(|columns|, |params|, caps) < U16 {
      AnnouncedExactly(id, |columns|, |params|, caps);
      assert (emitted + t)[1..][|emitted| - 1..] == t;
    }
  }

  lemma AnnouncedExactly(id: nat, columns: nat, params: nat, caps: Flags)
    requires columns + params + Eofs(columns, params, caps) < U16
    ensures Announced(PrepareOkBytes(id, columns, params), caps) == Some(columns + params + Eofs(columns, params, caps))
  {
    var p := PrepareOkBytes(id, columns, params);
    assert p[5..7] == ToLe(columns, 2);
    assert p[7..9] == ToLe(params, 2);
    Pow256Values();
    LeRoundTrip(columns, 2);
    LeRoundTrip(params, 2);
  }

  // ---------- what a client reads of it ----------

  /** COM_STMT_PREPARE_OK, field by field: the statement id, the number of columns and that of parameters, cut to their
      sizes, no warnings. */
  lemma PrepareOkLayout(id: nat, columns: nat, params: nat)
    ensures var p := PrepareOkBytes(id, columns, params);
            && |p| == 12 && p[0] == 0x00 && FromLe(p[1..5]) == id % 0x1_0000_0000
            && FromLe(p[5..7]) == columns % U16 && FromLe(p[7..9]) == params % U16
            && p[9] == 0x00 && FromLe(p[10..]) == 0
  {
    var zero: Bytes := [0x00];
    var (a, b, c, d) := (ToLe(id, 4), ToLe(columns, 2), ToLe(params, 2), ToLe(0, 2));
    MiddleOf(zero, a, b + (c + (zero + d)));
    MiddleOf(zero + a, b, c + (zero + d));
    MiddleOf(zero + a + b, c, zero + d);
    MiddleOf(zero + a + b + c + zero, d, []);
    Nested(zero, a, b, c, zero, d);
    Associative(zero, a, b + (c + (zero + d)));
    Associative(zero + a, b, c + (zero + d));
    Associative(zero + a + b, c, zero + d);
    Associative(zero + a + b + c, zero, d);
    Pow256Values();
    LeCut(id, 4);
    LeCut(columns, 2);
    LeCut(params, 2);
    LeCut(0, 2);
  }

  lemma MiddleOf(a: Bytes, b: Bytes, c: Bytes)
    ensures (a + b + c)[|a|..|a| + |b|] == b
  {
  }

  lemma EofLayout(status: nat)
    requires status < U16
    ensures EofPacket(EofBytes(status), status) && EofBytes(status)[1..3] == [0x00, 0x00]
  {
  }

  /** A client's reader of Protocol::ColumnDefinition41: catalog, schema, table, original table, name, original name,
      the length of what follows, character set, column length, type, flags, decimals and filler. */
  datatype Definition = Definition(
    catalog: Bytes, schema: Bytes, table: Bytes, orgTable: Bytes, name: Bytes, orgName: Bytes, fixed: nat,
    charset: nat, length: nat, columnType: nat, flags: nat, decimals: nat)

  function ReadDefinition(p: Bytes): Read<Definition>
  {
    match ReadString(p) case Fail => Fail case Ok(p1, catalog) =>
    match ReadString(p1) case Fail => Fail case Ok(p2, schema) =>
    match ReadString(p2) case Fail => Fail case Ok(p3, table) =>
    match ReadString(p3) case Fail => Fail case Ok(p4, orgTable) =>
    match ReadString(p4) case Fail => Fail case Ok(p5, name) =>
    match ReadString(p5) case Fail => Fail case Ok(p6, orgName) =>
    match ReadNumber(p6) case Fail => Fail case Ok(p7, fixed) =>
    ReadFixed(p7, Definition(catalog, schema, table, orgTable, name, orgName, fixed, 0, 0, 0, 0, 0))
  }

  function ReadFixed(p: Bytes, d: Definition): Read<Definition>
  {
    match ReadLe(p, 2) case Fail => Fail case Ok(p1, charset) =>
    match ReadLe(p1, 4) case Fail => Fail case Ok(p2, length) =>
    match ReadLe(p2, 1) case Fail => Fail case Ok(p3, columnType) =>
    match ReadLe(p3, 2) case Fail => Fail case Ok(p4, flags) =>
    match ReadLe(p4, 1) case Fail => Fail case Ok(p5, decimals) =>
    match Take(p5, 2) case Fail => Fail case Ok(p6, _) =>
    Read.Ok(p6, d.(charset := charset, length := length, columnType := columnType, flags := flags, decimals := decimals))
  }

  function FixedBytes(c: Column): Bytes
  {
    ToLe(33, 2) + (ToLe(1024, 4) + ([c.columnType] + (ToLe(c.flags, 2) + ([0x00] + [0x00, 0x00]))))
  }

  lemma FlagsReadBack(flags: nat)
    requires flags < U16
    ensures var p := ToLe(flags, 2) + ([0x00] + [0x00, 0x00]);
            && ReadLe(p, 2) == Read.Ok([0x00] + [0x00, 0x00], flags)
            && ReadLe([0x00] + [0x00, 0x00], 1) == Read.Ok([0x00, 0x00], 0)
            && Take([0x00, 0x00], 2) == Read.Ok([], [0x00, 0x00])
  {
    Pow256Values();
    var filler: Bytes := [0x00, 0x00];
    assert filler[2..] == [] && filler[..2] == filler;
    assert ToLe(0, 1) == [0x00];
    LeReadBack(flags, 2, [0x00] + [0x00, 0x00]);
    LeReadBack(0, 1, [0x00, 0x00]);
  }

  lemma FixedReadBack(c: Column, d: Definition)
    requires c.flags < U16
    ensures ReadFixed(FixedBytes(c), d) ==
            Read.Ok([], d.(charset := 33, length := 1024, columnType := c.columnType, flags := c.flags, decimals := 0))
  {
    Pow256Values();
    var t3 := ToLe(c.flags, 2) + ([0x00] + [0x00, 0x00]);
    var t2 := [c.columnType] + t3;
    assert ToLe(c.columnType, 1) == [c.columnType];
    LeReadBack(33, 2, ToLe(1024, 4) + t2);
    LeReadBack(1024, 4, t2);
    LeReadBack(c.columnType, 1, t3);
    FlagsReadBack(c.flags);
  }

  /** Five appends, right nested. */
  lemma Nested(a: Bytes, b: Bytes, c: Bytes, d: Bytes, e: Bytes, f: Bytes)
    ensures a + b + c + d + e + f == a + (b + (c + (d + (e + f))))
  {
    Associative(a + b + c + d, e, f);
    Associative(a + b + c, d, e + f);
    Associative(a + b, c, d + (e + f));
    Associative(a, b, c + (d + (e + f)));
  }

  lemma DefinitionNested(c: Column)
    requires |c.table| < U64 && |c.column| < U64
    ensures DefinitionBytes(c) ==
            Text([0x64, 0x65, 0x66]) + (Text([]) + (Text(c.table) + (Text([]) + (Text(c.column) + (Text([])
            + (Number(0xc) + FixedBytes(c)))))))
  {
    var names := Text([]) + Text(c.table) + Text([]) + Text(c.column) + Text([]);
    var (p, q, x, y, z) := (ToLe(33, 2), ToLe(1024, 4), [c.columnType], ToLe(c.flags, 2), [0x00, 0x00]);
    Nested(names + Number(0xc) + p, q, x, y, [0x00], z);
    Associative(names + Number(0xc), p, q + (x + (y + ([0x00] + z))));
    Associative(names, Number(0xc), FixedBytes(c));
    Nested(Text([]), Text(c.table), Text([]), Text(c.column), Text([]), Number(0xc) + FixedBytes(c));
  }

  /** Every definition is read back: the table, the name, the type and the flags of its column, and the constants. */
  lemma DefinitionReadBack(c: Column)
    requires |c.table| < U64 && |c.column| < U64 && c.flags < U16
    ensures ReadDefinition(DefinitionBytes(c)) ==
            Read.Ok([], Definition([0x64, 0x65, 0x66], [], c.table, [], c.column, [], 0xc, 33, 1024, c.columnType, c.flags, 0))
  {
    DefinitionNested(c);
    var t6 := Number(0xc) + FixedBytes(c);
    var t5 := Text([]) + t6;
    var t4 := Text(c.column) + t5;
    var t3 := Text([]) + t4;
    var t2 := Text(c.table) + t3;
    var t1 := Text([]) + t2;
    TextReadBack([0x64, 0x65, 0x66], t1);
    TextReadBack([], t2);
    TextReadBack(c.table, t3);
    TextReadBack([], t4);
    TextReadBack(c.column, t5);
    TextReadBack([], t6);
    NumberReadBack(0xc, FixedBytes(c));
    FixedReadBack(c, Definition([0x64, 0x65, 0x66], [], c.table, [], c.column, [], 0xc, 0, 0, 0, 0, 0));
  }

  lemma DefinitionsInOrder(cs: seq<Column>)
    requires Writable(cs)
    ensures forall k :: 0 <= k < |cs| ==> Definitions(cs)[k] == DefinitionBytes(cs[k])
  {
  }

  /** A block of the answer: the definitions, and behind them an EOF packet unless the client has done away with it. */
  lemma BlockOrder(cs: seq<Column>, caps: Flags)
    requires Writable(cs) && cs != []
    ensures Block(cs, caps) == Definitions(cs) + if CLIENT_DEPRECATE_EOF in caps then [] else [EofBytes(0)]
    ensures forall k :: 0 <= k < |cs| ==> Block(cs, caps)[k] == DefinitionBytes(cs[k])
  {
    DefinitionsInOrder(cs);
  }

  /** The order of the answer: the header, the block of the parameters if there are any, and that of the columns. */
  lemma PrepareOrder(id: nat, params: seq<Column>, columns: seq<Column>, caps: Flags)
    requires Writable(params) && Writable(columns)
    ensures var ps := PreparePayloads(id, params, columns, caps);
            var n := 1 + |Block(params, caps)|;
            && |ps| == n + |Block(columns, caps)| && ps[0] == PrepareOkBytes(id, |columns|, |params|)
            && ps[1..n] == Block(params, caps) && ps[n..] == Block(columns, caps)
    ensures Block([], caps) == []
  {
    var (h, a, b) := ([PrepareOkBytes(id, |columns|, |params|)], Block(params, caps), Block(columns, caps));
    assert (h + a + b)[1..1 + |a|] == a && (h + a + b)[1 + |a|..] == b;
  }

  /** What the forwarder expects, in full: the sum if it fits in sixteen bits; else a panic in a build that checks for
      overflow, and in any other the sum cut to sixteen bits. */
  lemma ExpectedExactly(columns: nat, params: nat, caps: Flags)
    requires columns < U16 && params < U16
    ensures var n := columns + params + Eofs(columns, params, caps);
            Expected(columns, params, caps) == if n < U16 || !OVERFLOW_CHECKS then Some(n % U16) else None
  {
  }

  /** Which answers the forwarder cannot count: neither OK nor ERR, or too short for the counts. */
  lemma UncountedPanics(pkts: seq<Pkt>, caps: Flags)
    requires pkts != []
    ensures var p := pkts[0].payload;
            && (p == [] || (p[0] != 0x00 && p[0] != 0xff) ==> Prepare(pkts, caps) == Panicked(pkts[1..]))
            && (p != [] && p[0] == 0x00 && |p| < 9 ==> Prepare(pkts, caps) == Panicked(pkts[1..]))
            && (p != [] && p[0] == 0xff ==> Prepare(pkts, caps) == Finished(pkts[1..], {}))
  {
  }
}
