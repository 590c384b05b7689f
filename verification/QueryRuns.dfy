/** Where the response to a query ends: the forwarder's decision as a function of the packets it
    sees, and the grammar of responses it has to get right. */
module QueryRuns {
  import opened ByteStrings
  import opened Packets
  import opened Codecs
  import opened Responses

  /** The status bits the library knows; an unknown bit makes `from_bits` fail. */
  const KNOWN_STATUS: Flags := {0, 1, 3, 4, 5, 6, 7, 8, 9, 10, 11, 12, 13, 14}

  /** A forwarder's run on the packets a backend delivers: it finishes leaving some of them, runs out
      of packets, or panics, leaving some too. */
  datatype Run = Finished(rest: seq<Pkt>, status: Flags) | Starved | Panicked(rest: seq<Pkt>)

  /** What a run leaves unread. Whatever it does not leave it has passed on. */
  function RestOf(run: Run): seq<Pkt>
  {
    if run.Starved? then [] else run.rest
  }

  // ---------- the forwarder ----------

  /** `forward_until_result_end` */
  function UntilEnd(pkts: seq<Pkt>, caps: Flags): (r: Run)
    ensures !r.Starved? ==> |r.rest| < |pkts|
  {
    if pkts == [] then Starved else
    var p := pkts[0].payload;
    if IsErr(p) then Finished(pkts[1..], {})
    else if CLIENT_DEPRECATE_EOF !in caps && IsEof(p) then
      if |p| < 5 then Panicked(pkts[1..]) else Finished(pkts[1..], Bits(FromLe(p[3..5]), 16) * KNOWN_STATUS)
    else if CLIENT_DEPRECATE_EOF in caps && IsResultSetEof(p) then
      match ReadOk(p, caps)
      case Ok(_, ok) => Finished(pkts[1..], Bits(ok.status, 16))
      case Fail => Panicked(pkts[1..])
    else UntilEnd(pkts[1..], caps)
  }

  /** The loop of `forward_result` up to the EOF packet behind the column definitions. */
  function ToFirstEof(pkts: seq<Pkt>): (r: Run)
    ensures !r.Starved? ==> |r.rest| < |pkts|
  {
    if pkts == [] then Starved else
    var p := pkts[0].payload;
    if !IsEof(p) then ToFirstEof(pkts[1..])
    else if |p| < 5 then Panicked(pkts[1..])
    else Finished(pkts[1..], Bits(FromLe(p[3..5]), 16))
  }

  /** The test by which the forwarder sees that a cursor was opened and no rows follow. */
  predicate CursorSeen(status: Flags)
  {
    status <= KNOWN_STATUS && SERVER_STATUS_CURSOR_EXISTS in status
  }

  /** `forward_result` */
  function ResultSet(pkts: seq<Pkt>, caps: Flags): (r: Run)
    ensures !r.Starved? ==> |r.rest| < |pkts|
  {
    if CLIENT_DEPRECATE_EOF in caps then UntilEnd(pkts, caps) else
    match ToFirstEof(pkts)
    case Finished(rest, status) => if CursorSeen(status) then Finished(rest, status) else UntilEnd(rest, caps)
    case other => other
  }

  /** The first packet of a result, and what follows it if it opens a result set. */
  function OneResult(pkts: seq<Pkt>, caps: Flags): (r: Run)
    ensures !r.Starved? ==> |r.rest| < |pkts|
  {
    if pkts == [] then Starved else
    var p := pkts[0].payload;
    if IsOk(p) then
      match ReadOk(p, caps)
      case Ok(_, ok) => Finished(pkts[1..], Bits(ok.status, 16))
      case Fail => Panicked(pkts[1..])
    else if IsErr(p) then Finished(pkts[1..], {})
    else if IsLocalInFile(p) then Panicked(pkts[1..])
    else ResultSet(pkts[1..], caps)
  }

  /** `forward_query` */
  function Query(pkts: seq<Pkt>, caps: Flags): (r: Run)
    ensures !r.Starved? ==> |r.rest| < |pkts|
    decreases |pkts|
  {
    match OneResult(pkts, caps)
    case Finished(rest, status) =>
      if SERVER_MORE_RESULTS_EXISTS in status then Query(rest, caps) else Finished(rest, status)
    case other => other
  }

  // ---------- responses ----------

  /** How a list of rows or definitions ends: with its terminator, or cut short by an error. */
  datatype Close = Close(pkt: Pkt, status: nat) | Aborted(pkt: Pkt)

  datatype Result =
    | Done(pkt: Pkt, status: nat)
    | Failed(pkt: Pkt)
    | RowSet(count: Pkt, defs: seq<Pkt>, mid: seq<Pkt>, midStatus: nat, rows: seq<Pkt>, close: Close)
    | CursorSet(count: Pkt, defs: seq<Pkt>, eof: Pkt, status: nat)

  ghost predicate AllData(pkts: seq<Pkt>)
  {
    forall k :: 0 <= k < |pkts| ==> Row(pkts[k].payload) || ColumnDef(pkts[k].payload)
  }

  ghost predicate Closes(c: Close, caps: Flags)
  {
    match c
    case Close(pkt, status) => Terminator(pkt.payload, status, caps)
    case Aborted(pkt) => ErrPacket(pkt.payload)
  }

  function CloseFlags(c: Close, caps: Flags): Flags
  {
    match c
    case Close(_, status) => if CLIENT_DEPRECATE_EOF in caps then Bits(status, 16) else Bits(status, 16) * KNOWN_STATUS
    case Aborted(_) => {}
  }

  ghost predicate Header(count: Pkt, defs: seq<Pkt>)
  {
    && 0 < |defs| < U16 && count.payload == Number(|defs|)
    && forall k :: 0 <= k < |defs| ==> ColumnDef(defs[k].payload)
  }

  /** The grammar of one result, in either EOF mode. */
  ghost predicate Conforms(r: Result, caps: Flags)
  {
    match r
    case Done(pkt, status) => OkPacketOf(pkt.payload, 0x00, status, caps)
    case Failed(pkt) => ErrPacket(pkt.payload)
    case RowSet(count, defs, mid, midStatus, rows, close) =>
      && Header(count, defs)
      && (forall k :: 0 <= k < |rows| ==> Row(rows[k].payload))
      && Closes(close, caps)
      && (if CLIENT_DEPRECATE_EOF in caps then mid == []
          else |mid| == 1 && EofPacket(mid[0].payload, midStatus)
               && SERVER_STATUS_CURSOR_EXISTS !in Bits(midStatus, 16))
    case CursorSet(count, defs, eof, status) =>
      && CLIENT_DEPRECATE_EOF !in caps
      && Header(count, defs) && EofPacket(eof.payload, status)
      && SERVER_STATUS_CURSOR_EXISTS in Bits(status, 16) && Bits(status, 16) <= KNOWN_STATUS
  }

  function PacketsOf(r: Result): seq<Pkt>
  {
    match r
    case Done(pkt, _) => [pkt]
    case Failed(pkt) => [pkt]
    case RowSet(count, defs, mid, _, rows, close) => [count] + (defs + (mid + (rows + [close.pkt])))
    case CursorSet(count, defs, eof, _) => [count] + (defs + [eof])
  }

  function FlagsOf(r: Result, caps: Flags): Flags
  {
    match r
    case Done(_, status) => Bits(status, 16)
    case Failed(_) => {}
    case RowSet(_, _, _, _, _, close) => CloseFlags(close, caps)
    case CursorSet(_, _, _, status) => Bits(status, 16)
  }

  /** A response: results of which all but the last announce another one. */
  ghost predicate Response(rs: seq<Result>, caps: Flags)
  {
    && rs != []
    && (forall k :: 0 <= k < |rs| ==> Conforms(rs[k], caps))
    && (forall k :: 0 <= k < |rs| ==>
          (SERVER_MORE_RESULTS_EXISTS in FlagsOf(rs[k], caps) <==> k < |rs| - 1))
  }

  function AllPackets(rs: seq<Result>): seq<Pkt>
  {
    if rs == [] then [] else PacketsOf(rs[0]) + AllPackets(rs[1..])
  }

  lemma OnlyPackets(r: Result)
    ensures AllPackets([r]) == PacketsOf(r)
  {
    assert [r][1..] == [];
    assert PacketsOf(r) + [] == PacketsOf(r);
  }

  // ---------- the forwarder ends exactly where the response ends ----------

  lemma {:induction false} SkipData(data: seq<Pkt>, t: seq<Pkt>, caps: Flags)
    requires AllData(data)
    ensures UntilEnd(data + t, caps) == UntilEnd(t, caps)
    ensures ToFirstEof(data + t) == ToFirstEof(t)
  {
    if data == [] {
      assert data + t == t;
    } else {
      RowIsData(data[0].payload);
      assert (data + t)[1..] == data[1..] + t;
      SkipData(data[1..], t, caps);
    }
  }

  lemma CloseEnds(c: Close, t: seq<Pkt>, caps: Flags)
    requires Closes(c, caps)
    ensures UntilEnd([c.pkt] + t, caps) == Finished(t, CloseFlags(c, caps))
  {
    assert ([c.pkt] + t)[1..] == t;
    if c.Close? {
      if CLIENT_DEPRECATE_EOF in caps {
        OkStatus(c.pkt.payload, 0xfe, c.status, caps);
      } else {
        EofStatus(c.pkt.payload, c.status);
      }
    }
  }

  /** Rows or definitions and the packet that closes them: what COM_STMT_FETCH and COM_FIELD_LIST return. */
  lemma ListExact(data: seq<Pkt>, c: Close, t: seq<Pkt>, caps: Flags)
    requires AllData(data) && Closes(c, caps)
    ensures UntilEnd(data + ([c.pkt] + t), caps) == Finished(t, CloseFlags(c, caps))
  {
    SkipData(data, [c.pkt] + t, caps);
    CloseEnds(c, t, caps);
  }

  lemma FirstEof(defs: seq<Pkt>, eof: Pkt, status: nat, t: seq<Pkt>)
    requires AllData(defs) && EofPacket(eof.payload, status)
    ensures ToFirstEof(defs + ([eof] + t)) == Finished(t, Bits(status, 16))
  {
    SkipData(defs, [eof] + t, {});
    EofStatus(eof.payload, status);
    assert ([eof] + t)[1..] == t;
  }

  lemma RowSetExact(r: Result, t: seq<Pkt>, caps: Flags)
    requires r.RowSet? && Conforms(r, caps)
    ensures ResultSet(r.defs + (r.mid + (r.rows + ([r.close.pkt] + t))), caps) == Finished(t, FlagsOf(r, caps))
  {
    var u := r.rows + ([r.close.pkt] + t);
    ListExact(r.rows, r.close, t, caps);
    if CLIENT_DEPRECATE_EOF in caps {
      assert r.mid + u == u;
      SkipData(r.defs, u, caps);
    } else {
      assert r.mid == [r.mid[0]];
      FirstEof(r.defs, r.mid[0], r.midStatus, u);
    }
  }

  lemma ColumnCountOpens(count: Pkt, defs: seq<Pkt>, u: seq<Pkt>, caps: Flags)
    requires Header(count, defs)
    ensures OneResult([count] + u, caps) == ResultSet(u, caps)
  {
    ColumnCountIsData(|defs|);
    assert ([count] + u)[1..] == u;
  }

  lemma RowSetPackets(r: Result, t: seq<Pkt>)
    requires r.RowSet?
    ensures PacketsOf(r) + t == [r.count] + (r.defs + (r.mid + (r.rows + ([r.close.pkt] + t))))
  {
  }

  lemma OpenedExact(r: Result, t: seq<Pkt>, caps: Flags)
    requires r.RowSet? && Conforms(r, caps)
    ensures OneResult(PacketsOf(r) + t, caps) == Finished(t, FlagsOf(r, caps))
  {
    RowSetPackets(r, t);
    ColumnCountOpens(r.count, r.defs, r.defs + (r.mid + (r.rows + ([r.close.pkt] + t))), caps);
    RowSetExact(r, t, caps);
  }

  lemma CursorExact(r: Result, t: seq<Pkt>, caps: Flags)
    requires r.CursorSet? && Conforms(r, caps)
    ensures OneResult(PacketsOf(r) + t, caps) == Finished(t, FlagsOf(r, caps))
  {
    var u := r.defs + ([r.eof] + t);
    assert PacketsOf(r) + t == [r.count] + u;
    ColumnCountOpens(r.count, r.defs, u, caps);
    FirstEof(r.defs, r.eof, r.status, t);
  }

  lemma OneResultExact(r: Result, t: seq<Pkt>, caps: Flags)
    requires Conforms(r, caps)
    ensures OneResult(PacketsOf(r) + t, caps) == Finished(t, FlagsOf(r, caps))
  {
    match r
    case Done(pkt, status) =>
      OkStatus(pkt.payload, 0x00, status, caps);
      assert ([pkt] + t)[1..] == t;
    case Failed(pkt) => assert ([pkt] + t)[1..] == t;
    case RowSet(_, _, _, _, _, _) => OpenedExact(r, t, caps);
    case CursorSet(_, _, _, _) => CursorExact(r, t, caps);
  }

  /** For every response of the grammar (any number of result sets, columns and rows, either EOF
      mode, cursors, errors at any row) and any packets behind it, the forwarder consumes exactly
      the response. */
  lemma {:induction false} QueryExact(rs: seq<Result>, t: seq<Pkt>, caps: Flags)
    requires Response(rs, caps)
    ensures Query(AllPackets(rs) + t, caps) == Finished(t, FlagsOf(rs[|rs| - 1], caps))
    decreases |rs|
  {
    var u := AllPackets(rs[1..]) + t;
    Associative(PacketsOf(rs[0]), AllPackets(rs[1..]), t);
    OneResultExact(rs[0], u, caps);
    if |rs| == 1 {
      assert AllPackets(rs[1..]) + t == t;
    } else {
      QueryExact(rs[1..], t, caps);
    }
  }

  /** A cursor is the one case where exactness needs more than the grammar: the forwarder stops at the
      EOF packet that announces a cursor iff every bit of its status is a known one. */
  lemma CursorExactly(count: Pkt, defs: seq<Pkt>, eof: Pkt, status: nat, t: seq<Pkt>, caps: Flags)
    requires CLIENT_DEPRECATE_EOF !in caps && Header(count, defs) && EofPacket(eof.payload, status)
    requires SERVER_STATUS_CURSOR_EXISTS in Bits(status, 16) && SERVER_MORE_RESULTS_EXISTS !in Bits(status, 16)
    ensures (exists flags :: Query([count] + (defs + ([eof] + t)), caps) == Finished(t, flags))
            <==> Bits(status, 16) <= KNOWN_STATUS
  {
    var u := defs + ([eof] + t);
    ColumnCountOpens(count, defs, u, caps);
    FirstEof(defs, eof, status, t);
    assert ResultSet(u, caps) ==
           if Bits(status, 16) <= KNOWN_STATUS then Finished(t, Bits(status, 16)) else UntilEnd(t, caps);
  }

  /** Without a cursor, whatever other bits the status has, the rows are forwarded: the run goes on behind the EOF
      packet until the result ends. */
  lemma NoCursorGoesOn(count: Pkt, defs: seq<Pkt>, eof: Pkt, status: nat, t: seq<Pkt>, caps: Flags)
    requires CLIENT_DEPRECATE_EOF !in caps && Header(count, defs) && EofPacket(eof.payload, status)
    requires SERVER_STATUS_CURSOR_EXISTS !in Bits(status, 16)
    ensures OneResult([count] + (defs + ([eof] + t)), caps) == UntilEnd(t, caps)
  {
    ColumnCountOpens(count, defs, defs + ([eof] + t), caps);
    FirstEof(defs, eof, status, t);
  }

  // ---------- on any packets whatsoever ----------

  /** The packets at which a list of rows or definitions ends for the proxy, by header and length. */
  predicate EndsList(p: Bytes, caps: Flags)
  {
    p != [] && (
      || p[0] == 0xff
      || (p[0] == 0xfe && if CLIENT_DEPRECATE_EOF in caps then 7 <= |p| < 0xffffff else |p| <= 5))
  }

  /** What the run makes of such a packet: it ends with the status of a terminator, without one behind an error, or
      in a panic if the status cannot be read. */
  function EndOfList(p: Bytes, rest: seq<Pkt>, caps: Flags): Run
    requires EndsList(p, caps)
  {
    if p[0] == 0xff then Finished(rest, {})
    else if CLIENT_DEPRECATE_EOF in caps then
      (if ReadOk(p, caps).Ok? then Finished(rest, Bits(ReadOk(p, caps).value.status, 16)) else Panicked(rest))
    else if |p| == 5 then Finished(rest, Bits(p[3] as nat + 0x100 * p[4] as nat, 16) - {2, 15})
    else Panicked(rest)
  }

  lemma ListEndsHere(pkts: seq<Pkt>, caps: Flags)
    requires pkts != [] && EndsList(pkts[0].payload, caps)
    ensures UntilEnd(pkts, caps) == EndOfList(pkts[0].payload, pkts[1..], caps)
  {
    var p := pkts[0].payload;
    if |p| == 5 {
      Le2(p[3..5]);
      var all := Bits(FromLe(p[3..5]), 16);
      assert all * KNOWN_STATUS == all - {2, 15};
    }
  }

  /** The run up to the end of a list ends at the first such packet, wherever it stands. */
  lemma {:induction false} UntilEndExactly(pkts: seq<Pkt>, k: nat, caps: Flags)
    requires k < |pkts| && EndsList(pkts[k].payload, caps)
    requires forall j :: 0 <= j < k ==> !EndsList(pkts[j].payload, caps)
    ensures UntilEnd(pkts, caps) == EndOfList(pkts[k].payload, pkts[k + 1..], caps)
  {
    if k == 0 {
      ListEndsHere(pkts, caps);
    } else {
      assert pkts[1..][k - 1] == pkts[k] && pkts[1..][k..] == pkts[k + 1..];
      assert !EndsList(pkts[0].payload, caps);
      UntilEndExactly(pkts[1..], k - 1, caps);
    }
  }

  lemma {:induction false} UntilEndStarves(pkts: seq<Pkt>, caps: Flags)
    requires forall j :: 0 <= j < |pkts| ==> !EndsList(pkts[j].payload, caps)
    ensures UntilEnd(pkts, caps) == Starved
  {
    if pkts != [] {
      UntilEndStarves(pkts[1..], caps);
    }
  }

  /** The run up to the first EOF packet ends at the first packet with header 0xfe and at most five bytes. */
  lemma {:induction false} ToFirstEofExactly(pkts: seq<Pkt>, k: nat)
    requires k < |pkts| && EndsList(pkts[k].payload, {}) && pkts[k].payload[0] == 0xfe
    requires forall j :: 0 <= j < k ==> pkts[j].payload == [] || pkts[j].payload[0] != 0xfe || |pkts[j].payload| > 5
    ensures var (p, rest) := (pkts[k].payload, pkts[k + 1..]);
            ToFirstEof(pkts) ==
            if |p| == 5 then Finished(rest, Bits(p[3] as nat + 0x100 * p[4] as nat, 16)) else Panicked(rest)
  {
    if k > 0 {
      assert pkts[1..][k - 1] == pkts[k] && pkts[1..][k..] == pkts[k + 1..];
      ToFirstEofExactly(pkts[1..], k - 1);
    } else if |pkts[0].payload| == 5 {
      Le2(pkts[0].payload[3..5]);
    }
  }

  /** What the first packet of a result decides, by its header. */
  lemma FirstPacketDecides(pkts: seq<Pkt>, caps: Flags)
    requires pkts != []
    ensures var (p, rest) := (pkts[0].payload, pkts[1..]);
            OneResult(pkts, caps) ==
            if p == [] then ResultSet(rest, caps)
            else if p[0] == 0x00 then
              (if ReadOk(p, caps).Ok? then Finished(rest, Bits(ReadOk(p, caps).value.status, 16)) else Panicked(rest))
            else if p[0] == 0xff then Finished(rest, {})
            else if p[0] == 0xfb then Panicked(rest)
            else ResultSet(rest, caps)
  {
  }

  /** Another result is waited for iff the status of the last one has the bit 0x0008. */
  lemma MoreResultsExactly(pkts: seq<Pkt>, caps: Flags)
    requires OneResult(pkts, caps).Finished?
    ensures var (rest, status) := (OneResult(pkts, caps).rest, OneResult(pkts, caps).status);
            Query(pkts, caps) == if 3 in status then Query(rest, caps) else Finished(rest, status)
  {
  }
}
