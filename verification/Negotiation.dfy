/** Capabilities of a pooled connection. A backend connection keeps the capabilities that were negotiated
    in its handshake, for the client that happened to come first, while the forwarders read every reply
    under the capabilities of the client they serve. */
module Negotiation {
  import opened ByteStrings
  import opened Packets
  import opened PacketIO
  import opened Codecs
  import opened Responses
  import opened QueryRuns
  import opened Sessions
  import opened SessionAlignment

  /** A client may be served on a connection: they have the same EOF packets, and the client does not
      expect session tracking where the backend does not do it. */
  predicate Agrees(caps: Flags, negotiated: Flags)
  {
    && (CLIENT_DEPRECATE_EOF in caps <==> CLIENT_DEPRECATE_EOF in negotiated)
    && (CLIENT_SESSION_TRACK in caps ==> CLIENT_SESSION_TRACK in negotiated)
  }

  // ---------- what conforms on the connection conforms for a client that agrees ----------

  lemma OkPacketUnder(p: Bytes, header: Byte, status: nat, negotiated: Flags, caps: Flags)
    requires OkPacketOf(p, header, status, negotiated)
    requires CLIENT_SESSION_TRACK in caps ==> CLIENT_SESSION_TRACK in negotiated
    ensures OkPacketOf(p, header, status, caps)
  {
    var rows: nat, id: nat, warnings: nat, t: Bytes :|
      && rows < U64 && id < U64 && warnings < U16 && status < U16
      && p == OkWith(header, rows, id, status, warnings, t) && OkTail(t, status, negotiated);
    assert OkTail(t, status, caps) by {
      if CLIENT_SESSION_TRACK in caps && t != [] {
        var info: Bytes, state: Bytes :|
          |info| < U64 && |state| < U64 && t == OkText(negotiated, status, info, state);
        assert t == OkText(caps, status, info, state);
      }
    }
  }

  lemma ClosesUnder(c: Close, negotiated: Flags, caps: Flags)
    requires Closes(c, negotiated) && Agrees(caps, negotiated)
    ensures Closes(c, caps) && CloseFlags(c, caps) == CloseFlags(c, negotiated)
  {
    if c.Close? && CLIENT_DEPRECATE_EOF in caps {
      OkPacketUnder(c.pkt.payload, 0xfe, c.status, negotiated, caps);
    }
  }

  lemma ConformsUnder(r: Result, negotiated: Flags, caps: Flags)
    requires Conforms(r, negotiated) && Agrees(caps, negotiated)
    ensures Conforms(r, caps) && FlagsOf(r, caps) == FlagsOf(r, negotiated)
  {
    if r.Done? {
      OkPacketUnder(r.pkt.payload, 0x00, r.status, negotiated, caps);
    } else if r.RowSet? {
      ClosesUnder(r.close, negotiated, caps);
    }
  }

  lemma ResponseUnder(rs: seq<Result>, negotiated: Flags, caps: Flags)
    requires Response(rs, negotiated) && Agrees(caps, negotiated)
    ensures Response(rs, caps) && FlagsOf(rs[|rs| - 1], caps) == FlagsOf(rs[|rs| - 1], negotiated)
  {
    forall k | 0 <= k < |rs|
      ensures Conforms(rs[k], caps) && FlagsOf(rs[k], caps) == FlagsOf(rs[k], negotiated)
    {
      ConformsUnder(rs[k], negotiated, caps);
    }
  }

  lemma {:induction false} ConformingUnder(e: Exchange, negotiated: Flags, caps: Flags, rewrite: Rewrite)
    requires Conforming(e, negotiated, rewrite) && Agrees(caps, negotiated)
    ensures Conforming(e, caps, rewrite)
  {
    if e.Results? {
      ResponseUnder(e.results, negotiated, caps);
    } else if e.List? {
      ClosesUnder(e.close, negotiated, caps);
    }
  }

  lemma {:induction false} SessionUnder(es: seq<Exchange>, f: Farewell, negotiated: Flags, caps: Flags, rewrite: Rewrite)
    requires Completed(es, negotiated, rewrite) && Parting(f, negotiated, rewrite) && Agrees(caps, negotiated)
    ensures Completed(es, caps, rewrite) && Parting(f, caps, rewrite)
  {
    forall k: nat | k < |es|
      ensures CompletedAt(es, k, caps, rewrite)
    {
      assert CompletedAt(es, k, negotiated, rewrite);
      ConformingUnder(es[k], negotiated, caps, rewrite);
    }
    if f.Refusal? {
      ConformingUnder(f.e, negotiated, caps, rewrite);
    }
  }

  // ---------- and where they do not agree ----------

  /** A result set that was neither cut short by an error nor kept back by a cursor. */
  predicate WholeRowSet(r: Result)
  {
    r.RowSet? && r.close.Close?
  }

  /** The reader of the other kind passes over a terminator as if it were data. */
  lemma TerminatorPassed(p: Pkt, status: nat, t: seq<Pkt>, caps: Flags, negotiated: Flags)
    requires Terminator(p.payload, status, negotiated)
    requires CLIENT_DEPRECATE_EOF in caps <==> CLIENT_DEPRECATE_EOF !in negotiated
    ensures ResultSet([p] + t, caps) == ResultSet(t, caps)
  {
    assert ([p] + t)[1..] == t;
    if CLIENT_DEPRECATE_EOF in negotiated {
      OkStatus(p.payload, 0xfe, status, negotiated);
    }
  }

  lemma DataPassed(data: seq<Pkt>, t: seq<Pkt>, caps: Flags)
    requires AllData(data)
    ensures ResultSet(data + t, caps) == ResultSet(t, caps)
  {
    SkipData(data, t, caps);
  }

  lemma TerminatorsPassed(r: Result, t: seq<Pkt>, caps: Flags, negotiated: Flags)
    requires WholeRowSet(r) && Conforms(r, negotiated)
    requires CLIENT_DEPRECATE_EOF in caps <==> CLIENT_DEPRECATE_EOF !in negotiated
    ensures ResultSet(r.defs + (r.mid + (r.rows + ([r.close.pkt] + t))), caps) == ResultSet(t, caps)
  {
    var u := r.rows + ([r.close.pkt] + t);
    TerminatorPassed(r.close.pkt, r.close.status, t, caps, negotiated);
    DataPassed(r.rows, [r.close.pkt] + t, caps);
    DataPassed(r.defs, r.mid + u, caps);
    if r.mid == [] {
      assert r.mid + u == u;
    } else {
      TerminatorPassed(r.mid[0], r.midStatus, u, caps, negotiated);
      assert r.mid == [r.mid[0]];
    }
  }

  /** Read by a client of the other kind, a whole result set is not seen to end: the forwarder goes on
      into whatever comes next as if the result set had just begun. */
  lemma RowSetOverruns(r: Result, t: seq<Pkt>, caps: Flags, negotiated: Flags)
    requires WholeRowSet(r) && Conforms(r, negotiated)
    requires CLIENT_DEPRECATE_EOF in caps <==> CLIENT_DEPRECATE_EOF !in negotiated
    ensures OneResult(PacketsOf(r) + t, caps) == ResultSet(t, caps)
  {
    RowSetPackets(r, t);
    ColumnCountOpens(r.count, r.defs, r.defs + (r.mid + (r.rows + ([r.close.pkt] + t))), caps);
    TerminatorsPassed(r, t, caps, negotiated);
  }

  ghost predicate ResultEnds(r: Result, t: seq<Pkt>, caps: Flags, negotiated: Flags)
  {
    OneResult(PacketsOf(r) + t, caps) == Finished(t, FlagsOf(r, negotiated))
  }

  /** Every whole result set of a connection is seen to end exactly where it ends, whatever follows, iff
      client and connection have the same EOF packets. */
  lemma RowSetExactly(r: Result, caps: Flags, negotiated: Flags)
    requires WholeRowSet(r) && Conforms(r, negotiated)
    requires CLIENT_SESSION_TRACK in caps ==> CLIENT_SESSION_TRACK in negotiated
    ensures (forall t :: ResultEnds(r, t, caps, negotiated))
            <==> (CLIENT_DEPRECATE_EOF in caps <==> CLIENT_DEPRECATE_EOF in negotiated)
  {
    if Agrees(caps, negotiated) {
      ConformsUnder(r, negotiated, caps);
      forall t
        ensures ResultEnds(r, t, caps, negotiated)
      {
        OneResultExact(r, t, caps);
      }
    } else {
      RowSetOverruns(r, [], caps, negotiated);
      assert !ResultEnds(r, [], caps, negotiated);
    }
  }

  lemma RowSetStarves(r: Result, caps: Flags, negotiated: Flags)
    requires WholeRowSet(r) && Conforms(r, negotiated)
    requires CLIENT_DEPRECATE_EOF in caps <==> CLIENT_DEPRECATE_EOF !in negotiated
    ensures Query(PacketsOf(r), caps) == Starved
  {
    RowSetOverruns(r, [], caps, negotiated);
    assert PacketsOf(r) + [] == PacketsOf(r);
  }

  lemma {:induction false} StarvedTurn(cmd: Pkt, c: seq<Pkt>, backend: seq<Pkt>, sid: Byte, caps: Flags, rewrite: Rewrite)
    requires cmd.payload != [] && cmd.payload[0] in {3, 10, 23} && Query(backend, caps) == Starved
    ensures ComTurn([cmd] + c, backend, sid, caps, rewrite, None) ==
            Stretch(Some(BackendLost), c, [], SidAfter(cmd.sid, cmd.payload), [cmd], backend)
  {
    Dispatch(cmd, c, backend, sid, caps, rewrite, None);
    assert backend[..|backend|] == backend;
  }

  /** What comes of it, with a backend that sends nothing unasked: the client gets the whole result set, but the
      forwarder waits for its end until the backend goes away, and no later command of the session gets through. */
  lemma {:induction false} MixedClientStarves(
    es: seq<Exchange>, cmd: Pkt, r: Result, c: seq<Pkt>, caps: Flags, negotiated: Flags, rewrite: Rewrite)
    requires Completed(es, caps, rewrite) && cmd.payload != [] && cmd.payload[0] in {3, 10, 23}
    requires WholeRowSet(r) && Conforms(r, negotiated)
    requires CLIENT_DEPRECATE_EOF in caps <==> CLIENT_DEPRECATE_EOF !in negotiated
    ensures var t := Loop(AllFromClient(es) + ([cmd] + c), AllFromBackend(es) + PacketsOf(r), 0, caps, rewrite, None);
            && t.stop == Some(BackendLost) && t.client == c
            && t.requests == AllToBackend(es) + [cmd] && t.replies == AllFromBackend(es) + PacketsOf(r)
  {
    var sid := SidAfterSending(0, AllToBackend(es));
    RowSetStarves(r, caps, negotiated);
    StarvedTurn(cmd, c, PacketsOf(r), sid, caps, rewrite);
    StopsAt(es, [cmd] + c, PacketsOf(r), ComTurn([cmd] + c, PacketsOf(r), sid, caps, rewrite, None), caps, rewrite, None, None);
  }

  // ---------- over all responses ----------

  ghost predicate ResponseEnds(rs: seq<Result>, t: seq<Pkt>, caps: Flags, negotiated: Flags)
    requires rs != []
  {
    Query(AllPackets(rs) + t, caps) == Finished(t, FlagsOf(rs[|rs| - 1], negotiated))
  }

  /** An empty result set of one column. */
  function SampleRowSet(negotiated: Flags): Result
  {
    var eof := Pkt(0, [0xfe, 0, 0] + ToLe(0, 2));
    var mid := if CLIENT_DEPRECATE_EOF in negotiated then [] else [eof];
    var last := if CLIENT_DEPRECATE_EOF in negotiated then Pkt(0, OkWith(0xfe, 0, 0, 0, 0, [])) else eof;
    RowSet(Pkt(0, Number(1)), [Pkt(0, [3, 0x64, 0x65, 0x66])], mid, 0, [], Close(last, 0))
  }

  /** An OK packet whose text begins with a byte that is no length of what follows it. */
  function SampleOk(): Result
  {
    Done(Pkt(0, OkWith(0x00, 0, 0, 0, 0, [5])), 0)
  }

  lemma NoFlags(i: nat)
    ensures i !in Bits(0, 16)
  {
    assert 0 / Pow2(i) == 0;
  }

  lemma SampleRowSetConforms(negotiated: Flags)
    ensures Response([SampleRowSet(negotiated)], negotiated)
  {
    var r := SampleRowSet(negotiated);
    NoFlags(SERVER_MORE_RESULTS_EXISTS);
    NoFlags(SERVER_STATUS_CURSOR_EXISTS);
    if CLIENT_DEPRECATE_EOF in negotiated {
      assert OkTail([], 0, negotiated);
      assert OkPacketOf(r.close.pkt.payload, 0xfe, 0, negotiated);
      assert |r.close.pkt.payload| == 7;
    }
    assert Conforms(r, negotiated);
  }

  lemma SampleOkConforms(negotiated: Flags)
    requires CLIENT_SESSION_TRACK !in negotiated
    ensures Response([SampleOk()], negotiated)
  {
    NoFlags(SERVER_MORE_RESULTS_EXISTS);
    assert OkTail([5], 0, negotiated);
    assert OkPacketOf(SampleOk().pkt.payload, 0x00, 0, negotiated);
  }

  lemma SampleOkFails(caps: Flags)
    requires CLIENT_SESSION_TRACK in caps
    ensures ReadOk(SampleOk().pkt.payload, caps).Fail?
  {
    OkFixedReadBack(0x00, 0, 0, 0, 0, [5], caps);
  }

  /** Where a client does not agree with a connection, some response of the backend is not read to its end. */
  lemma Misread(caps: Flags, negotiated: Flags) returns (r: Result)
    requires !Agrees(caps, negotiated)
    ensures Response([r], negotiated) && !Query(PacketsOf(r), caps).Finished?
  {
    if CLIENT_DEPRECATE_EOF in caps <==> CLIENT_DEPRECATE_EOF in negotiated {
      r := SampleOk();
      SampleOkConforms(negotiated);
      SampleOkFails(caps);
    } else {
      r := SampleRowSet(negotiated);
      SampleRowSetConforms(negotiated);
      assert Conforms([r][0], negotiated);
      RowSetOverruns(r, [], caps, negotiated);
      assert PacketsOf(r) + [] == PacketsOf(r);
    }
  }

  /** The forwarder reads every response of a connection exactly to its end, whatever follows, iff client
      and connection agree. */
  lemma AgreementExactly(caps: Flags, negotiated: Flags)
    ensures (forall rs, t :: Response(rs, negotiated) ==> ResponseEnds(rs, t, caps, negotiated))
            <==> Agrees(caps, negotiated)
  {
    if Agrees(caps, negotiated) {
      forall rs, t | Response(rs, negotiated)
        ensures ResponseEnds(rs, t, caps, negotiated)
      {
        ResponseUnder(rs, negotiated, caps);
        QueryExact(rs, t, caps);
      }
    } else {
      var r := Misread(caps, negotiated);
      OnlyPackets(r);
      assert AllPackets([r]) + [] == PacketsOf(r);
      assert !ResponseEnds([r], [], caps, negotiated);
    }
  }
}
