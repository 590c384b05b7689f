/** Sessions of conforming exchanges: at every turn of the command loop the backend connection
    stands exactly at the end of a reply. */
module SessionAlignment {
  import opened ByteStrings
  import opened Packets
  import opened Streams
  import opened PacketIO
  import opened Codecs
  import opened Responses
  import opened QueryRuns
  import opened Forwarders
  import opened PreparedStatements
  import opened ChangeUser
  import opened Sessions

  /** A command and everything that is said in answer to it. */
  datatype Exchange =
    | Results(cmd: Pkt, results: seq<Result>)
    | List(cmd: Pkt, data: seq<Pkt>, close: Close)
    | Prepared(cmd: Pkt, ok: Pkt, columns: nat, params: nat, defs: seq<Pkt>)
    | PrepareFailed(cmd: Pkt, err: Pkt)
    | Closed(cmd: Pkt)
    | Changed(cmd: Pkt, rewritten: Bytes, rounds: seq<Round>, verdict: Pkt)
    | Simple(cmd: Pkt, reply: Pkt)

  /** COM_STMT_PREPARE_OK announcing so many columns and parameters. */
  predicate StmtPrepareOk(p: Bytes, columns: nat, params: nat)
  {
    |p| >= 9 && p[0] == 0x00 && p[5..7] == ToLe(columns, 2) && p[7..9] == ToLe(params, 2)
  }

  /** The exchange follows the protocol, on a connection with the given capabilities. Commands are told by their
      codes in the protocol. COM_QUIT, with code 1, ends a session and COM_STMT_SEND_LONG_DATA, with code 24, is
      never answered; neither is an exchange. */
  ghost predicate Conforming(e: Exchange, caps: Flags, rewrite: Rewrite)
  {
    && e.cmd.payload != []
    && var code := e.cmd.payload[0];
       match e
       case Results(_, results) => code in {3, 10, 23} && Response(results, caps)
       case List(_, data, close) => code in {4, 28} && AllData(data) && Closes(close, caps)
       case Prepared(_, ok, columns, params, defs) =>
         && code == 22 && StmtPrepareOk(ok.payload, columns, params)
         && |defs| == columns + params + Eofs(columns, params, caps) < U16
       case PrepareFailed(_, err) => code == 22 && ErrPacket(err.payload)
       case Closed(cmd) => code == 25 && |cmd.payload| >= 5
       case Changed(cmd, rewritten, rounds, verdict) =>
         && code == 17 && rewrite(cmd.payload) == Some(rewritten)
         && ProperRounds(rounds) && (OkHeaded(verdict.payload) || ErrPacket(verdict.payload))
       case Simple(_, reply) => code <= 32 && code !in {1, 3, 4, 10, 17, 22, 23, 24, 25, 28}
  }

  /** A refused COM_CHANGE_USER, which ends the session. */
  predicate Refuses(e: Exchange)
  {
    e.Changed? && ErrPacket(e.verdict.payload)
  }

  ghost predicate CompletedAt(es: seq<Exchange>, k: nat, caps: Flags, rewrite: Rewrite)
  {
    k < |es| && Conforming(es[k], caps, rewrite) && !Refuses(es[k])
  }

  ghost predicate Completed(es: seq<Exchange>, caps: Flags, rewrite: Rewrite)
  {
    forall k: nat :: k < |es| ==> CompletedAt(es, k, caps, rewrite)
  }

  lemma {:induction false} CompletedTail(es: seq<Exchange>, caps: Flags, rewrite: Rewrite)
    requires es != [] && Completed(es, caps, rewrite)
    ensures Conforming(es[0], caps, rewrite) && !Refuses(es[0]) && Completed(es[1..], caps, rewrite)
  {
    assert CompletedAt(es, 0, caps, rewrite);
    forall k: nat | k < |es[1..]|
      ensures CompletedAt(es[1..], k, caps, rewrite)
    {
      assert CompletedAt(es, k + 1, caps, rewrite);
    }
  }

  function FromClient(e: Exchange): seq<Pkt>
  {
    if e.Changed? then [e.cmd] + Answers(e.rounds) else [e.cmd]
  }

  function FromBackend(e: Exchange): seq<Pkt>
  {
    match e
    case Results(_, results) => AllPackets(results)
    case List(_, data, close) => data + [close.pkt]
    case Prepared(_, ok, _, _, defs) => [ok] + defs
    case PrepareFailed(_, err) => [err]
    case Closed(_) => []
    case Changed(_, _, rounds, verdict) => Challenges(rounds) + [verdict]
    case Simple(_, reply) => [reply]
  }

  /** What the backend is to receive. */
  function BackendHears(e: Exchange): seq<Pkt>
  {
    if e.Changed? then [Pkt(e.cmd.sid, e.rewritten)] + Answers(e.rounds) else [e.cmd]
  }

  function AllFromClient(es: seq<Exchange>): seq<Pkt>
  {
    if es == [] then [] else FromClient(es[0]) + AllFromClient(es[1..])
  }

  function AllFromBackend(es: seq<Exchange>): seq<Pkt>
  {
    if es == [] then [] else FromBackend(es[0]) + AllFromBackend(es[1..])
  }

  function AllToBackend(es: seq<Exchange>): seq<Pkt>
  {
    if es == [] then [] else BackendHears(es[0]) + AllToBackend(es[1..])
  }

  lemma OnlyExchange(e: Exchange)
    ensures AllFromClient([e]) == FromClient(e) && AllFromBackend([e]) == FromBackend(e)
  {
    assert [e][1..] == [];
    assert FromClient(e) + [] == FromClient(e) && FromBackend(e) + [] == FromBackend(e);
  }

  // ---------- one exchange ----------

  /** A reply of the forwarder's own kind is consumed whole, and nothing behind it. */
  lemma {:induction false} ReplyExact(e: Exchange, b: seq<Pkt>, caps: Flags, rewrite: Rewrite)
    requires Conforming(e, caps, rewrite) && !e.Closed? && !e.Changed?
    ensures var r := Reply(e.cmd.payload[0], FromBackend(e) + b, caps); r.Finished? && r.rest == b
  {
    match e
    case Results(_, results) => QueryExact(results, b, caps);
    case List(_, data, close) =>
      ListExact(data, close, b, caps);
      Associative(data, [close.pkt], b);
    case Prepared(_, ok, columns, params, defs) => PreparedExact(ok, columns, params, defs, b, caps);
    case PrepareFailed(_, err) => assert ([err] + b)[1..] == b;
    case Simple(_, reply) => assert ([reply] + b)[1..] == b;
  }

  lemma PreparedExact(ok: Pkt, columns: nat, params: nat, defs: seq<Pkt>, b: seq<Pkt>, caps: Flags)
    requires StmtPrepareOk(ok.payload, columns, params)
    requires |defs| == columns + params + Eofs(columns, params, caps) < U16
    ensures Prepare([ok] + defs + b, caps) == Finished(b, {})
  {
    Pow256Values();
    LeRoundTrip(columns, 2);
    LeRoundTrip(params, 2);
    assert Announced(ok.payload, caps) == Some(|defs|);
    assert ([ok] + defs + b)[1..][|defs|..] == b;
  }

  lemma SentOfRound(r: Round)
    ensures var hops := [ToClient(r.challenge), ToBackend(r.answer)];
            SentToClient(hops) == [r.challenge] && SentToBackend(hops) == [r.answer]
  {
    var a, b := ToClient(r.challenge), ToBackend(r.answer);
    SentOne(a);
    SentOne(b);
    SentAppend([a], [b]);
    assert [a] + [b] == [a, b];
  }

  lemma {:induction false} SentOfRounds(rounds: seq<Round>)
    ensures SentToClient(HopsOf(rounds)) == Challenges(rounds) && SentToBackend(HopsOf(rounds)) == Answers(rounds)
  {
    if rounds != [] {
      SentOfRounds(rounds[1..]);
      SentOfRound(rounds[0]);
      SentAppend([ToClient(rounds[0].challenge), ToBackend(rounds[0].answer)], HopsOf(rounds[1..]));
    }
  }

  lemma SentOfHops(rounds: seq<Round>, verdict: Pkt)
    ensures SentToClient(HopsOf(rounds) + [ToClient(verdict)]) == Challenges(rounds) + [verdict]
    ensures SentToBackend(HopsOf(rounds) + [ToClient(verdict)]) == Answers(rounds)
  {
    SentOfRounds(rounds);
    SentOne(ToClient(verdict));
    SentAppend(HopsOf(rounds), [ToClient(verdict)]);
  }

  /** A COM_CHANGE_USER is consumed exactly on both sides, be it granted or refused. */
  lemma {:induction false} ChangedExact(
    e: Exchange, c: seq<Pkt>, b: seq<Pkt>, sid: Byte, caps: Flags, rewrite: Rewrite, room: Room)
    requires e.Changed? && Conforming(e, caps, rewrite) && Takes(room, |FromBackend(e)|)
    ensures Changing(e.cmd, Answers(e.rounds) + c, FromBackend(e) + b, sid, rewrite, room) ==
            Stretch(if Refuses(e) then Some(Rejected) else None, c, b,
                    SidAfterSending(sid, BackendHears(e)), BackendHears(e), FromBackend(e))
  {
    AsManyChallenges(e.rounds);
    Associative(Challenges(e.rounds), [e.verdict], b);
    DialogueExact(e.rounds, e.verdict, b, c, room);
    SentOfHops(e.rounds, e.verdict);
  }

  /** An answer that begins with 0xff has been passed on when it breaks the conversation off, and the session with it:
      the verdict of the backend on that answer, and all behind it, stays unread. */
  lemma {:induction false} BrokenOffExact(
    cmd: Pkt, rewritten: Bytes, rounds: seq<Round>, challenge: Pkt, answer: Pkt, c: seq<Pkt>, b: seq<Pkt>, sid: Byte,
    rewrite: Rewrite, room: Room)
    requires rewrite(cmd.payload) == Some(rewritten) && ProperRounds(rounds) && Takes(room, |rounds| + 1)
    requires !ErrPacket(challenge.payload) && !OkHeaded(challenge.payload) && ErrPacket(answer.payload)
    ensures var t := Changing(cmd, Answers(rounds) + ([answer] + c), Challenges(rounds) + ([challenge] + b), sid,
                              rewrite, room);
            && t.stop == Some(BrokenOff) && t.client == c && t.backend == b
            && t.requests == [Pkt(cmd.sid, rewritten)] + (Answers(rounds) + [answer])
            && t.replies == Challenges(rounds) + [challenge]
  {
    ErrAnswerExact(rounds, challenge, answer, b, c, room);
    SentOfRounds(rounds);
    SentOfRound(Round(challenge, answer));
    SentAppend(HopsOf(rounds), [ToClient(challenge), ToBackend(answer)]);
  }

  lemma {:induction false} AsManyChallenges(rounds: seq<Round>)
    ensures |Challenges(rounds)| == |rounds|
  {
    if rounds != [] {
      AsManyChallenges(rounds[1..]);
    }
  }

  lemma {:induction false} PlainExact(e: Exchange, c: seq<Pkt>, b: seq<Pkt>, caps: Flags, rewrite: Rewrite, room: Room)
    requires !e.Changed? && Conforming(e, caps, rewrite) && Takes(room, |FromBackend(e)|)
    ensures Plain(e.cmd, c, FromBackend(e) + b, caps, room) ==
            Stretch(None, c, b, SidAfter(e.cmd.sid, e.cmd.payload), [e.cmd], FromBackend(e))
  {
    if e.Closed? {
      assert [] + b == b;
    } else {
      ReplyExact(e, b, caps, rewrite);
      PlainReply(e.cmd, c, FromBackend(e), b, caps, room);
    }
  }

  /** A reply that is consumed whole, for a client that takes it and for one that does not. */
  lemma PlainReply(cmd: Pkt, c: seq<Pkt>, reply: seq<Pkt>, b: seq<Pkt>, caps: Flags, room: Room)
    requires cmd.payload != [] && cmd.payload[0] != COM_STMT_CLOSE && Takes(room, |reply|)
    requires Reply(cmd.payload[0], reply + b, caps).Finished? && Reply(cmd.payload[0], reply + b, caps).rest == b
    ensures Plain(cmd, c, reply + b, caps, room) == Stretch(None, c, b, SidAfter(cmd.sid, cmd.payload), [cmd], reply)
  {
    FrontOf(reply, b);
  }

  lemma PlainReplyCut(cmd: Pkt, c: seq<Pkt>, reply: seq<Pkt>, m: nat, b: seq<Pkt>, caps: Flags)
    requires cmd.payload != [] && cmd.payload[0] != COM_STMT_CLOSE && m < |reply|
    requires Reply(cmd.payload[0], reply + b, caps).Finished? && Reply(cmd.payload[0], reply + b, caps).rest == b
    ensures Plain(cmd, c, reply + b, caps, Some(m)) ==
            Stretch(Some(NotTaken), c, reply[m + 1..] + b, SidAfter(cmd.sid, cmd.payload), [cmd], reply[..m])
  {
    var pkts := reply + b;
    assert Consumed(Reply(cmd.payload[0], pkts, caps), pkts) == |reply|;
    assert pkts[m + 1..] == reply[m + 1..] + b && pkts[..m] == reply[..m];
  }

  /** One turn of the loop deals with one exchange: it takes from either side exactly what belongs to
      the exchange, passes it on to the other side, and stops iff the exchange is a refusal. */
  lemma {:induction false} TurnExact(
    e: Exchange, c: seq<Pkt>, b: seq<Pkt>, sid: Byte, caps: Flags, rewrite: Rewrite, room: Room)
    requires Conforming(e, caps, rewrite) && Takes(room, |FromBackend(e)|)
    ensures ComTurn(FromClient(e) + c, FromBackend(e) + b, sid, caps, rewrite, room) ==
            Stretch(if Refuses(e) then Some(Rejected) else None, c, b,
                    SidAfterSending(sid, BackendHears(e)), BackendHears(e), FromBackend(e))
  {
    ForwardedCode(e, caps, rewrite);
    if e.Changed? {
      Associative([e.cmd], Answers(e.rounds), c);
      Dispatch(e.cmd, Answers(e.rounds) + c, FromBackend(e) + b, sid, caps, rewrite, room);
      ChangedExact(e, c, b, sid, caps, rewrite, room);
    } else {
      Dispatch(e.cmd, c, FromBackend(e) + b, sid, caps, rewrite, room);
      PlainExact(e, c, b, caps, rewrite, room);
    }
  }

  lemma {:induction false} Dispatch(
    cmd: Pkt, client: seq<Pkt>, backend: seq<Pkt>, sid: Byte, caps: Flags, rewrite: Rewrite, room: Room)
    requires cmd.payload != [] && cmd.payload[0] <= COM_END && cmd.payload[0] != COM_QUIT
    ensures ComTurn([cmd] + client, backend, sid, caps, rewrite, room) ==
            if cmd.payload[0] == COM_CHANGE_USER then Changing(cmd, client, backend, sid, rewrite, room)
            else Plain(cmd, client, backend, caps, room)
  {
    assert ([cmd] + client)[1..] == client;
  }

  lemma {:induction false} ForwardedCode(e: Exchange, caps: Flags, rewrite: Rewrite)
    requires Conforming(e, caps, rewrite)
    ensures var code := e.cmd.payload[0];
            code <= COM_END && code != COM_QUIT && (code == COM_CHANGE_USER <==> e.Changed?)
  {
  }

  // ---------- whole sessions ----------

  function Said(es: seq<Exchange>, c: seq<Pkt>, b: seq<Pkt>, sid: Byte): Stretch
  {
    Stretch(None, c, b, SidAfterSending(sid, AllToBackend(es)), AllToBackend(es), AllFromBackend(es))
  }

  lemma SaidThen(es: seq<Exchange>, c: seq<Pkt>, b: seq<Pkt>, sid: Byte, u: Stretch)
    requires es != []
    ensures var (e, rest) := (es[0], es[1..]);
            var t := Stretch(None, AllFromClient(rest) + c, AllFromBackend(rest) + b,
                             SidAfterSending(sid, BackendHears(e)), BackendHears(e), FromBackend(e));
            && Said(es, c, b, sid).sid == Said(rest, c, b, t.sid).sid
            && Then(Said(es, c, b, sid), u) == Then(t, Then(Said(rest, c, b, t.sid), u))
  {
    var e, rest := es[0], es[1..];
    SidAfterBoth(sid, BackendHears(e), AllToBackend(rest));
    Associative(BackendHears(e), AllToBackend(rest), u.requests);
    Associative(FromBackend(e), AllFromBackend(rest), u.replies);
  }

  lemma {:induction false} FirstTurn(
    es: seq<Exchange>, c: seq<Pkt>, b: seq<Pkt>, sid: Byte, caps: Flags, rewrite: Rewrite, room: Room)
    requires es != [] && Completed(es, caps, rewrite) && Takes(room, |FromBackend(es[0])|)
    ensures var (e, rest) := (es[0], es[1..]);
            var t := Stretch(None, AllFromClient(rest) + c, AllFromBackend(rest) + b,
                             SidAfterSending(sid, BackendHears(e)), BackendHears(e), FromBackend(e));
            Loop(AllFromClient(es) + c, AllFromBackend(es) + b, sid, caps, rewrite, room)
            == Then(t, Loop(t.client, t.backend, t.sid, caps, rewrite, Less(room, |FromBackend(e)|)))
  {
    var e, rest := es[0], es[1..];
    CompletedTail(es, caps, rewrite);
    Associative(FromClient(e), AllFromClient(rest), c);
    Associative(FromBackend(e), AllFromBackend(rest), b);
    TurnExact(e, AllFromClient(rest) + c, AllFromBackend(rest) + b, sid, caps, rewrite, room);
  }

  lemma NothingSaid(c: seq<Pkt>, b: seq<Pkt>, sid: Byte, u: Stretch)
    ensures AllFromClient([]) + c == c && AllFromBackend([]) + b == b && Then(Said([], c, b, sid), u) == u
  {
    assert [] + u.requests == u.requests && [] + u.replies == u.replies;
  }

  lemma {:induction false} AlignedNext(
    es: seq<Exchange>, c: seq<Pkt>, b: seq<Pkt>, sid: Byte, caps: Flags, rewrite: Rewrite, room: Room, u: Stretch)
    requires es != [] && Completed(es, caps, rewrite) && Takes(room, |FromBackend(es[0])|)
    requires var sid1 := SidAfterSending(sid, BackendHears(es[0]));
             Loop(AllFromClient(es[1..]) + c, AllFromBackend(es[1..]) + b, sid1, caps, rewrite, Less(room, |FromBackend(es[0])|))
             == Then(Said(es[1..], c, b, sid1), u)
    ensures Loop(AllFromClient(es) + c, AllFromBackend(es) + b, sid, caps, rewrite, room) == Then(Said(es, c, b, sid), u)
  {
    FirstTurn(es, c, b, sid, caps, rewrite, room);
    SaidThen(es, c, b, sid, u);
  }

  lemma {:induction false} RestOfSession(es: seq<Exchange>, sid: Byte, room: Room)
    requires es != [] && Takes(room, |AllFromBackend(es)|)
    ensures var (sid1, room1) := (SidAfterSending(sid, BackendHears(es[0])), Less(room, |FromBackend(es[0])|));
            && Takes(room, |FromBackend(es[0])|) && Takes(room1, |AllFromBackend(es[1..])|)
            && Less(room1, |AllFromBackend(es[1..])|) == Less(room, |AllFromBackend(es)|)
            && SidAfterSending(sid1, AllToBackend(es[1..])) == SidAfterSending(sid, AllToBackend(es))
  {
    Lengths(FromBackend(es[0]), AllFromBackend(es[1..]), room);
    SidAfterBoth(sid, BackendHears(es[0]), AllToBackend(es[1..]));
  }

  lemma Lengths(a: seq<Pkt>, b: seq<Pkt>, room: Room)
    requires Takes(room, |a + b|)
    ensures Takes(room, |a|) && Takes(Less(room, |a|), |b|) && Less(Less(room, |a|), |b|) == Less(room, |a + b|)
  {
    LessLess(room, |a|, |b|);
  }

  /** The same with the sequence id and the room that are reached given names. */
  lemma {:induction false} AlignedAs(
    es: seq<Exchange>, c: seq<Pkt>, b: seq<Pkt>, sid: Byte, last: Byte, caps: Flags, rewrite: Rewrite, room: Room, left: Room)
    requires Completed(es, caps, rewrite) && Takes(room, |AllFromBackend(es)|)
    requires last == SidAfterSending(sid, AllToBackend(es)) && left == Less(room, |AllFromBackend(es)|)
    ensures Loop(AllFromClient(es) + c, AllFromBackend(es) + b, sid, caps, rewrite, room)
            == Then(Said(es, c, b, sid), Loop(c, b, last, caps, rewrite, left))
    decreases |es|
  {
    if es == [] {
      NothingSaid(c, b, sid, Loop(c, b, sid, caps, rewrite, room));
      assert Less(room, 0) == room;
    } else {
      var sid1, room1 := SidAfterSending(sid, BackendHears(es[0])), Less(room, |FromBackend(es[0])|);
      CompletedTail(es, caps, rewrite);
      RestOfSession(es, sid, room);
      AlignedAs(es[1..], c, b, sid1, last, caps, rewrite, room1, left);
      AlignedNext(es, c, b, sid, caps, rewrite, room, Loop(c, b, last, caps, rewrite, left));
    }
  }

  /** After any number of exchanges, whatever comes next on either side, the loop is at its head with
      exactly that still unread: no packet of a reply is left over and none is missing. */
  lemma {:induction false} Aligned(
    es: seq<Exchange>, c: seq<Pkt>, b: seq<Pkt>, sid: Byte, caps: Flags, rewrite: Rewrite, room: Room)
    requires Completed(es, caps, rewrite) && Takes(room, |AllFromBackend(es)|)
    ensures var t := Said(es, c, b, sid);
            Loop(AllFromClient(es) + c, AllFromBackend(es) + b, sid, caps, rewrite, room)
            == Then(t, Loop(c, b, t.sid, caps, rewrite, Less(room, |AllFromBackend(es)|)))
  {
    AlignedAs(es, c, b, sid, SidAfterSending(sid, AllToBackend(es)), caps, rewrite, room, Less(room, |AllFromBackend(es)|));
  }

  /** How a session ends: with COM_QUIT and the reply to the reset, with a client that goes away instead
      of giving a command, or with a refused COM_CHANGE_USER. */
  datatype Farewell = Quits(quit: Pkt, resetReply: Pkt) | Leaves | Refusal(e: Exchange)

  ghost predicate Parting(f: Farewell, caps: Flags, rewrite: Rewrite)
  {
    match f
    case Quits(quit, _) => quit.payload != [] && quit.payload[0] == 1
    case Leaves => true
    case Refusal(e) => Conforming(e, caps, rewrite) && Refuses(e)
  }

  function ClientParts(f: Farewell): seq<Pkt>
  {
    match f case Quits(quit, _) => [quit] case Leaves => [] case Refusal(e) => FromClient(e)
  }

  function BackendParts(f: Farewell): seq<Pkt>
  {
    match f case Quits(_, resetReply) => [resetReply] case Leaves => [] case Refusal(e) => FromBackend(e)
  }

  /** What the backend is sent at the end, when the writer stands at a sequence id. */
  function LastRequests(f: Farewell, sid: Byte): seq<Pkt>
  {
    match f case Quits(_, _) => [Pkt(sid, [31, 8, 0, 0, 0])] case Leaves => [] case Refusal(e) => BackendHears(e)
  }

  /** What the client is sent at the end: the reply to the reset is kept from it. */
  function LastReplies(f: Farewell): seq<Pkt>
  {
    if f.Refusal? then FromBackend(f.e) else []
  }

  function StopWith(f: Farewell): Stop
  {
    match f case Quits(_, _) => Quit case Leaves => NoCommand case Refusal(_) => Rejected
  }

  function AllRequests(es: seq<Exchange>, f: Farewell): seq<Pkt>
  {
    AllToBackend(es) + LastRequests(f, SidAfterSending(0, AllToBackend(es)))
  }

  function AllReplies(es: seq<Exchange>, f: Farewell): seq<Pkt>
  {
    AllFromBackend(es) + LastReplies(f)
  }

  lemma {:induction false} PartingExact(
    f: Farewell, c: seq<Pkt>, b: seq<Pkt>, sid: Byte, caps: Flags, rewrite: Rewrite, room: Room)
    requires Parting(f, caps, rewrite) && (f.Leaves? ==> c == []) && Takes(room, |LastReplies(f)|)
    ensures var t := Loop(ClientParts(f) + c, BackendParts(f) + b, sid, caps, rewrite, room);
            && t.stop == Some(StopWith(f)) && t.client == c && t.backend == b
            && t.requests == LastRequests(f, sid) && t.replies == LastReplies(f)
  {
    match f
    case Quits(quit, resetReply) => assert ([quit] + c)[1..] == c && ([resetReply] + b)[1..] == b;
    case Leaves => assert [] + b == b;
    case Refusal(e) => TurnExact(e, c, b, sid, caps, rewrite, room);
  }

  /** However a session ends, it leaves the backend connection exactly behind its last reply, so nothing
      leaks into the next session on the pooled connection; the client has got every reply and the
      backend every command, in order and unchanged. */
  lemma {:induction false} SessionExact(
    es: seq<Exchange>, f: Farewell, c: seq<Pkt>, b: seq<Pkt>, caps: Flags, rewrite: Rewrite, room: Room)
    requires Completed(es, caps, rewrite) && Parting(f, caps, rewrite) && (f.Leaves? ==> c == [])
    requires Takes(room, |AllReplies(es, f)|)
    ensures var t := Loop(AllFromClient(es) + (ClientParts(f) + c), AllFromBackend(es) + (BackendParts(f) + b), 0, caps,
                          rewrite, room);
            && t.stop == Some(StopWith(f)) && t.client == c && t.backend == b
            && t.requests == AllRequests(es, f) && t.replies == AllReplies(es, f)
  {
    LessLess(room, |AllFromBackend(es)|, |LastReplies(f)|);
    Aligned(es, ClientParts(f) + c, BackendParts(f) + b, 0, caps, rewrite, room);
    PartingExact(f, c, b, SidAfterSending(0, AllToBackend(es)), caps, rewrite, Less(room, |AllFromBackend(es)|));
  }

  /** What comes of whole exchanges followed by a turn that stops. */
  lemma {:induction false} StopsAt(
    es: seq<Exchange>, c: seq<Pkt>, b: seq<Pkt>, t: Stretch, caps: Flags, rewrite: Rewrite, room: Room, room1: Room)
    requires Completed(es, caps, rewrite) && Takes(room, |AllFromBackend(es)|) && room1 == Less(room, |AllFromBackend(es)|)
    requires t == ComTurn(c, b, SidAfterSending(0, AllToBackend(es)), caps, rewrite, room1) && t.stop.Some?
    ensures Loop(AllFromClient(es) + c, AllFromBackend(es) + b, 0, caps, rewrite, room) ==
            Then(Said(es, c, b, 0), t)
  {
    Aligned(es, c, b, 0, caps, rewrite, room);
  }

  // ---------- a client that stops taking packets ----------

  lemma {:induction false} RoundsAppend(a: seq<Round>, b: seq<Round>)
    ensures Challenges(a + b) == Challenges(a) + Challenges(b) && Answers(a + b) == Answers(a) + Answers(b)
  {
    if a == [] {
      assert a + b == b;
    } else {
      assert (a + b)[1..] == a[1..] + b;
      RoundsAppend(a[1..], b);
      Associative([a[0].challenge], Challenges(a[1..]), Challenges(b));
      Associative([a[0].answer], Answers(a[1..]), Answers(b));
    }
  }

  lemma {:induction false} RoundsSplit(rounds: seq<Round>, m: nat)
    requires m <= |rounds|
    ensures Challenges(rounds) == Challenges(rounds[..m]) + Challenges(rounds[m..])
    ensures Answers(rounds) == Answers(rounds[..m]) + Answers(rounds[m..])
  {
    assert rounds[..m] + rounds[m..] == rounds;
    RoundsAppend(rounds[..m], rounds[m..]);
  }

  /** The packet with index `m`, and what stands before and behind it. */
  lemma Around(all: seq<Pkt>, m: nat, b: seq<Pkt>)
    requires m < |all|
    ensures all + b == all[..m] + ([all[m]] + (all[m + 1..] + b))
  {
    assert all == all[..m] + ([all[m]] + all[m + 1..]);
    Associative(all[..m], [all[m]] + all[m + 1..], b);
    Associative([all[m]], all[m + 1..], b);
  }

  lemma FrontOf(a: seq<Pkt>, b: seq<Pkt>)
    ensures (a + b)[..|a|] == a
  {
  }

  /** The answers of the client that are not read, and what the backend is sent, when the packet with index `m` of
      an exchange is not taken. */
  function Unanswered(e: Exchange, m: nat): seq<Pkt>
    requires m < |FromBackend(e)|
  {
    if e.Changed? && m <= |e.rounds| then Answers(e.rounds[m..]) else []
  }

  function HeardBefore(e: Exchange, m: nat): seq<Pkt>
    requires m < |FromBackend(e)|
  {
    if e.Changed? && m <= |e.rounds| then [Pkt(e.cmd.sid, e.rewritten)] + Answers(e.rounds[..m]) else [e.cmd]
  }

  lemma {:induction false} PacketsAround(e: Exchange, m: nat, b: seq<Pkt>)
    requires e.Changed? && m < |FromBackend(e)|
    ensures m <= |e.rounds| && FromBackend(e)[..m] == Challenges(e.rounds[..m])
    ensures FromBackend(e) + b == Challenges(e.rounds[..m]) + ([FromBackend(e)[m]] + (FromBackend(e)[m + 1..] + b))
  {
    AsManyChallenges(e.rounds);
    var pre, post := e.rounds[..m], e.rounds[m..];
    AsManyChallenges(pre);
    RoundsSplit(e.rounds, m);
    Associative(Challenges(pre), Challenges(post), [e.verdict]);
    FrontOf(Challenges(pre), Challenges(post) + [e.verdict]);
    Around(FromBackend(e), m, b);
  }

  /** What becomes of the exchange then: it stops, with the rest of the reply unread. */
  function CutShort(e: Exchange, m: nat, c: seq<Pkt>, b: seq<Pkt>, sid: Byte): Stretch
    requires m < |FromBackend(e)|
  {
    Stretch(Some(NotTaken), Unanswered(e, m) + c, FromBackend(e)[m + 1..] + b, SidAfterSending(sid, HeardBefore(e, m)),
            HeardBefore(e, m), FromBackend(e)[..m])
  }

  lemma {:induction false} NotTakenChange(
    e: Exchange, m: nat, c: seq<Pkt>, b: seq<Pkt>, sid: Byte, caps: Flags, rewrite: Rewrite)
    requires Conforming(e, caps, rewrite) && e.Changed? && m < |FromBackend(e)|
    ensures Changing(e.cmd, Answers(e.rounds) + c, FromBackend(e) + b, sid, rewrite, Some(m)) == CutShort(e, m, c, b, sid)
  {
    PacketsAround(e, m, b);
    var pre, post := e.rounds[..m], e.rounds[m..];
    RoundsSplit(e.rounds, m);
    Associative(Answers(pre), Answers(post), c);
    NotTakenRelay(e.cmd, e.rewritten, pre, FromBackend(e)[m], Answers(post) + c, FromBackend(e)[m + 1..] + b, sid, rewrite);
  }

  lemma {:induction false} NotTakenRelay(
    cmd: Pkt, rewritten: Bytes, rounds: seq<Round>, x: Pkt, c: seq<Pkt>, b: seq<Pkt>, sid: Byte, rewrite: Rewrite)
    requires rewrite(cmd.payload) == Some(rewritten) && ProperRounds(rounds)
    ensures var requests := [Pkt(cmd.sid, rewritten)] + Answers(rounds);
            Changing(cmd, Answers(rounds) + c, Challenges(rounds) + ([x] + b), sid, rewrite, Some(|rounds|)) ==
            Stretch(Some(NotTaken), c, b, SidAfterSending(sid, requests), requests, Challenges(rounds))
  {
    UnwrittenExact(rounds, x, b, c);
    SentOfRounds(rounds);
  }

  lemma {:induction false} NotTakenPlain(
    e: Exchange, m: nat, c: seq<Pkt>, b: seq<Pkt>, sid: Byte, caps: Flags, rewrite: Rewrite)
    requires Conforming(e, caps, rewrite) && !e.Changed? && m < |FromBackend(e)|
    ensures Plain(e.cmd, c, FromBackend(e) + b, caps, Some(m)) == CutShort(e, m, c, b, sid)
  {
    ReplyExact(e, b, caps, rewrite);
    PlainReplyCut(e.cmd, c, FromBackend(e), m, b, caps);
    assert [] + c == c;
  }

  lemma {:induction false} NotTakenTurn(
    e: Exchange, m: nat, c: seq<Pkt>, b: seq<Pkt>, sid: Byte, caps: Flags, rewrite: Rewrite)
    requires Conforming(e, caps, rewrite) && m < |FromBackend(e)|
    ensures ComTurn(FromClient(e) + c, FromBackend(e) + b, sid, caps, rewrite, Some(m)) == CutShort(e, m, c, b, sid)
  {
    ForwardedCode(e, caps, rewrite);
    if e.Changed? {
      Associative([e.cmd], Answers(e.rounds), c);
      Dispatch(e.cmd, Answers(e.rounds) + c, FromBackend(e) + b, sid, caps, rewrite, Some(m));
      NotTakenChange(e, m, c, b, sid, caps, rewrite);
    } else {
      Dispatch(e.cmd, c, FromBackend(e) + b, sid, caps, rewrite, Some(m));
      NotTakenPlain(e, m, c, b, sid, caps, rewrite);
    }
  }

  /** A client that stops taking packets in the middle of an exchange, having room for `m` packets of it: the session
      stops there, having passed on exactly what the client took, with the rest of the reply unread. */
  lemma {:induction false} NotTakenExact(
    es: seq<Exchange>, e: Exchange, m: nat, c: seq<Pkt>, b: seq<Pkt>, caps: Flags, rewrite: Rewrite, room: Room)
    requires Completed(es, caps, rewrite) && Conforming(e, caps, rewrite) && m < |FromBackend(e)|
    requires Takes(room, |AllFromBackend(es)|) && Less(room, |AllFromBackend(es)|) == Some(m)
    ensures Loop(AllFromClient(es) + (FromClient(e) + c), AllFromBackend(es) + (FromBackend(e) + b), 0, caps, rewrite, room) ==
            Then(Said(es, FromClient(e) + c, FromBackend(e) + b, 0),
                 CutShort(e, m, c, b, SidAfterSending(0, AllToBackend(es))))
  {
    var sid := SidAfterSending(0, AllToBackend(es));
    NotTakenTurn(e, m, c, b, sid, caps, rewrite);
    StopsAt(es, FromClient(e) + c, FromBackend(e) + b, CutShort(e, m, c, b, sid), caps, rewrite, room, Some(m));
  }

  /** If it is not the last packet of the exchange, the next one is the first that is left unread. */
  lemma {:induction false} NotTakenLeaves(
    es: seq<Exchange>, e: Exchange, m: nat, c: seq<Pkt>, b: seq<Pkt>, caps: Flags, rewrite: Rewrite, room: Room)
    requires Completed(es, caps, rewrite) && Conforming(e, caps, rewrite) && m < |FromBackend(e)| - 1
    requires Takes(room, |AllFromBackend(es)|) && Less(room, |AllFromBackend(es)|) == Some(m)
    ensures var t := Loop(AllFromClient(es) + (FromClient(e) + c), AllFromBackend(es) + (FromBackend(e) + b), 0, caps,
                          rewrite, room);
            t.stop == Some(NotTaken) && t.backend == [FromBackend(e)[m + 1]] + (FromBackend(e)[m + 2..] + b)
  {
    NotTakenExact(es, e, m, c, b, caps, rewrite, room);
    Leftover(FromBackend(e), m + 1, b);
  }

  lemma Leftover(reply: seq<Pkt>, m: nat, b: seq<Pkt>)
    requires m < |reply|
    ensures reply[m..] + b == [reply[m]] + (reply[m + 1..] + b)
  {
    assert reply[m..] == [reply[m]] + reply[m + 1..];
    Associative([reply[m]], reply[m + 1..], b);
  }

  /** The backend connection is then left at the end of a reply exactly if it is the last packet of the exchange that
      was not taken. */
  lemma NotTakenBoundary(e: Exchange, m: nat, c: seq<Pkt>, b: seq<Pkt>, sid: Byte)
    requires m < |FromBackend(e)|
    ensures CutShort(e, m, c, b, sid).backend == b <==> m == |FromBackend(e)| - 1
  {
    var reply := FromBackend(e);
    assert |reply[m + 1..] + b| == |reply| - m - 1 + |b|;
  }

  // ---------- where the loop departs from the protocol ----------

  lemma {:induction false} DepartureTurn(
    cmd: Pkt, rewritten: Bytes, rounds: seq<Round>, challenge: Pkt, b: seq<Pkt>, sid: Byte, caps: Flags, rewrite: Rewrite)
    requires cmd.payload != [] && cmd.payload[0] == 17 && rewrite(cmd.payload) == Some(rewritten)
    requires ProperRounds(rounds) && !ErrPacket(challenge.payload) && !OkHeaded(challenge.payload)
    ensures var t := ComTurn([cmd] + Answers(rounds), Challenges(rounds) + ([challenge] + b), sid, caps, rewrite, None);
            && t.stop == Some(ClientLost) && t.client == [] && t.backend == b
            && t.requests == [Pkt(cmd.sid, rewritten)] + Answers(rounds)
            && t.replies == Challenges(rounds) + [challenge]
  {
    Dispatch(cmd, Answers(rounds), Challenges(rounds) + ([challenge] + b), sid, caps, rewrite, None);
    GoneExact(rounds, challenge, b, None);
    SentOfHops(rounds, challenge);
  }

  /** A client that goes away inside a COM_CHANGE_USER is another matter: the backend has sent a challenge
      that nobody answers, so it will take the first packet of the next session for the answer. */
  lemma {:induction false} DepartureExact(
    es: seq<Exchange>, cmd: Pkt, rewritten: Bytes, rounds: seq<Round>, challenge: Pkt, b: seq<Pkt>,
    caps: Flags, rewrite: Rewrite)
    requires Completed(es, caps, rewrite)
    requires cmd.payload != [] && cmd.payload[0] == 17 && rewrite(cmd.payload) == Some(rewritten)
    requires ProperRounds(rounds) && !ErrPacket(challenge.payload) && !OkHeaded(challenge.payload)
    ensures var t := Loop(AllFromClient(es) + ([cmd] + Answers(rounds)),
                          AllFromBackend(es) + (Challenges(rounds) + ([challenge] + b)), 0, caps, rewrite, None);
            && t.stop == Some(ClientLost) && t.client == [] && t.backend == b
            && t.requests == AllToBackend(es) + ([Pkt(cmd.sid, rewritten)] + Answers(rounds))
            && t.replies == AllFromBackend(es) + (Challenges(rounds) + [challenge])
  {
    var sid, backend := SidAfterSending(0, AllToBackend(es)), Challenges(rounds) + ([challenge] + b);
    DepartureTurn(cmd, rewritten, rounds, challenge, b, sid, caps, rewrite);
    StopsAt(es, [cmd] + Answers(rounds), backend, ComTurn([cmd] + Answers(rounds), backend, sid, caps, rewrite, None),
            caps, rewrite, None, None);
  }

  lemma {:induction false} LongDataTurn(cmd: Pkt, c: seq<Pkt>, b: seq<Pkt>, sid: Byte, caps: Flags, rewrite: Rewrite)
    requires cmd.payload != [] && cmd.payload[0] == 24
    ensures ComTurn([cmd] + c, b, sid, caps, rewrite, None) ==
            var sid1 := SidAfter(cmd.sid, cmd.payload);
            if b == [] then Stretch(Some(BackendLost), c, [], sid1, [cmd], [])
            else Stretch(None, c, b[1..], sid1, [cmd], [b[0]])
  {
    Dispatch(cmd, c, b, sid, caps, rewrite, None);
    if b != [] {
      assert b[..1] == [b[0]];
    }
  }

  /** COM_STMT_SEND_LONG_DATA is not answered, but the loop waits for an answer. A backend that sends
      nothing unasked never gets another command of the session: the loop stops when the backend goes
      away, with everything behind the command unread. Any packet that does come is taken for the answer,
      and the loop goes on one packet ahead of where the backend stood. */
  lemma {:induction false} LongDataMisaligns(
    es: seq<Exchange>, cmd: Pkt, c: seq<Pkt>, b: seq<Pkt>, caps: Flags, rewrite: Rewrite)
    requires Completed(es, caps, rewrite)
    requires cmd.payload != [] && cmd.payload[0] == 24
    ensures var t := Loop(AllFromClient(es) + ([cmd] + c), AllFromBackend(es) + b, 0, caps, rewrite, None);
            var sid := SidAfter(cmd.sid, cmd.payload);
            if b == [] then
              && t.stop == Some(BackendLost) && t.client == c
              && t.requests == AllToBackend(es) + [cmd] && t.replies == AllFromBackend(es)
            else
              t == Then(Said(es, [cmd] + c, b, 0),
                        Then(Stretch(None, c, b[1..], sid, [cmd], [b[0]]), Loop(c, b[1..], sid, caps, rewrite, None)))
  {
    var sid := SidAfterSending(0, AllToBackend(es));
    LongDataTurn(cmd, c, b, sid, caps, rewrite);
    if b == [] {
      StopsAt(es, [cmd] + c, b, ComTurn([cmd] + c, b, sid, caps, rewrite, None), caps, rewrite, None, None);
      assert AllFromBackend(es) + [] == AllFromBackend(es);
    } else {
      Aligned(es, [cmd] + c, b, 0, caps, rewrite, None);
    }
  }

  // ---------- one packet behind ----------

  /** The packets that single-reply commands hear when `x` stands before their replies: each hears what
      the one before it should have heard. */
  function Heard(x: Pkt, es: seq<Exchange>): seq<Pkt>
    requires forall k :: 0 <= k < |es| ==> es[k].Simple?
    decreases |es|
  {
    if es == [] then [] else [x] + Heard(es[0].reply, es[1..])
  }

  /** The reply that is then left over. */
  function LeftOver(x: Pkt, es: seq<Exchange>): Pkt
    requires forall k :: 0 <= k < |es| ==> es[k].Simple?
    decreases |es|
  {
    if es == [] then x else LeftOver(es[0].reply, es[1..])
  }

  /** Between them these are all the packets there are, in order: the k-th command hears the reply to
      the one before. */
  lemma {:induction false} HeardInOrder(x: Pkt, es: seq<Exchange>)
    requires forall k :: 0 <= k < |es| ==> es[k].Simple?
    ensures |Heard(x, es)| == |es| && Heard(x, es) + [LeftOver(x, es)] == [x] + AllFromBackend(es)
    ensures forall k :: 0 < k < |es| ==> Heard(x, es)[k] == es[k - 1].reply
    decreases |es|
  {
    if es != [] {
      HeardInOrder(es[0].reply, es[1..]);
      assert forall k :: 1 < k < |es| ==> Heard(x, es)[k] == Heard(es[0].reply, es[1..])[k - 1];
    }
  }

  lemma {:induction false} LagTurn(
    x: Pkt, e: Exchange, c: seq<Pkt>, b: seq<Pkt>, sid: Byte, caps: Flags, rewrite: Rewrite)
    requires e.Simple? && Conforming(e, caps, rewrite)
    ensures ComTurn([e.cmd] + c, [x] + b, sid, caps, rewrite, None) ==
            Stretch(None, c, b, SidAfterSending(sid, [e.cmd]), [e.cmd], [x])
  {
    Dispatch(e.cmd, c, [x] + b, sid, caps, rewrite, None);
    PlainExact(e.(reply := x), c, b, caps, rewrite, None);
  }

  function Lag(x: Pkt, es: seq<Exchange>, c: seq<Pkt>, b: seq<Pkt>, sid: Byte): Stretch
    requires forall k :: 0 <= k < |es| ==> es[k].Simple?
  {
    Stretch(None, c, [LeftOver(x, es)] + b, SidAfterSending(sid, AllToBackend(es)), AllToBackend(es), Heard(x, es))
  }

  lemma LagCons(x: Pkt, es: seq<Exchange>, c: seq<Pkt>, b: seq<Pkt>, sid: Byte)
    requires es != [] && forall k :: 0 <= k < |es| ==> es[k].Simple?
    ensures var (e, rest) := (es[0], es[1..]);
            && AllFromClient(es) + c == [e.cmd] + (AllFromClient(rest) + c)
            && AllFromBackend(es) + b == [e.reply] + (AllFromBackend(rest) + b)
            && var t := Stretch(None, AllFromClient(rest) + c, [e.reply] + (AllFromBackend(rest) + b),
                                SidAfterSending(sid, [e.cmd]), [e.cmd], [x]);
               Lag(x, es, c, b, sid) == Then(t, Lag(e.reply, rest, c, b, t.sid))
  {
    var e, rest := es[0], es[1..];
    Associative([e.cmd], AllFromClient(rest), c);
    Associative([e.reply], AllFromBackend(rest), b);
    SidAfterBoth(sid, [e.cmd], AllToBackend(rest));
  }

  /** On a connection that is one packet behind, every command with a single reply hears what the one
      before it should have heard, and the connection stays one packet behind. */
  lemma {:induction false} Lagging(
    x: Pkt, es: seq<Exchange>, c: seq<Pkt>, b: seq<Pkt>, sid: Byte, caps: Flags, rewrite: Rewrite)
    requires forall k :: 0 <= k < |es| ==> es[k].Simple? && Conforming(es[k], caps, rewrite)
    ensures var t := Lag(x, es, c, b, sid);
            Loop(AllFromClient(es) + c, [x] + (AllFromBackend(es) + b), sid, caps, rewrite, None)
            == Then(t, Loop(c, t.backend, t.sid, caps, rewrite, None))
    decreases |es|
  {
    if es == [] {
      assert AllFromClient(es) + c == c && AllFromBackend(es) + b == b;
      var u := Loop(c, [x] + b, sid, caps, rewrite, None);
      assert [] + u.requests == u.requests && [] + u.replies == u.replies;
    } else {
      var e, rest := es[0], es[1..];
      var sid1 := SidAfterSending(sid, [e.cmd]);
      var t := Stretch(None, AllFromClient(rest) + c, [e.reply] + (AllFromBackend(rest) + b), sid1, [e.cmd], [x]);
      var u := Lag(e.reply, rest, c, b, sid1);
      LagCons(x, es, c, b, sid);
      LagTurn(x, e, t.client, t.backend, sid, caps, rewrite);
      Lagging(e.reply, rest, c, b, sid1, caps, rewrite);
      ThenAssociative(t, u, Loop(c, u.backend, u.sid, caps, rewrite, None));
    }
  }

  // ---------- the reset ----------

  /** The number of frames that advance the writer's sequence id: an empty payload does not. */
  function Frames(p: Bytes): nat
  {
    (|p| + MAX_PAYLOAD_LEN - 1) / MAX_PAYLOAD_LEN
  }

  lemma {:induction false} SidAfterFrames(sid: Byte, p: Bytes)
    ensures SidAfter(sid, p) == (sid + Frames(p)) % 256
    decreases |p|
  {
    if |p| > MAX_PAYLOAD_LEN {
      SidAfterFrames(NextSid(sid), p[MAX_PAYLOAD_LEN..]);
      SidShift(sid, Frames(p[MAX_PAYLOAD_LEN..]));
    }
  }

  lemma SomethingSent(es: seq<Exchange>)
    ensures AllToBackend(es) == [] <==> es == []
  {
  }

  /** The reset is a command of its own, so the protocol numbers it from 0; `SessionExact` says which number it goes
      out with: 0 iff no command was forwarded before it or the frames of the last request were numbered up to 255.
      For a client that numbers its commands from 0, and a last request that fits in a frame, it is 1. */
  lemma ResetNumber(es: seq<Exchange>)
    ensures var sent := AllToBackend(es);
            var sid := SidAfterSending(0, sent);
            && (sid == 0 <==> es == [] || (sent != [] && (sent[|sent| - 1].sid + Frames(sent[|sent| - 1].payload)) % 256 == 0))
            && (sent != [] && sent[|sent| - 1].sid == 0 && 0 < |sent[|sent| - 1].payload| <= MAX_PAYLOAD_LEN ==> sid == 1)
  {
    var sent := AllToBackend(es);
    SomethingSent(es);
    if sent != [] {
      SidAfterFrames(sent[|sent| - 1].sid, sent[|sent| - 1].payload);
    }
  }

  // ---------- a session in bytes ----------

  /** A conforming session on byte streams, delivered and accepted in any portions: the backend is sent
      the commands and what its end demands, and the client the replies, byte for byte. */
  method ServeConforming(
    fromClient: Bytes, fromBackend: Bytes, caps: Flags, rewrite: Rewrite, room: Room,
    ghost es: seq<Exchange>, ghost f: Farewell, ghost c: seq<Pkt>, ghost b: seq<Pkt>)
    returns (stop: Stop, toClient: Bytes, toBackend: Bytes)
    requires Completed(es, caps, rewrite) && Parting(f, caps, rewrite) && Takes(room, |AllReplies(es, f)|)
    requires f.Leaves? ==> c == [] && EndOf(fromClient) != Crashed
    requires Received(fromClient) == AllFromClient(es) + (ClientParts(f) + c)
    requires Received(fromBackend) == AllFromBackend(es) + (BackendParts(f) + b)
    ensures stop == StopWith(f)
    ensures Sends(toClient, AllReplies(es, f)) && Sends(toBackend, AllRequests(es, f))
  {
    SessionExact(es, f, c, b, caps, rewrite, room);
    stop, toClient, toBackend := Serve(fromClient, fromBackend, caps, rewrite, room);
  }
}
