/** The MySQL packet codec: reassembling frames into packets and splitting payloads into frames. */
module Packets {
  import opened ByteStrings

  const MAX_PAYLOAD_LEN := 16_777_215
  const HEADER_LEN := 4

  /** A frame on the wire: three length bytes, the sequence id, the body. */
  datatype Frame = Frame(sid: Byte, body: Bytes)

  /** A reassembled packet, carrying the sequence id of its last frame. */
  datatype Pkt = Pkt(sid: Byte, payload: Bytes)

  datatype Framed = Taken(frame: Frame, rest: Bytes) | Short

  /** What `packet` does on a buffer: yields a packet and the rest, asks for more bytes, or panics
      because the sequence ids of consecutive full frames do not follow each other. */
  datatype Parsed = Packet(pkt: Pkt, rest: Bytes) | Incomplete | Panic

  function FullPacket(i: Bytes): (r: Framed)
    ensures r.Taken? ==> |r.rest| < |i| && |r.frame.body| == MAX_PAYLOAD_LEN
  {
    if |i| >= HEADER_LEN + MAX_PAYLOAD_LEN && i[..3] == [0xff, 0xff, 0xff]
    then Taken(Frame(i[3], i[4..4 + MAX_PAYLOAD_LEN]), i[4 + MAX_PAYLOAD_LEN..])
    else Short
  }

  function OnePacket(i: Bytes): (r: Framed)
    ensures r.Taken? ==> |r.rest| < |i|
  {
    if |i| < HEADER_LEN then Short else
    var n := FromLe(i[..3]);
    if |i| < HEADER_LEN + n then Short
    else Taken(Frame(i[3], i[4..4 + n]), i[4 + n..])
  }

  /** The test `seq == prev_seq + 1`, where the addition is on u8. */
  predicate Follows(prev: Byte, sid: Byte)
  {
    CheckedAdd(prev, 1, 256) == Some(sid)
  }

  /** A full frame put in front of the outcome of parsing what follows it. */
  function Prepend(f: Frame, prev: Option<Byte>, r: Parsed): Parsed
  {
    if !r.Packet? then r
    else if prev.Some? && !Follows(prev.value, f.sid) then Panic
    else r.(pkt := r.pkt.(payload := f.body + r.pkt.payload))
  }

  /** `packet` as a recursive function; `prev` is the sequence id of the full frame before `i`. */
  function ParseAfter(i: Bytes, prev: Option<Byte>): (r: Parsed)
    ensures r.Packet? ==> |r.rest| < |i|
    decreases |i|
  {
    match FullPacket(i)
    case Taken(f, rest) => Prepend(f, prev, ParseAfter(rest, Some(f.sid)))
    case Short =>
      match OnePacket(i)
      case Taken(f, rest) => Packet(Pkt(f.sid, f.body), rest)
      case Short => Incomplete
  }

  function Parse(i: Bytes): (r: Parsed)
    ensures r.Packet? ==> |r.rest| < |i|
  {
    ParseAfter(i, None)
  }

  // ---------- the source's loops ----------

  function LastSid(fs: seq<Frame>, prev: Option<Byte>): Option<Byte>
  {
    if fs == [] then prev else Some(fs[|fs| - 1].sid)
  }

  function PrependAll(fs: seq<Frame>, prev: Option<Byte>, r: Parsed): Parsed
  {
    if fs == [] then r else Prepend(fs[0], prev, PrependAll(fs[1..], Some(fs[0].sid), r))
  }

  predicate InOrder(fs: seq<Frame>, prev: Option<Byte>)
  {
    fs == [] || ((prev.Some? ==> Follows(prev.value, fs[0].sid)) && InOrder(fs[1..], Some(fs[0].sid)))
  }

  function Bodies(fs: seq<Frame>): Bytes
  {
    if fs == [] then [] else fs[0].body + Bodies(fs[1..])
  }

  lemma {:induction false} PrependAllSnoc(fs: seq<Frame>, f: Frame, prev: Option<Byte>, r: Parsed)
    ensures PrependAll(fs + [f], prev, r) == PrependAll(fs, prev, Prepend(f, LastSid(fs, prev), r))
  {
    if fs == [] {
      assert (fs + [f])[1..] == [];
    } else {
      assert (fs + [f])[1..] == fs[1..] + [f];
      PrependAllSnoc(fs[1..], f, Some(fs[0].sid), r);
    }
  }

  lemma {:induction false} PrependAllValue(fs: seq<Frame>, prev: Option<Byte>, r: Parsed)
    ensures PrependAll(fs, prev, r) ==
            if !r.Packet? then r
            else if InOrder(fs, prev) then Packet(Pkt(r.pkt.sid, Bodies(fs) + r.pkt.payload), r.rest)
            else Panic
  {
    if fs != [] {
      PrependAllValue(fs[1..], Some(fs[0].sid), r);
      if r.Packet? {
        assert Bodies(fs) + r.pkt.payload == fs[0].body + (Bodies(fs[1..]) + r.pkt.payload);
      }
    } else if r.Packet? {
      assert Bodies(fs) + r.pkt.payload == r.pkt.payload;
    }
  }

  lemma {:induction false} BodiesSnoc(fs: seq<Frame>, f: Frame)
    ensures Bodies(fs + [f]) == Bodies(fs) + f.body
  {
    if fs == [] {
      assert (fs + [f])[1..] == [];
    } else {
      assert (fs + [f])[1..] == fs[1..] + [f];
      BodiesSnoc(fs[1..], f);
    }
  }

  lemma {:induction false} InOrderSnoc(fs: seq<Frame>, f: Frame, prev: Option<Byte>)
    ensures InOrder(fs + [f], prev) <==>
            InOrder(fs, prev) && (LastSid(fs, prev).Some? ==> Follows(LastSid(fs, prev).value, f.sid))
  {
    if fs == [] {
      assert (fs + [f])[1..] == [];
    } else {
      assert (fs + [f])[1..] == fs[1..] + [f];
      InOrderSnoc(fs[1..], f, Some(fs[0].sid));
    }
  }

  lemma {:induction false} InOrderPrefix(fs: seq<Frame>, k: nat, prev: Option<Byte>)
    requires k <= |fs| && InOrder(fs, prev)
    ensures InOrder(fs[..k], prev)
  {
    if k > 0 {
      assert fs[..k][1..] == fs[1..][..k - 1];
      InOrderPrefix(fs[1..], k - 1, Some(fs[0].sid));
    }
  }

  /** `packet`: collect full frames, parse one last frame, then join the bodies while checking that
      the sequence ids of the full frames are consecutive. */
  method ParsePacket(i: Bytes) returns (r: Parsed)
    ensures r == Parse(i)
  {
    var input := i;
    var full: seq<Frame> := [];
    var next := FullPacket(input);
    while next.Taken?
      invariant next == FullPacket(input)
      invariant Parse(i) == PrependAll(full, None, ParseAfter(input, LastSid(full, None)))
      decreases |input|
    {
      PrependAllSnoc(full, next.frame, None, ParseAfter(next.rest, Some(next.frame.sid)));
      full := full + [next.frame];
      input := next.rest;
      next := FullPacket(input);
    }
    var last := OnePacket(input);
    PrependAllValue(full, None, ParseAfter(input, LastSid(full, None)));
    if last.Short? {
      return Incomplete;
    }
    var data: Bytes := [];
    var prev: Option<Byte> := None;
    for k := 0 to |full|
      invariant prev == LastSid(full[..k], None)
      invariant data == Bodies(full[..k])
      invariant InOrder(full[..k], None)
    {
      assert full[..k + 1] == full[..k] + [full[k]];
      BodiesSnoc(full[..k], full[k]);
      InOrderSnoc(full[..k], full[k], None);
      if prev.Some? && !Follows(prev.value, full[k].sid) {
        if InOrder(full, None) {
          InOrderPrefix(full, k + 1, None);
        }
        return Panic;
      }
      data := data + full[k].body;
      prev := Some(full[k].sid);
    }
    assert full[..|full|] == full;
    return Packet(Pkt(last.frame.sid, data + last.frame.body), last.rest);
  }

  // ---------- what a packet on the wire is ----------

  function EncodeFrame(f: Frame): (r: Bytes)
    requires |f.body| <= MAX_PAYLOAD_LEN
    ensures |r| == HEADER_LEN + |f.body|
  {
    ToLe(|f.body|, 3) + [f.sid] + f.body
  }

  ghost predicate Sized(fs: seq<Frame>)
  {
    forall f :: f in fs ==> |f.body| <= MAX_PAYLOAD_LEN
  }

  function Encode(fs: seq<Frame>): (r: Bytes)
    requires Sized(fs)
  {
    if fs == [] then [] else EncodeFrame(fs[0]) + Encode(fs[1..])
  }

  lemma EncodeOne(f: Frame)
    requires |f.body| <= MAX_PAYLOAD_LEN
    ensures Encode([f]) == EncodeFrame(f)
  {
    assert [f][1..] == [];
    assert EncodeFrame(f) + [] == EncodeFrame(f);
  }

  /** A complete packet on the wire: any number of full frames, then one shorter frame. */
  ghost predicate Chain(fs: seq<Frame>)
  {
    && fs != []
    && (forall k :: 0 <= k < |fs| - 1 ==> |fs[k].body| == MAX_PAYLOAD_LEN)
    && |fs[|fs| - 1].body| < MAX_PAYLOAD_LEN
  }

  /** A frame at the head of a buffer is read back whole, and is full iff its body has length MAX. */
  lemma FrameReadBack(f: Frame, t: Bytes)
    requires |f.body| <= MAX_PAYLOAD_LEN
    ensures OnePacket(EncodeFrame(f) + t) == Taken(f, t)
    ensures FullPacket(EncodeFrame(f) + t) ==
            if |f.body| == MAX_PAYLOAD_LEN then Taken(f, t) else Short
  {
    var s := EncodeFrame(f) + t;
    Pow256Values();
    LeRoundTrip(|f.body|, 3);
    assert s[..3] == ToLe(|f.body|, 3);
    assert s[4..4 + |f.body|] == f.body;
    assert s[4 + |f.body|..] == t;
    Le3(s[..3]);
  }

  /** Conversely, whatever `OnePacket` takes is an encoded frame. */
  lemma FrameTaken(i: Bytes)
    requires OnePacket(i).Taken?
    ensures |OnePacket(i).frame.body| <= MAX_PAYLOAD_LEN
    ensures i == EncodeFrame(OnePacket(i).frame) + OnePacket(i).rest
  {
    Le3(i[..3]);
    LeInjective(i[..3]);
    var f := OnePacket(i).frame;
    assert i == i[..3] + [i[3]] + i[4..4 + |f.body|] + i[4 + |f.body|..];
  }

  lemma FullTaken(i: Bytes)
    ensures FullPacket(i).Taken? ==> OnePacket(i) == FullPacket(i)
    ensures FullPacket(i).Short? && OnePacket(i).Taken? ==> |OnePacket(i).frame.body| < MAX_PAYLOAD_LEN
  {
    if |i| >= HEADER_LEN {
      Le3(i[..3]);
    }
  }

  lemma {:induction false} ParseFullFrames(fs: seq<Frame>, t: Bytes, prev: Option<Byte>)
    requires forall f :: f in fs ==> |f.body| == MAX_PAYLOAD_LEN
    ensures ParseAfter(Encode(fs) + t, prev) == PrependAll(fs, prev, ParseAfter(t, LastSid(fs, prev)))
  {
    if fs == [] {
      assert Encode(fs) + t == t;
    } else {
      Associative(EncodeFrame(fs[0]), Encode(fs[1..]), t);
      FrameReadBack(fs[0], Encode(fs[1..]) + t);
      ParseFullFrames(fs[1..], t, Some(fs[0].sid));
      assert LastSid(fs[1..], Some(fs[0].sid)) == LastSid(fs, prev);
    }
  }

  lemma {:induction false} EncodeAppend(fs: seq<Frame>, gs: seq<Frame>)
    requires Sized(fs) && Sized(gs)
    ensures Sized(fs + gs) && Encode(fs + gs) == Encode(fs) + Encode(gs)
  {
    if fs == [] {
      assert fs + gs == gs;
    } else {
      assert (fs + gs)[1..] == fs[1..] + gs;
      EncodeAppend(fs[1..], gs);
      Associative(EncodeFrame(fs[0]), Encode(fs[1..]), Encode(gs));
    }
  }

  lemma ParseLastFrame(f: Frame, t: Bytes, prev: Option<Byte>)
    requires |f.body| < MAX_PAYLOAD_LEN
    ensures ParseAfter(EncodeFrame(f) + t, prev) == Packet(Pkt(f.sid, f.body), t)
  {
    FrameReadBack(f, t);
  }

  lemma EncodeSnoc(fs: seq<Frame>, f: Frame, t: Bytes)
    requires Sized(fs) && |f.body| <= MAX_PAYLOAD_LEN
    ensures Sized(fs + [f]) && Encode(fs + [f]) + t == Encode(fs) + (EncodeFrame(f) + t)
  {
    EncodeAppend(fs, [f]);
    EncodeOne(f);
    Associative(Encode(fs), EncodeFrame(f), t);
  }

  /** Every chain is parsed exactly: with anything behind it, it yields its bodies joined, its last
      sequence id and the untouched suffix, or panics precisely when the full frames are out of order. */
  lemma ParseChain(fs: seq<Frame>, t: Bytes)
    requires Chain(fs)
    ensures Sized(fs)
    ensures Parse(Encode(fs) + t) ==
            if InOrder(fs[..|fs| - 1], None) then Packet(Pkt(fs[|fs| - 1].sid, Bodies(fs)), t) else Panic
  {
    var init, last := fs[..|fs| - 1], fs[|fs| - 1];
    assert fs == init + [last];
    EncodeSnoc(init, last, t);
    ParseFullFrames(init, EncodeFrame(last) + t, None);
    ParseLastFrame(last, t, LastSid(init, None));
    PrependAllValue(init, None, Packet(Pkt(last.sid, last.body), t));
    BodiesSnoc(init, last);
  }

  lemma ChainCons(f: Frame, gs: seq<Frame>, t: Bytes)
    requires Chain(gs) && Sized(gs) && |f.body| == MAX_PAYLOAD_LEN
    ensures Chain([f] + gs) && Sized([f] + gs) && Encode([f] + gs) + t == EncodeFrame(f) + (Encode(gs) + t)
  {
    assert ([f] + gs)[1..] == gs;
    Associative(EncodeFrame(f), Encode(gs), t);
  }

  /** Conversely, whenever `packet` does not ask for more bytes, a chain stands at the head of its input. */
  lemma {:induction false} ParsedIsChain(i: Bytes, prev: Option<Byte>) returns (fs: seq<Frame>, t: Bytes)
    requires !ParseAfter(i, prev).Incomplete?
    ensures Chain(fs) && Sized(fs) && i == Encode(fs) + t
    decreases |i|
  {
    FullTaken(i);
    FrameTaken(i);
    var f := OnePacket(i).frame;
    if FullPacket(i).Taken? {
      fs, t := ParsedIsChain(FullPacket(i).rest, Some(f.sid));
      ChainCons(f, fs, t);
      fs := [f] + fs;
    } else {
      fs, t := [f], OnePacket(i).rest;
      EncodeOne(f);
    }
  }

  /** Prefix stability: once `packet` has decided, bytes arriving later cannot change its mind. */
  lemma ParseStable(s: Bytes, t: Bytes)
    requires !Parse(s).Incomplete?
    ensures Parse(s + t) == match Parse(s) case Packet(p, rest) => Packet(p, rest + t) case _ => Panic
  {
    var fs, u := ParsedIsChain(s, None);
    assert s + t == Encode(fs) + (u + t);
    ParseChain(fs, u);
    ParseChain(fs, u + t);
  }

  /** The rest `packet` returns is a suffix of its input. */
  lemma ParsedSuffix(s: Bytes)
    requires Parse(s).Packet?
    ensures s[|s| - |Parse(s).rest|..] == Parse(s).rest
  {
    var fs, t := ParsedIsChain(s, None);
    ParseChain(fs, t);
  }

  /** Asking for more bytes means exactly that no complete packet stands at the head of the buffer. */
  lemma IncompleteExactly(s: Bytes)
    ensures Parse(s).Incomplete? <==> !exists fs, t :: Chain(fs) && Sized(fs) && s == Encode(fs) + t
  {
    if !Parse(s).Incomplete? {
      var fs, t := ParsedIsChain(s, None);
    }
    forall fs, t | Chain(fs) && Sized(fs) && s == Encode(fs) + t
      ensures !Parse(s).Incomplete?
    {
      ParseChain(fs, t);
    }
  }

  lemma {:induction false} ChainLength(fs: seq<Frame>)
    requires Sized(fs)
    ensures |Encode(fs)| == HEADER_LEN * |fs| + |Bodies(fs)|
    ensures Chain(fs) ==> |fs| == |Bodies(fs)| / MAX_PAYLOAD_LEN + 1
  {
    if |fs| > 1 {
      ChainLength(fs[1..]);
    } else if |fs| == 1 {
      assert fs[1..] == [];
    }
  }

  function PacketLength(payload: Bytes): nat
  {
    |payload| + HEADER_LEN * (|payload| / MAX_PAYLOAD_LEN + 1)
  }

  lemma ParsedLength(s: Bytes)
    requires Parse(s).Packet?
    ensures |s| == PacketLength(Parse(s).pkt.payload) + |Parse(s).rest|
  {
    var fs, t := ParsedIsChain(s, None);
    ParseChain(fs, t);
    ChainLength(fs);
  }

  // ---------- splitting a payload into frames ----------

  function NextSid(sid: Byte): Byte
  {
    (sid + 1) % 256
  }

  /** The frames a payload is cut into; an empty payload is one empty frame. */
  function Split(sid: Byte, p: Bytes): (fs: seq<Frame>)
    ensures fs != [] && fs[0].sid == sid
    ensures Sized(fs)
    decreases |p|
  {
    if |p| <= MAX_PAYLOAD_LEN then [Frame(sid, p)]
    else [Frame(sid, p[..MAX_PAYLOAD_LEN])] + Split(NextSid(sid), p[MAX_PAYLOAD_LEN..])
  }

  function Wire(p: Pkt): Bytes
  {
    Encode(Split(p.sid, p.payload))
  }

  /** No frame shorter than MAX closes the payload: `end_packet` sends no empty closing frame. */
  predicate Unclosed(p: Bytes)
  {
    p != [] && |p| % MAX_PAYLOAD_LEN == 0
  }

  /** The sequence ids of the full frames of a payload stay below the u8 overflow that `packet` checks. */
  predicate IdsInRange(sid: Byte, p: Bytes)
  {
    OVERFLOW_CHECKS ==> sid + |p| / MAX_PAYLOAD_LEN <= 256
  }

  predicate Survives(p: Pkt)
  {
    !Unclosed(p.payload) && IdsInRange(p.sid, p.payload)
  }

  /** What a reader sees of a packet sent with first sequence id `p.sid`. */
  function AsReceived(p: Pkt): Pkt
  {
    Pkt((p.sid + |p.payload| / MAX_PAYLOAD_LEN) % 256, p.payload)
  }

  lemma {:induction false} SplitBodies(sid: Byte, p: Bytes)
    ensures Bodies(Split(sid, p)) == p
    decreases |p|
  {
    var fs := Split(sid, p);
    if |p| > MAX_PAYLOAD_LEN {
      SplitBodies(NextSid(sid), p[MAX_PAYLOAD_LEN..]);
      assert fs[1..] == Split(NextSid(sid), p[MAX_PAYLOAD_LEN..]);
      assert p == p[..MAX_PAYLOAD_LEN] + p[MAX_PAYLOAD_LEN..];
    } else {
      assert fs[1..] == [];
    }
  }

  lemma {:induction false} SplitFull(sid: Byte, p: Bytes)
    requires Unclosed(p)
    ensures forall f :: f in Split(sid, p) ==> |f.body| == MAX_PAYLOAD_LEN
    decreases |p|
  {
    if |p| > MAX_PAYLOAD_LEN {
      SplitFull(NextSid(sid), p[MAX_PAYLOAD_LEN..]);
    }
  }

  lemma DropChunk(n: nat)
    requires n > MAX_PAYLOAD_LEN
    ensures n / MAX_PAYLOAD_LEN == (n - MAX_PAYLOAD_LEN) / MAX_PAYLOAD_LEN + 1
    ensures n % MAX_PAYLOAD_LEN == (n - MAX_PAYLOAD_LEN) % MAX_PAYLOAD_LEN
  {
  }

  lemma SidShift(sid: Byte, k: nat)
    ensures (NextSid(sid) + k) % 256 == (sid + k + 1) % 256
  {
  }

  lemma SplitCons(sid: Byte, p: Bytes)
    requires |p| > MAX_PAYLOAD_LEN
    ensures var gs := Split(NextSid(sid), p[MAX_PAYLOAD_LEN..]);
            && Split(sid, p) == [Frame(sid, p[..MAX_PAYLOAD_LEN])] + gs
            && Split(sid, p)[1..] == gs
            && |p| / MAX_PAYLOAD_LEN == |p[MAX_PAYLOAD_LEN..]| / MAX_PAYLOAD_LEN + 1
            && (Unclosed(p) <==> Unclosed(p[MAX_PAYLOAD_LEN..]))
  {
    DropChunk(|p|);
  }

  lemma ChainOf(f: Frame, gs: seq<Frame>)
    requires Chain(gs) && |f.body| == MAX_PAYLOAD_LEN
    ensures Chain([f] + gs) && ([f] + gs)[|gs|] == gs[|gs| - 1]
  {
  }

  /** A payload of `k` full chunks and a shorter rest is cut into a chain. */
  lemma {:induction false} SplitChain(sid: Byte, p: Bytes, k: nat, r: nat)
    requires |p| == MAX_PAYLOAD_LEN * k + r && r < MAX_PAYLOAD_LEN && (r == 0 ==> k == 0)
    ensures var fs := Split(sid, p); Chain(fs) && |fs| == k + 1 && fs[k].sid == (sid + k) % 256
    decreases |p|
  {
    if |p| > MAX_PAYLOAD_LEN {
      var rest := p[MAX_PAYLOAD_LEN..];
      SplitChain(NextSid(sid), rest, k - 1, r);
      ChainOf(Frame(sid, p[..MAX_PAYLOAD_LEN]), Split(NextSid(sid), rest));
      SidShift(sid, k - 1);
    }
  }

  lemma InOrderCons(f: Frame, gs: seq<Frame>)
    ensures InOrder([f] + gs, None) <==> gs == [] || (Follows(f.sid, gs[0].sid) && InOrder(gs, None))
  {
    assert ([f] + gs)[1..] == gs;
  }

  lemma IdsStep(sid: Byte, k: nat)
    requires k > 0
    ensures (OVERFLOW_CHECKS ==> sid + k <= 256) <==>
            k == 1 || (Follows(sid, NextSid(sid)) && (OVERFLOW_CHECKS ==> NextSid(sid) + (k - 1) <= 256))
  {
  }

  lemma {:induction false} SplitInOrder(sid: Byte, p: Bytes, k: nat, r: nat)
    requires |p| == MAX_PAYLOAD_LEN * k + r && r < MAX_PAYLOAD_LEN && (r == 0 ==> k == 0)
    ensures var fs := Split(sid, p);
            |fs| == k + 1 && (InOrder(fs[..k], None) <==> (OVERFLOW_CHECKS ==> sid + k <= 256))
    decreases |p|
  {
    SplitChain(sid, p, k, r);
    if |p| > MAX_PAYLOAD_LEN {
      var f, gs := Frame(sid, p[..MAX_PAYLOAD_LEN]), Split(NextSid(sid), p[MAX_PAYLOAD_LEN..]);
      SplitInOrder(NextSid(sid), p[MAX_PAYLOAD_LEN..], k - 1, r);
      assert ([f] + gs)[..k] == [f] + gs[..k - 1];
      InOrderCons(f, gs[..k - 1]);
      IdsStep(sid, k);
    }
  }

  /** A payload left unclosed is glued in front of whatever packet comes next. */
  lemma ParseUnclosed(p: Pkt, t: Bytes)
    requires Unclosed(p.payload)
    ensures match Parse(t)
            case Packet(q, r) =>
              var glued := Packet(Pkt(q.sid, p.payload + q.payload), r);
              Parse(Wire(p) + t) == glued || Parse(Wire(p) + t) == Panic
            case other => Parse(Wire(p) + t) == other
  {
    var fs := Split(p.sid, p.payload);
    SplitBodies(p.sid, p.payload);
    SplitFull(p.sid, p.payload);
    ParseFullFrames(fs, t, None);
    PrependAllValue(fs, None, ParseAfter(t, LastSid(fs, None)));
  }

  lemma ParseClosed(p: Pkt, t: Bytes)
    requires !Unclosed(p.payload)
    ensures Parse(Wire(p) + t) == if Survives(p) then Packet(AsReceived(p), t) else Panic
  {
    var k, r := |p.payload| / MAX_PAYLOAD_LEN, |p.payload| % MAX_PAYLOAD_LEN;
    Chunks(|p.payload|);
    ParseChunks(p.sid, p.payload, k, r, t);
    SurvivesAs(p, k);
  }

  lemma Chunks(n: nat)
    requires n == 0 || n % MAX_PAYLOAD_LEN != 0
    ensures var (k, r) := (n / MAX_PAYLOAD_LEN, n % MAX_PAYLOAD_LEN);
            n == MAX_PAYLOAD_LEN * k + r && r < MAX_PAYLOAD_LEN && (r == 0 ==> k == 0)
  {
  }

  lemma ChunkFrames(sid: Byte, p: Bytes, k: nat, r: nat)
    requires |p| == MAX_PAYLOAD_LEN * k + r && r < MAX_PAYLOAD_LEN && (r == 0 ==> k == 0)
    ensures var fs := Split(sid, p);
            && Chain(fs) && |fs| == k + 1 && Bodies(fs) == p && fs[k].sid == (sid + k) % 256
            && (InOrder(fs[..k], None) <==> (OVERFLOW_CHECKS ==> sid + k <= 256))
  {
    SplitBodies(sid, p);
    SplitChain(sid, p, k, r);
    SplitInOrder(sid, p, k, r);
  }

  lemma SurvivesAs(p: Pkt, k: nat)
    requires !Unclosed(p.payload) && k == |p.payload| / MAX_PAYLOAD_LEN
    ensures Survives(p) <==> (OVERFLOW_CHECKS ==> p.sid + k <= 256)
    ensures AsReceived(p) == Pkt((p.sid + k) % 256, p.payload)
  {
  }

  /** A payload of `k` full chunks and a shorter rest, framed and parsed. */
  lemma ParseChunks(sid: Byte, p: Bytes, k: nat, r: nat, t: Bytes)
    requires |p| == MAX_PAYLOAD_LEN * k + r && r < MAX_PAYLOAD_LEN && (r == 0 ==> k == 0)
    ensures Parse(Encode(Split(sid, p)) + t) ==
            if OVERFLOW_CHECKS ==> sid + k <= 256 then Packet(Pkt((sid + k) % 256, p), t) else Panic
  {
    ChunkFrames(sid, p, k, r);
    ParseChainAs(Split(sid, p), t, Pkt((sid + k) % 256, p), OVERFLOW_CHECKS ==> sid + k <= 256);
  }

  lemma ParseChainAs(fs: seq<Frame>, t: Bytes, q: Pkt, inOrder: bool)
    requires Chain(fs) && Sized(fs) && Bodies(fs) == q.payload && fs[|fs| - 1].sid == q.sid
    requires InOrder(fs[..|fs| - 1], None) <==> inOrder
    ensures Parse(Encode(fs) + t) == if inOrder then Packet(q, t) else Panic
  {
    ParseChain(fs, t);
  }

  /** Framing round trip, exactly: the frames of a packet parse back to its payload with its last
      sequence id and nothing left over iff the packet survives, and are a packet still in want of
      bytes iff the payload is left unclosed. */
  lemma FramingRoundTrip(p: Pkt)
    ensures Parse(Wire(p)) == Packet(AsReceived(p), []) <==> Survives(p)
    ensures Parse(Wire(p)).Incomplete? <==> Unclosed(p.payload)
  {
    assert Wire(p) + [] == Wire(p);
    if Unclosed(p.payload) {
      ParseUnclosed(p, []);
    } else {
      ParseClosed(p, []);
    }
  }

  lemma EncodeLength(fs: seq<Frame>)
    requires fs != [] && Sized(fs)
    ensures |Encode(fs)| == HEADER_LEN + |fs[0].body| + |Encode(fs[1..])|
  {
  }

  lemma {:induction false} WireLength(sid: Byte, p: Bytes)
    ensures |Encode(Split(sid, p))| == PacketLength(p) - if Unclosed(p) then HEADER_LEN else 0
    decreases |p|
  {
    var fs := Split(sid, p);
    if |p| > MAX_PAYLOAD_LEN {
      var rest := p[MAX_PAYLOAD_LEN..];
      SplitCons(sid, p);
      WireLength(NextSid(sid), rest);
      EncodeLength(fs);
    } else {
      EncodeOne(fs[0]);
    }
  }

  lemma WireSid(p: Pkt)
    ensures |Wire(p)| >= HEADER_LEN && Wire(p)[3] == p.sid
  {
    var fs := Split(p.sid, p.payload);
    assert Encode(fs) == EncodeFrame(fs[0]) + Encode(fs[1..]);
    assert EncodeFrame(fs[0])[3] == p.sid;
  }

  lemma SameNumber(sid: Byte, n: nat)
    ensures (sid + n) % 256 == sid <==> n % 256 == 0
  {
  }

  /** Passing a received packet on: `forward_one_packet` starts the outgoing frames at the last
      sequence id of the incoming ones. The bytes are the same iff that is also the first one, as
      for every packet of one frame; the payload comes through iff the shifted ids stay in range. */
  lemma Reforward(p: Pkt)
    requires Survives(p)
    ensures Wire(AsReceived(p)) == Wire(p) <==> |p.payload| / MAX_PAYLOAD_LEN % 256 == 0
    ensures (exists q :: Parse(Wire(AsReceived(p))) == Packet(q, []) && q.payload == p.payload)
            <==> IdsInRange(AsReceived(p).sid, p.payload)
  {
    WireSid(p);
    WireSid(AsReceived(p));
    SameNumber(p.sid, |p.payload| / MAX_PAYLOAD_LEN);
    FramingRoundTrip(AsReceived(p));
    ParseClosed(AsReceived(p), []);
    assert Wire(AsReceived(p)) + [] == Wire(AsReceived(p));
  }

  /** The frame of a ping: three bytes of length, the sequence id, the command. */
  lemma Ping(sid: Byte)
    ensures Parse([1, 0, 0, sid, 0x10]) == Packet(Pkt(sid, [0x10]), []) && Wire(Pkt(sid, [0x10])) == [1, 0, 0, sid, 0x10]
  {
    var f := Frame(sid, [0x10]);
    EncodeOne(f);
    assert ToLe(1, 3) == [1, 0, 0] by {
      assert ToLe(0, 2) == [0, 0];
    }
    assert EncodeFrame(f) == [1, 0, 0, sid, 0x10];
    ParseLastFrame(f, [], None);
    assert EncodeFrame(f) + [] == EncodeFrame(f);
  }
}
