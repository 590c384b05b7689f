/** Whole byte streams: what a reader that calls `packet` again and again sees of them. */
module Streams {
  import opened ByteStrings
  import opened Packets

  /** How a stream of packets ends: cleanly, with bytes that never become a packet, or in the
      panic of `packet`. */
  datatype Ending = Drained | Truncated | Crashed

  function Received(s: Bytes): (r: seq<Pkt>)
    decreases |s|
  {
    match Parse(s)
    case Packet(p, rest) => [p] + Received(rest)
    case _ => []
  }

  function EndOf(s: Bytes): (r: Ending)
    decreases |s|
  {
    match Parse(s)
    case Packet(_, rest) => EndOf(rest)
    case Panic => Crashed
    case Incomplete => if s == [] then Drained else Truncated
  }

  function WireAll(ps: seq<Pkt>): Bytes
  {
    if ps == [] then [] else Wire(ps[0]) + WireAll(ps[1..])
  }

  function AllAsReceived(ps: seq<Pkt>): (r: seq<Pkt>)
    ensures |r| == |ps| && forall k :: 0 <= k < |ps| ==> r[k] == AsReceived(ps[k])
  {
    seq(|ps|, k requires 0 <= k < |ps| => AsReceived(ps[k]))
  }

  lemma {:induction false} WireAllSnoc(ps: seq<Pkt>, p: Pkt)
    ensures WireAll(ps + [p]) == WireAll(ps) + Wire(p)
  {
    if ps == [] {
      assert (ps + [p])[1..] == [];
    } else {
      assert (ps + [p])[1..] == ps[1..] + [p];
      WireAllSnoc(ps[1..], p);
    }
  }

  lemma AllAsReceivedCons(ps: seq<Pkt>)
    requires ps != []
    ensures AllAsReceived(ps) == [AsReceived(ps[0])] + AllAsReceived(ps[1..])
  {
  }

  lemma OneReceived(p: Pkt, t: Bytes)
    requires Survives(p)
    ensures Received(Wire(p) + t) == [AsReceived(p)] + Received(t)
    ensures EndOf(Wire(p) + t) == EndOf(t)
  {
    ParseClosed(p, t);
  }

  /** Packets that survive are received one by one, in order, and leave the stream behind them as it was. */
  lemma {:induction false} SurvivorsReceived(ps: seq<Pkt>, t: Bytes)
    requires forall p :: p in ps ==> Survives(p)
    ensures Received(WireAll(ps) + t) == AllAsReceived(ps) + Received(t)
    ensures EndOf(WireAll(ps) + t) == EndOf(t)
  {
    if ps == [] {
      assert WireAll(ps) + t == t;
    } else {
      SurvivorsReceived(ps[1..], t);
      assert Survives(ps[0]);
      OneReceived(ps[0], WireAll(ps[1..]) + t);
      Associative(Wire(ps[0]), WireAll(ps[1..]), t);
      AllAsReceivedCons(ps);
      Associative([AsReceived(ps[0])], AllAsReceived(ps[1..]), Received(t));
    }
  }

  function TotalLength(ps: seq<Pkt>): nat
  {
    if ps == [] then 0 else PacketLength(ps[0].payload) + TotalLength(ps[1..])
  }

  /** A stream that ends cleanly is as long as the packets received from it, closing frames included. */
  lemma {:induction false} DrainedLength(s: Bytes)
    requires EndOf(s) == Drained
    ensures |s| == TotalLength(Received(s))
    decreases |s|
  {
    if Parse(s).Packet? {
      ParsedLength(s);
      DrainedLength(Parse(s).rest);
      assert Received(s)[1..] == Received(Parse(s).rest);
    }
  }

  /** A stream of written packets is that long only if none of them was left unclosed. */
  lemma {:induction false} WrittenLength(ps: seq<Pkt>)
    ensures |WireAll(ps)| <= TotalLength(AllAsReceived(ps))
    ensures |WireAll(ps)| == TotalLength(AllAsReceived(ps)) ==> forall p :: p in ps ==> !Unclosed(p.payload)
  {
    if ps != [] {
      WireLength(ps[0].sid, ps[0].payload);
      WrittenLength(ps[1..]);
      AllAsReceivedCons(ps);
      assert AllAsReceived(ps)[1..] == AllAsReceived(ps[1..]);
    }
  }

  lemma {:induction false} ClosedButPanics(ps: seq<Pkt>)
    requires forall p :: p in ps ==> !Unclosed(p.payload)
    requires EndOf(WireAll(ps)) != Crashed
    ensures forall p :: p in ps ==> Survives(p)
  {
    if ps != [] {
      ParseClosed(ps[0], WireAll(ps[1..]));
      ClosedButPanics(ps[1..]);
    }
  }

  /** End to end, exactly: the packets written come out in order, each with its last sequence id,
      and the stream ends cleanly, iff every one of them survives framing. */
  lemma TransportExactly(ps: seq<Pkt>)
    ensures Received(WireAll(ps)) == AllAsReceived(ps) && EndOf(WireAll(ps)) == Drained
            <==> forall p :: p in ps ==> Survives(p)
  {
    if forall p :: p in ps ==> Survives(p) {
      SurvivorsReceived(ps, []);
      assert WireAll(ps) + [] == WireAll(ps);
    }
    if Received(WireAll(ps)) == AllAsReceived(ps) && EndOf(WireAll(ps)) == Drained {
      DrainedLength(WireAll(ps));
      WrittenLength(ps);
      ClosedButPanics(ps);
    }
  }
}
