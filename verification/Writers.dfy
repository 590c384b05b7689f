/** The OK packet as it is written, and read back at the other end of a connection. */
module Writers {
  import opened ByteStrings
  import opened Packets
  import opened PacketIO
  import opened Codecs

  /** The numbers and texts are those of the wire: u64 counters, u16 status, UTF-8 strings. */
  predicate Representable(ok: OkPacket)
  {
    && ok.affectedRows < U64 && ok.lastInsertId < U64 && ok.status < U16
    && |ok.info| < U64 && |ok.sessionState| < U64 && Utf8(ok.info) && Utf8(ok.sessionState)
  }

  /** The text part is appended field by field. */
  method WriteOkText(w: PacketWriter, caps: Flags, ok: OkPacket)
    requires Representable(ok)
    modifies w`buf
    ensures w.buf == old(w.buf) + OkText(caps, ok.status, ok.info, ok.sessionState)
  {
    if CLIENT_SESSION_TRACK in caps {
      w.Write(Text(ok.info));
      if SERVER_SESSION_STATE_CHANGED in Bits(ok.status, 16) {
        w.Write(Text(ok.sessionState));
      }
    } else {
      w.Write(ok.info);
    }
  }

  /** What precedes the text: header, counters and, as far as the client wants it, the status. */
  function OkHead(caps: Flags, ok: OkPacket): Bytes
    requires Representable(ok)
  {
    [ok.header] + Number(ok.affectedRows) + Number(ok.lastInsertId)
    + (if CLIENT_PROTOCOL_41 in caps then ToLe(ok.status, 2) + [0x00, 0x00]
       else if CLIENT_TRANSACTIONS in caps then ToLe(ok.status, 2) else [])
  }

  method WriteOkHead(w: PacketWriter, caps: Flags, ok: OkPacket)
    requires Representable(ok) && w.buf == []
    modifies w`buf
    ensures w.buf == OkHead(caps, ok)
  {
    w.Write([ok.header]);
    w.Write(Number(ok.affectedRows));
    w.Write(Number(ok.lastInsertId));
    ghost var counters := [ok.header] + Number(ok.affectedRows) + Number(ok.lastInsertId);
    assert w.buf == counters by { assert [] + [ok.header] == [ok.header]; }
    if CLIENT_PROTOCOL_41 in caps {
      w.Write(ToLe(ok.status, 2));
      w.Write([0x00, 0x00]);
      Associative(counters, ToLe(ok.status, 2), [0x00, 0x00]);
    } else if CLIENT_TRANSACTIONS in caps {
      w.Write(ToLe(ok.status, 2));
    } else {
      assert counters + [] == counters;
    }
  }

  /** `write_ok_packet_with_client_flags` */
  method WriteOkPacket(w: PacketWriter, caps: Flags, ok: OkPacket) returns (written: bool)
    requires w.Valid() && w.buf == [] && Representable(ok)
    modifies w
    ensures w.buf == [] && written == (old(w.room) != Some(0))
    ensures written ==> w.Valid() && w.log == old(w.log) + [Pkt(old(w.sid), OkBytes(caps, ok))]
    ensures !written ==> w.log == old(w.log)
  {
    WriteOkHead(w, caps, ok);
    WriteOkText(w, caps, ok);
    OkAppended(caps, ok);
    written := w.EndPacket();
  }

  /** Appending left to right builds the same bytes. */
  lemma OkAppended(caps: Flags, ok: OkPacket)
    requires Representable(ok)
    ensures OkHead(caps, ok) + OkText(caps, ok.status, ok.info, ok.sessionState) == OkBytes(caps, ok)
  {
    var text := OkText(caps, ok.status, ok.info, ok.sessionState);
    var (a, b, c) := ([ok.header], Number(ok.affectedRows), Number(ok.lastInsertId));
    if CLIENT_PROTOCOL_41 in caps {
      assert ToLe(0, 2) == [0x00, 0x00];
      RightNested(a, b, c, ToLe(ok.status, 2) + ToLe(0, 2), text);
      Associative(ToLe(ok.status, 2), ToLe(0, 2), text);
    } else {
      RightNested(a, b, c, if CLIENT_TRANSACTIONS in caps then ToLe(ok.status, 2) else [], text);
    }
  }

  lemma RightNested(a: Bytes, b: Bytes, c: Bytes, d: Bytes, e: Bytes)
    ensures a + b + c + d + e == a + (b + (c + (d + e)))
  {
    Associative(a + b + c, d, e);
    Associative(a + b, c, d + e);
    Associative(a, b, c + (d + e));
  }
}
