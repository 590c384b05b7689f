/** The packets of the MySQL text and binary protocol, and the tests by which the proxy tells data
    from terminators. */
module Responses {
  import opened ByteStrings
  import opened Codecs

  // ---------- the proxy's tests ----------

  predicate IsEof(p: Bytes)
  {
    p != [] && p[0] == 0xfe && |p| <= 5
  }

  predicate IsResultSetEof(p: Bytes)
  {
    p != [] && p[0] == 0xfe && 7 <= |p| < 0xffffff
  }

  predicate IsOk(p: Bytes)
  {
    p != [] && p[0] == 0x00
  }

  predicate IsErr(p: Bytes)
  {
    p != [] && p[0] == 0xff
  }

  predicate IsLocalInFile(p: Bytes)
  {
    p != [] && p[0] == 0xfb
  }

  // ---------- what a server sends ----------

  datatype Cell = Null | Value(bytes: Bytes)

  function CellBytes(c: Cell): (r: Bytes)
    requires c.Value? ==> |c.bytes| < U64
    ensures r != []
  {
    match c case Null => [0xfb] case Value(b) => Text(b)
  }

  function RowBytes(cells: seq<Cell>): (r: Bytes)
    requires forall c :: c in cells && c.Value? ==> |c.bytes| < U64
    ensures cells != [] ==> r != []
  {
    if cells == [] then [] else CellBytes(cells[0]) + RowBytes(cells[1..])
  }

  /** Text Resultset Row: one length-encoded or NULL value per column. */
  ghost predicate TextRow(p: Bytes)
  {
    exists cells: seq<Cell> ::
      cells != [] && (forall c :: c in cells && c.Value? ==> |c.bytes| < U64) && p == RowBytes(cells)
  }

  /** Binary Protocol Resultset Row: a zero byte, the NULL bitmap, the values. */
  predicate BinaryRow(p: Bytes)
  {
    p != [] && p[0] == 0x00
  }

  /** Protocol::ColumnDefinition41: its catalog is always "def". */
  predicate ColumnDef(p: Bytes)
  {
    |p| >= 4 && p[..4] == [3, 0x64, 0x65, 0x66]
  }

  ghost predicate Row(p: Bytes)
  {
    TextRow(p) || BinaryRow(p)
  }

  /** EOF_Packet of the 4.1 protocol. */
  predicate EofPacket(p: Bytes, status: nat)
  {
    |p| == 5 && p[0] == 0xfe && status < U16 && p[3..5] == ToLe(status, 2)
  }

  /** What may stand behind the fixed part of an OK packet. */
  ghost predicate OkTail(t: Bytes, status: nat, caps: Flags)
  {
    || CLIENT_SESSION_TRACK !in caps
    || t == []
    || exists info: Bytes, state: Bytes ::
         |info| < U64 && |state| < U64 && t == OkText(caps, status, info, state)
  }

  /** OK_Packet of the 4.1 protocol, with header 0x00 or, as a terminator, 0xfe. */
  ghost predicate OkPacketOf(p: Bytes, header: Byte, status: nat, caps: Flags)
  {
    exists rows: nat, id: nat, warnings: nat, t: Bytes ::
      && rows < U64 && id < U64 && warnings < U16 && status < U16
      && p == OkWith(header, rows, id, status, warnings, t) && OkTail(t, status, caps)
  }

  /** The packet that ends a list of rows or definitions; in place of an EOF packet, an OK packet
      with header 0xfe, which is always shorter than 0xffffff bytes. */
  ghost predicate Terminator(p: Bytes, status: nat, caps: Flags)
  {
    if CLIENT_DEPRECATE_EOF in caps
    then OkPacketOf(p, 0xfe, status, caps) && |p| < 0xffffff
    else EofPacket(p, status)
  }

  /** ERR_Packet: its header. */
  predicate ErrPacket(p: Bytes)
  {
    p != [] && p[0] == 0xff
  }

  /** The header that an OK_Packet begins with, unless it is a terminator. */
  predicate OkHeaded(p: Bytes)
  {
    p != [] && p[0] == 0x00
  }

  /** What each of the proxy's tests accepts: a header, and for the terminators a length. */
  lemma TestsExactly(header: Byte, tail: Bytes)
    ensures var p := [header] + tail;
            && (IsOk(p) <==> header == 0x00) && (IsErr(p) <==> header == 0xff) && (IsLocalInFile(p) <==> header == 0xfb)
            && (IsEof(p) <==> header == 0xfe && |tail| <= 4)
            && (IsResultSetEof(p) <==> header == 0xfe && 6 <= |tail| < 0xfffffe)
    ensures !IsOk([]) && !IsErr([]) && !IsLocalInFile([]) && !IsEof([]) && !IsResultSetEof([])
  {
  }

  // ---------- no data packet is taken for a terminator ----------

  /** A text row never passes for an ERR packet or for either kind of terminator, not even when its
      first value has 2^24 bytes or more and the row therefore starts with 0xfe. */
  lemma TextRowIsData(p: Bytes)
    requires TextRow(p)
    ensures !IsErr(p) && !IsEof(p) && !IsResultSetEof(p)
  {
    var cells: seq<Cell> :|
      cells != [] && (forall c :: c in cells && c.Value? ==> |c.bytes| < U64) && p == RowBytes(cells);
    var c := cells[0];
    assert p[0] == CellBytes(c)[0] && |p| >= |CellBytes(c)|;
    if c.Value? {
      assert CellBytes(c)[0] == Number(|c.bytes|)[0];
    }
  }

  lemma RowIsData(p: Bytes)
    requires Row(p) || ColumnDef(p)
    ensures !IsErr(p) && !IsEof(p) && !IsResultSetEof(p)
  {
    if TextRow(p) {
      TextRowIsData(p);
    } else if ColumnDef(p) {
      assert p[0] == p[..4][0];
    }
  }

  /** A column count is none of the packets a response may begin with instead. */
  lemma ColumnCountIsData(n: nat)
    requires 0 < n < U16
    ensures var p := Number(n); !IsOk(p) && !IsErr(p) && !IsLocalInFile(p)
  {
  }

  // ---------- what the proxy reads off the packets that matter ----------

  lemma EofStatus(p: Bytes, status: nat)
    requires EofPacket(p, status)
    ensures IsEof(p) && !IsErr(p) && FromLe(p[3..5]) == status
  {
    Pow256Values();
    LeRoundTrip(status, 2);
  }

  lemma OkTailReads(t: Bytes, status: nat, caps: Flags)
    requires OkTail(t, status, caps)
    ensures ReadOkText(t, status, caps).Ok?
  {
    if CLIENT_SESSION_TRACK in caps && t != [] {
      var info: Bytes, state: Bytes :| |info| < U64 && |state| < U64 && t == OkText(caps, status, info, state);
      OkTextReadBack(caps, status, info, state);
    }
  }

  lemma OkStatus(p: Bytes, header: Byte, status: nat, caps: Flags)
    requires OkPacketOf(p, header, status, caps)
    ensures |p| >= 7 && p[0] == header
    ensures ReadOk(p, caps).Ok? && ReadOk(p, caps).value.status == status
  {
    var rows: nat, id: nat, warnings: nat, t: Bytes :|
      && rows < U64 && id < U64 && warnings < U16 && status < U16
      && p == OkWith(header, rows, id, status, warnings, t) && OkTail(t, status, caps);
    OkTailReads(t, status, caps);
    OkFixedReadBack(header, rows, id, status, warnings, t, caps);
  }
}
