/** Length-encoded numbers and strings, and the OK packet, as the protocol writes them and as
    the proxy reads them. */
module Codecs {
  import opened ByteStrings

  /** The result of a reader: a value and the unread rest, or not enough bytes. */
  datatype Read<+T> = Ok(rest: Bytes, value: T) | Fail

  function Take(i: Bytes, n: nat): (r: Read<Bytes>)
    ensures r.Ok? ==> i == r.value + r.rest
  {
    if |i| < n then Fail else Ok(i[n..], i[..n])
  }

  function ReadLe(i: Bytes, n: nat): Read<nat>
  {
    match Take(i, n) case Ok(rest, b) => Ok(rest, FromLe(b)) case Fail => Fail
  }

  function ReadNumber(i: Bytes): (r: Read<nat>)
    ensures r.Ok? ==> |r.rest| < |i|
  {
    if i == [] then Fail
    else if i[0] == 0xfb then Ok(i[1..], 0)
    else if i[0] == 0xfc then ReadLe(i[1..], 2)
    else if i[0] == 0xfd then ReadLe(i[1..], 3)
    else if i[0] == 0xfe then ReadLe(i[1..], 8)
    else Ok(i[1..], i[0])
  }

  function ReadString(i: Bytes): (r: Read<Bytes>)
    ensures r.Ok? ==> |r.rest| < |i|
  {
    match ReadNumber(i) case Ok(rest, n) => Take(rest, n) case Fail => Fail
  }

  const U16 := 0x1_0000
  const U64 := 0x1_0000_0000_0000_0000

  /** Protocol::LengthEncodedInteger. */
  function Number(n: nat): (r: Bytes)
    requires n < U64
    ensures r != [] && r[0] != 0xfb && r[0] != 0xff
    ensures r[0] == 0 ==> n == 0
    ensures r[0] == 0xfe <==> n >= 0x100_0000
  {
    if n < 251 then [n]
    else if n < U16 then [0xfc] + ToLe(n, 2)
    else if n < 0x100_0000 then [0xfd] + ToLe(n, 3)
    else [0xfe] + ToLe(n, 8)
  }

  /** Protocol::LengthEncodedString. */
  function Text(s: Bytes): (r: Bytes)
    requires |s| < U64
    ensures |r| > |s|
  {
    Number(|s|) + s
  }

  lemma LeReadBack(n: nat, k: nat, t: Bytes)
    requires n < Pow256(k)
    ensures ReadLe(ToLe(n, k) + t, k) == Ok(t, n)
  {
    LeRoundTrip(n, k);
    assert (ToLe(n, k) + t)[..k] == ToLe(n, k);
    assert (ToLe(n, k) + t)[k..] == t;
  }

  /** Every u64 is read back from its length-encoded form, with whatever follows untouched. */
  lemma NumberReadBack(n: nat, t: Bytes)
    requires n < U64
    ensures ReadNumber(Number(n) + t) == Ok(t, n)
  {
    Pow256Values();
    var s := Number(n) + t;
    var k := if n < 251 then 0 else if n < U16 then 2 else if n < 0x100_0000 then 3 else 8;
    if k == 0 {
      assert s[1..] == t;
    } else {
      assert s[1..] == ToLe(n, k) + t;
      LeReadBack(n, k, t);
    }
  }

  lemma TextReadBack(x: Bytes, t: Bytes)
    requires |x| < U64
    ensures ReadString(Text(x) + t) == Ok(t, x)
  {
    NumberReadBack(|x|, x + t);
    assert Text(x) + t == Number(|x|) + (x + t);
    assert (x + t)[..|x|] == x && (x + t)[|x|..] == t;
  }

  /** Protocol::LengthEncodedInteger: one byte below 251, else a byte that tells how many follow. */
  lemma NumberLayout(n: nat)
    requires n < U64
    ensures var r := Number(n);
            if n < 251 then r == [n]
            else if n < 0x1_0000 then |r| == 3 && r[0] == 0xfc && FromLe(r[1..]) == n
            else if n < 0x100_0000 then |r| == 4 && r[0] == 0xfd && FromLe(r[1..]) == n
            else |r| == 9 && r[0] == 0xfe && FromLe(r[1..]) == n
  {
    Pow256Values();
    if n >= 251 {
      LeRoundTrip(n, if n < 0x1_0000 then 2 else if n < 0x100_0000 then 3 else 8);
      assert n < 0x1_0000 ==> Number(n)[1..] == ToLe(n, 2);
      assert 0x1_0000 <= n < 0x100_0000 ==> Number(n)[1..] == ToLe(n, 3);
      assert n >= 0x100_0000 ==> Number(n)[1..] == ToLe(n, 8);
    }
  }

  /** What the reader makes of the two bytes that begin no length-encoded number: 0xfb is zero, 0xff is 255. A
      number that is cut off is not read. */
  lemma OddNumbers(t: Bytes)
    ensures ReadNumber([0xfb] + t) == Ok(t, 0) && ReadNumber([0xff] + t) == Ok(t, 255) && ReadNumber([]) == Fail
    ensures |t| < 2 ==> ReadNumber([0xfc] + t) == Fail
    ensures |t| < 3 ==> ReadNumber([0xfd] + t) == Fail
    ensures |t| < 8 ==> ReadNumber([0xfe] + t) == Fail
  {
    assert ([0xfb] + t)[1..] == t && ([0xff] + t)[1..] == t;
  }

  // ---------- UTF-8 ----------

  /** The length of the first well-formed UTF-8 sequence of a non-empty string, 0 if there is none
      (section 4 of RFC 3629). */
  function Utf8Head(s: Bytes): (n: nat)
    requires s != []
    ensures n <= |s|
  {
    var tail := (k: nat) => k < |s| && 0x80 <= s[k] <= 0xbf;
    if s[0] <= 0x7f then 1
    else if 0xc2 <= s[0] <= 0xdf && tail(1) then 2
    else if 0xe0 <= s[0] <= 0xef && tail(1) && tail(2)
         && (s[0] == 0xe0 ==> s[1] >= 0xa0) && (s[0] == 0xed ==> s[1] <= 0x9f) then 3
    else if 0xf0 <= s[0] <= 0xf4 && tail(1) && tail(2) && tail(3)
         && (s[0] == 0xf0 ==> s[1] >= 0x90) && (s[0] == 0xf4 ==> s[1] <= 0x8f) then 4
    else 0
  }

  predicate Utf8(s: Bytes)
    decreases |s|
  {
    s == [] || (Utf8Head(s) > 0 && Utf8(s[Utf8Head(s)..]))
  }

  /** A Unicode scalar value. */
  type Scalar = c: nat | c < 0xd800 || 0xe000 <= c <= 0x10_ffff

  /** The octets of a scalar value (section 3 of RFC 3629). */
  function ScalarBytes(c: Scalar): (r: Bytes)
    ensures 0 < |r| <= 4
  {
    if c < 0x80 then [c]
    else if c < 0x800 then [0xc0 + c / 64, 0x80 + c % 64]
    else if c < 0x1_0000 then [0xe0 + c / 4096, 0x80 + c / 64 % 64, 0x80 + c % 64]
    else [0xf0 + c / 262144, 0x80 + c / 4096 % 64, 0x80 + c / 64 % 64, 0x80 + c % 64]
  }

  function ScalarsBytes(cs: seq<Scalar>): Bytes
  {
    if cs == [] then [] else ScalarBytes(cs[0]) + ScalarsBytes(cs[1..])
  }

  lemma HeadOfScalar(c: Scalar, t: Bytes)
    ensures Utf8Head(ScalarBytes(c) + t) == |ScalarBytes(c)|
  {
    var s := ScalarBytes(c) + t;
    assert forall k :: 0 <= k < |ScalarBytes(c)| ==> s[k] == ScalarBytes(c)[k];
  }

  /** The base-64 digits of a number. */
  lemma Digits(w: nat, x: nat, y: nat, z: nat)
    requires x < 64 && y < 64 && z < 64
    ensures var c := w * 262144 + x * 4096 + y * 64 + z;
            c / 262144 == w && c / 4096 % 64 == x && c / 64 % 64 == y && c % 64 == z
  {
    var c := w * 262144 + x * 4096 + y * 64 + z;
    DivUnique(c, 262144, w, x * 4096 + y * 64 + z);
    DivUnique(c, 4096, w * 64 + x, y * 64 + z);
    DivUnique(w * 64 + x, 64, w, x);
    DivUnique(c, 64, w * 4096 + x * 64 + y, z);
    DivUnique(w * 4096 + x * 64 + y, 64, w * 64 + x, y);
  }

  lemma ScalarOfTwo(a: nat, b: nat) returns (c: Scalar)
    requires 0xc2 <= a <= 0xdf && 0x80 <= b <= 0xbf
    ensures ScalarBytes(c) == [a, b]
  {
    c := (a - 0xc0) * 64 + (b - 0x80);
    Digits(0, 0, a - 0xc0, b - 0x80);
  }

  lemma ScalarOfThree(a: nat, b: nat, d: nat) returns (c: Scalar)
    requires 0xe0 <= a <= 0xef && 0x80 <= b <= 0xbf && 0x80 <= d <= 0xbf
    requires (a == 0xe0 ==> b >= 0xa0) && (a == 0xed ==> b <= 0x9f)
    ensures ScalarBytes(c) == [a, b, d]
  {
    c := (a - 0xe0) * 4096 + (b - 0x80) * 64 + (d - 0x80);
    Digits(0, a - 0xe0, b - 0x80, d - 0x80);
    assert c / 4096 == a - 0xe0;
  }

  lemma ScalarOfFour(a: nat, b: nat, d: nat, e: nat) returns (c: Scalar)
    requires 0xf0 <= a <= 0xf4 && 0x80 <= b <= 0xbf && 0x80 <= d <= 0xbf && 0x80 <= e <= 0xbf
    requires (a == 0xf0 ==> b >= 0x90) && (a == 0xf4 ==> b <= 0x8f)
    ensures ScalarBytes(c) == [a, b, d, e]
  {
    c := (a - 0xf0) * 262144 + (b - 0x80) * 4096 + (d - 0x80) * 64 + (e - 0x80);
    Digits(a - 0xf0, b - 0x80, d - 0x80, e - 0x80);
  }

  lemma ScalarOfHead(s: Bytes) returns (c: Scalar)
    requires s != [] && Utf8Head(s) > 0
    ensures s[..Utf8Head(s)] == ScalarBytes(c)
  {
    var n := Utf8Head(s);
    if n == 1 {
      c := s[0];
    } else if n == 2 {
      c := ScalarOfTwo(s[0], s[1]);
      assert s[..2] == [s[0], s[1]];
    } else if n == 3 {
      c := ScalarOfThree(s[0], s[1], s[2]);
      assert s[..3] == [s[0], s[1], s[2]];
    } else {
      c := ScalarOfFour(s[0], s[1], s[2], s[3]);
      assert s[..4] == [s[0], s[1], s[2], s[3]];
    }
  }

  lemma {:induction false} ScalarsAreUtf8(cs: seq<Scalar>)
    ensures Utf8(ScalarsBytes(cs))
  {
    if cs != [] {
      ScalarsAreUtf8(cs[1..]);
      var (a, b) := (ScalarBytes(cs[0]), ScalarsBytes(cs[1..]));
      HeadOfScalar(cs[0], b);
      assert (a + b)[|a|..] == b;
    }
  }

  lemma {:induction false} ScalarsOf(s: Bytes) returns (cs: seq<Scalar>)
    requires Utf8(s)
    ensures s == ScalarsBytes(cs)
    decreases |s|
  {
    if s == [] {
      cs := [];
    } else {
      var n := Utf8Head(s);
      var c := ScalarOfHead(s);
      var rest := ScalarsOf(s[n..]);
      cs := [c] + rest;
      assert cs[1..] == rest && s == s[..n] + s[n..];
    }
  }

  /** A string passes as UTF-8 iff it is the encoding of some scalar values. */
  lemma Utf8Exactly(s: Bytes)
    ensures Utf8(s) <==> exists cs :: s == ScalarsBytes(cs)
  {
    if Utf8(s) {
      var cs := ScalarsOf(s);
    }
    forall cs | s == ScalarsBytes(cs)
      ensures Utf8(s)
    {
      ScalarsAreUtf8(cs);
    }
  }

  // ---------- the OK packet ----------

  const CLIENT_CONNECT_WITH_DB: nat := 3
  const CLIENT_PROTOCOL_41: nat := 9
  const CLIENT_SSL: nat := 11
  const CLIENT_TRANSACTIONS: nat := 13
  const CLIENT_SECURE_CONNECTION: nat := 15
  const CLIENT_PLUGIN_AUTH: nat := 19
  const CLIENT_CONNECT_ATTRS: nat := 20
  const CLIENT_PLUGIN_AUTH_LENENC_CLIENT_DATA: nat := 21
  const CLIENT_SESSION_TRACK: nat := 23
  const CLIENT_DEPRECATE_EOF: nat := 24

  const SERVER_MORE_RESULTS_EXISTS: nat := 3
  const SERVER_STATUS_CURSOR_EXISTS: nat := 6
  const SERVER_SESSION_STATE_CHANGED: nat := 14

  datatype OkPacket = OkPacket(
    header: Byte, affectedRows: nat, lastInsertId: nat, status: nat, warnings: nat,
    info: Bytes, sessionState: Bytes)

  /** `from_utf8(..).unwrap_or("")` */
  function Utf8Or(s: Bytes): Bytes
  {
    if Utf8(s) then s else []
  }

  /** The text part of an OK packet: info and, when the status says so, session state. */
  function ReadOkText(i: Bytes, status: nat, caps: Flags): Read<(Bytes, Bytes)>
  {
    if i == [] || CLIENT_SESSION_TRACK !in caps then Ok(i, ([], []))
    else
      match ReadString(i)
      case Fail => Fail
      case Ok(j, info) =>
        if SERVER_SESSION_STATE_CHANGED in Bits(status, 16) then
          match ReadString(j) case Ok(k, state) => Ok(k, (Utf8Or(info), Utf8Or(state))) case Fail => Fail
        else Ok(j, (Utf8Or(info), []))
  }

  /** `ok_packet`; the rest it returns begins after `warnings`, not after the text. */
  function ReadOk(i: Bytes, caps: Flags): Read<OkPacket>
  {
    if i == [] then Fail else
    match ReadNumber(i[1..]) case Fail => Fail case Ok(i1, rows) =>
    match ReadNumber(i1) case Fail => Fail case Ok(i2, id) =>
    match ReadLe(i2, 2) case Fail => Fail case Ok(i3, status) =>
    match ReadLe(i3, 2) case Fail => Fail case Ok(i4, warnings) =>
    match ReadOkText(i4, status, caps) case Fail => Fail case Ok(_, text) =>
    Ok(i4, OkPacket(i[0], rows, id, status, warnings, text.0, text.1))
  }

  /** An OK packet of the 4.1 protocol with text `t` behind its fixed part. */
  function OkWith(header: Byte, rows: nat, id: nat, status: nat, warnings: nat, t: Bytes): (r: Bytes)
    requires rows < U64 && id < U64
    ensures |r| >= 7 && r[0] == header
  {
    [header] + (Number(rows) + (Number(id) + (ToLe(status, 2) + (ToLe(warnings, 2) + t))))
  }

  lemma OkFixedReadBack(header: Byte, rows: nat, id: nat, status: nat, warnings: nat, t: Bytes, caps: Flags)
    requires rows < U64 && id < U64 && status < U16 && warnings < U16
    ensures ReadOk(OkWith(header, rows, id, status, warnings, t), caps) ==
            match ReadOkText(t, status, caps)
            case Fail => Fail
            case Ok(_, text) => Ok(t, OkPacket(header, rows, id, status, warnings, text.0, text.1))
  {
    Pow256Values();
    var t4 := ToLe(warnings, 2) + t;
    var t3 := ToLe(status, 2) + t4;
    var t2 := Number(id) + t3;
    NumberReadBack(rows, t2);
    NumberReadBack(id, t3);
    LeReadBack(status, 2, t4);
    LeReadBack(warnings, 2, t);
    assert OkWith(header, rows, id, status, warnings, t)[1..] == Number(rows) + t2;
  }

  /** The text a writer puts behind the fixed part. */
  function OkText(caps: Flags, status: nat, info: Bytes, sessionState: Bytes): Bytes
    requires |info| < U64 && |sessionState| < U64
  {
    if CLIENT_SESSION_TRACK in caps then
      Text(info) + if SERVER_SESSION_STATE_CHANGED in Bits(status, 16) then Text(sessionState) else []
    else info
  }

  lemma OkTextReadBack(caps: Flags, status: nat, info: Bytes, sessionState: Bytes)
    requires |info| < U64 && |sessionState| < U64
    ensures var r := ReadOkText(OkText(caps, status, info, sessionState), status, caps);
            && r.Ok?
            && r.value.0 == (if CLIENT_SESSION_TRACK in caps then Utf8Or(info) else [])
            && r.value.1 == (if CLIENT_SESSION_TRACK in caps && SERVER_SESSION_STATE_CHANGED in Bits(status, 16)
                             then Utf8Or(sessionState) else [])
  {
    var tail := if SERVER_SESSION_STATE_CHANGED in Bits(status, 16) then Text(sessionState) else [];
    TextReadBack(info, tail);
    TextReadBack(sessionState, []);
    assert Text(sessionState) + [] == Text(sessionState);
  }

  /** What `write_ok_packet_with_client_flags` puts into a packet. */
  function OkBytes(caps: Flags, ok: OkPacket): Bytes
    requires ok.affectedRows < U64 && ok.lastInsertId < U64 && |ok.info| < U64 && |ok.sessionState| < U64
  {
    var text := OkText(caps, ok.status, ok.info, ok.sessionState);
    if CLIENT_PROTOCOL_41 in caps then OkWith(ok.header, ok.affectedRows, ok.lastInsertId, ok.status, 0, text)
    else [ok.header] + (Number(ok.affectedRows) + (Number(ok.lastInsertId)
         + ((if CLIENT_TRANSACTIONS in caps then ToLe(ok.status, 2) else []) + text)))
  }

  /** The older layouts are not what the reader expects: without CLIENT_PROTOCOL_41 there are no warnings, and
      without CLIENT_TRANSACTIONS no status either, so the beginning of the text is read in their place. */
  function OldOkRead(caps: Flags, ok: OkPacket): Read<OkPacket>
    requires |ok.info| < U64 && |ok.sessionState| < U64
  {
    var text := OkText(caps, ok.status, ok.info, ok.sessionState);
    var s := (if CLIENT_TRANSACTIONS in caps then ToLe(ok.status, 2) else []) + text;
    if |s| < 4 then Fail else
    match ReadOkText(s[4..], FromLe(s[..2]), caps)
    case Fail => Fail
    case Ok(_, t) =>
      Ok(s[4..], ok.(status := FromLe(s[..2]), warnings := FromLe(s[2..4]), info := t.0, sessionState := t.1))
  }

  lemma OldOkMisread(caps: Flags, ok: OkPacket)
    requires CLIENT_PROTOCOL_41 !in caps
    requires ok.affectedRows < U64 && ok.lastInsertId < U64 && |ok.info| < U64 && |ok.sessionState| < U64
    ensures ReadOk(OkBytes(caps, ok), caps) == OldOkRead(caps, ok)
  {
    var text := OkText(caps, ok.status, ok.info, ok.sessionState);
    var s := (if CLIENT_TRANSACTIONS in caps then ToLe(ok.status, 2) else []) + text;
    if |s| >= 4 {
      OldOkLong(ok.header, ok.affectedRows, ok.lastInsertId, s, caps);
    } else {
      OldOkShort(ok.header, ok.affectedRows, ok.lastInsertId, s, caps);
    }
  }

  lemma OldOkLong(header: Byte, rows: nat, id: nat, s: Bytes, caps: Flags)
    requires rows < U64 && id < U64 && |s| >= 4
    ensures ReadOk([header] + (Number(rows) + (Number(id) + s)), caps) ==
            match ReadOkText(s[4..], FromLe(s[..2]), caps)
            case Fail => Fail
            case Ok(_, t) => Ok(s[4..], OkPacket(header, rows, id, FromLe(s[..2]), FromLe(s[2..4]), t.0, t.1))
  {
    TwoNumbers(s);
    OkFixedReadBack(header, rows, id, FromLe(s[..2]), FromLe(s[2..4]), s[4..], caps);
  }

  lemma TwoNumbers(s: Bytes)
    requires |s| >= 4
    ensures FromLe(s[..2]) < U16 && FromLe(s[2..4]) < U16
    ensures ToLe(FromLe(s[..2]), 2) + (ToLe(FromLe(s[2..4]), 2) + s[4..]) == s
  {
    LeInjective(s[..2]);
    LeInjective(s[2..4]);
    Pow256Values();
    assert s[..2] + (s[2..4] + s[4..]) == s;
  }

  lemma OldOkShort(header: Byte, rows: nat, id: nat, s: Bytes, caps: Flags)
    requires rows < U64 && id < U64 && |s| < 4
    ensures ReadOk([header] + (Number(rows) + (Number(id) + s)), caps) == Fail
  {
    NumberReadBack(rows, Number(id) + s);
    NumberReadBack(id, s);
    assert ([header] + (Number(rows) + (Number(id) + s)))[1..] == Number(rows) + (Number(id) + s);
  }

  /** OK-packet round trip, for every capability word. With CLIENT_PROTOCOL_41 the counters, status and header
      come back for all values; the warnings come back as zero; the info comes back iff session tracking is
      on, and the session state iff the status says it changed as well. Without it the packet is misread. */
  lemma OkRoundTrip(caps: Flags, ok: OkPacket)
    requires ok.affectedRows < U64 && ok.lastInsertId < U64 && ok.status < U16
    requires |ok.info| < U64 && |ok.sessionState| < U64 && Utf8(ok.info) && Utf8(ok.sessionState)
    ensures var tracked := CLIENT_SESSION_TRACK in caps;
            var changed := SERVER_SESSION_STATE_CHANGED in Bits(ok.status, 16);
            ReadOk(OkBytes(caps, ok), caps) ==
            if CLIENT_PROTOCOL_41 !in caps then OldOkRead(caps, ok)
            else Ok(OkText(caps, ok.status, ok.info, ok.sessionState),
                    ok.(warnings := 0,
                        info := if tracked then ok.info else [],
                        sessionState := if tracked && changed then ok.sessionState else []))
  {
    if CLIENT_PROTOCOL_41 in caps {
      var text := OkText(caps, ok.status, ok.info, ok.sessionState);
      OkFixedReadBack(ok.header, ok.affectedRows, ok.lastInsertId, ok.status, 0, text, caps);
      OkTextReadBack(caps, ok.status, ok.info, ok.sessionState);
    } else {
      OldOkMisread(caps, ok);
    }
  }

  /** The fields of an OK packet of the 4.1 protocol, in their places. */
  lemma OkLayout(caps: Flags, ok: OkPacket)
    requires CLIENT_PROTOCOL_41 in caps
    requires ok.affectedRows < U64 && ok.lastInsertId < U64 && |ok.info| < U64 && |ok.sessionState| < U64
    ensures var p := OkBytes(caps, ok);
            var (a, b) := (|Number(ok.affectedRows)|, |Number(ok.lastInsertId)|);
            && |p| >= 5 + a + b && p[0] == ok.header
            && p[1..1 + a] == Number(ok.affectedRows) && p[1 + a..1 + a + b] == Number(ok.lastInsertId)
            && p[1 + a + b..3 + a + b] == ToLe(ok.status, 2) && p[3 + a + b..5 + a + b] == [0x00, 0x00]
            && p[5 + a + b..] == if CLIENT_SESSION_TRACK !in caps then ok.info
                                 else Text(ok.info) + if 14 in Bits(ok.status, 16) then Text(ok.sessionState) else []
  {
    assert ToLe(0, 2) == [0x00, 0x00];
    InPlaces(ok.header, Number(ok.affectedRows), Number(ok.lastInsertId), ToLe(ok.status, 2), ToLe(0, 2),
             OkText(caps, ok.status, ok.info, ok.sessionState));
  }

  lemma {:induction false} InPlaces(h: Byte, x: Bytes, y: Bytes, s: Bytes, w: Bytes, t: Bytes)
    requires |s| == 2 && |w| == 2
    ensures var p := [h] + (x + (y + (s + (w + t))));
            var (a, b) := (|x|, |y|);
            && |p| >= 5 + a + b && p[0] == h && p[1..1 + a] == x && p[1 + a..1 + a + b] == y
            && p[1 + a + b..3 + a + b] == s && p[3 + a + b..5 + a + b] == w && p[5 + a + b..] == t
  {
  }

  /** The flags by their masks in the capability and status words of the protocol. */
  lemma FlagMasks()
    ensures Pow2(CLIENT_CONNECT_WITH_DB) == 0x8 && Pow2(CLIENT_PROTOCOL_41) == 0x200 && Pow2(CLIENT_SSL) == 0x800
    ensures Pow2(CLIENT_TRANSACTIONS) == 0x2000 && Pow2(CLIENT_SECURE_CONNECTION) == 0x8000
    ensures Pow2(CLIENT_PLUGIN_AUTH) == 0x8_0000 && Pow2(CLIENT_CONNECT_ATTRS) == 0x10_0000
    ensures Pow2(CLIENT_PLUGIN_AUTH_LENENC_CLIENT_DATA) == 0x20_0000 && Pow2(CLIENT_SESSION_TRACK) == 0x80_0000
    ensures Pow2(CLIENT_DEPRECATE_EOF) == 0x100_0000
    ensures Pow2(SERVER_MORE_RESULTS_EXISTS) == 0x8 && Pow2(SERVER_STATUS_CURSOR_EXISTS) == 0x40
    ensures Pow2(SERVER_SESSION_STATE_CHANGED) == 0x4000
  {
    assert Pow2(8) == 0x100 && Pow2(16) == 0x1_0000 && Pow2(20) == 0x10_0000;
  }
}
