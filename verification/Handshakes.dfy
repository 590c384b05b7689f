/** The client's HandshakeResponse41, as the protocol lays it out and as the proxy reads it. */
module Handshakes {
  import opened ByteStrings
  import opened Codecs

  /** What parsing yields: a value and the unread rest, an error, or a panic on text that is not UTF-8. */
  datatype Outcome<+T> = Got(rest: Bytes, value: T) | Bad | Panic

  datatype Handshake = Handshake(
    caps: Flags, maxPacketLen: nat, collation: nat, username: Option<Bytes>, authResponse: Bytes,
    authPlugin: Bytes, database: Option<Bytes>, attributes: Option<map<Bytes, Bytes>>)

  // ---------- names ----------

  /** The bytes before the first NUL, if there is one. */
  function BeforeNul(i: Bytes): Option<Bytes>
  {
    if i == [] then None
    else if i[0] == 0 then Some([])
    else match BeforeNul(i[1..]) case None => None case Some(s) => Some([i[0]] + s)
  }

  /** `take_until(1.., "\0")` and the NUL itself: an empty name is an error. */
  function ReadName(i: Bytes): Read<Bytes>
  {
    match BeforeNul(i)
    case Some(s) => if s == [] || |i| <= |s| then Fail else Ok(i[|s| + 1..], s)
    case None => Fail
  }

  function ReadOptionalName(i: Bytes, on: bool): Read<Option<Bytes>>
  {
    if !on || i == [] then Ok(i, None)
    else match ReadName(i) case Ok(rest, s) => Ok(rest, Some(s)) case Fail => Fail
  }

  function Name(s: Bytes): Bytes
  {
    s + [0]
  }

  lemma {:induction false} NulFound(s: Bytes, t: Bytes)
    requires 0 !in s
    ensures BeforeNul(s + ([0] + t)) == Some(s)
  {
    if s == [] {
      assert s + ([0] + t) == [0] + t;
    } else {
      assert (s + ([0] + t))[1..] == s[1..] + ([0] + t);
      NulFound(s[1..], t);
      assert [s[0]] + s[1..] == s;
    }
  }

  lemma NameReadBack(s: Bytes, t: Bytes)
    requires 0 !in s
    ensures ReadName(Name(s) + t) == if s == [] then Fail else Ok(t, s)
  {
    NulFound(s, t);
    Associative(s, [0], t);
    assert (s + [0] + t)[|s| + 1..] == t;
  }

  // ---------- authentication data ----------

  function ReadAuth(i: Bytes, caps: Flags): Read<Bytes>
  {
    if CLIENT_PLUGIN_AUTH_LENENC_CLIENT_DATA in caps then ReadString(i)
    else if CLIENT_SECURE_CONNECTION in caps then
      (if i == [] then Fail else Take(i[1..], i[0]))
    else
      match BeforeNul(i)
      case Some(s) => if s == [] || |i| < |s| then Fail else Ok(i[|s|..], s)
      case None => Fail
  }

  predicate AuthFits(auth: Bytes, caps: Flags)
  {
    if CLIENT_PLUGIN_AUTH_LENENC_CLIENT_DATA in caps then |auth| < U64
    else CLIENT_SECURE_CONNECTION in caps && |auth| < 256
  }

  function AuthBytes(auth: Bytes, caps: Flags): Bytes
    requires AuthFits(auth, caps)
  {
    if CLIENT_PLUGIN_AUTH_LENENC_CLIENT_DATA in caps then Text(auth) else [|auth|] + auth
  }

  lemma AuthReadBack(auth: Bytes, caps: Flags, t: Bytes)
    requires AuthFits(auth, caps)
    ensures ReadAuth(AuthBytes(auth, caps) + t, caps) == Ok(t, auth)
  {
    if CLIENT_PLUGIN_AUTH_LENENC_CLIENT_DATA in caps {
      TextReadBack(auth, t);
    } else {
      var i := [|auth|] + auth + t;
      assert i[1..] == auth + t && (auth + t)[..|auth|] == auth && (auth + t)[|auth|..] == t;
    }
  }

  // ---------- connection attributes ----------

  /** The loop over the attributes: every pair is put into the map, so a later one replaces an
      earlier one of the same key. */
  function Attributes(data: Bytes, acc: map<Bytes, Bytes>): Outcome<map<Bytes, Bytes>>
    decreases |data|
  {
    if data == [] then Got([], acc) else
    match ReadString(data) case Fail => Bad case Ok(d1, k) =>
    match ReadString(d1) case Fail => Bad case Ok(d2, v) =>
    if !Utf8(k) || !Utf8(v) then Panic else Attributes(d2, acc[k := v])
  }

  /** The loop as it runs; it ends because each turn shortens the input. */
  method ReadAttributes(data: Bytes) returns (r: Outcome<map<Bytes, Bytes>>)
    ensures r == Attributes(data, map[])
  {
    var input := data;
    var acc: map<Bytes, Bytes> := map[];
    while input != []
      invariant Attributes(data, map[]) == Attributes(input, acc)
      decreases |input|
    {
      var k := ReadString(input);
      if k.Fail? {
        return Bad;
      }
      var v := ReadString(k.rest);
      if v.Fail? {
        return Bad;
      }
      if !Utf8(k.value) || !Utf8(v.value) {
        return Panic;
      }
      acc := acc[k.value := v.value];
      input := v.rest;
    }
    return Got([], acc);
  }

  datatype Attribute = Attribute(key: Bytes, value: Bytes)

  ghost predicate Wellformed(attrs: seq<Attribute>)
  {
    forall k :: 0 <= k < |attrs| ==>
      |attrs[k].key| < U64 && |attrs[k].value| < U64 && Utf8(attrs[k].key) && Utf8(attrs[k].value)
  }

  function AttributeBytes(attrs: seq<Attribute>): Bytes
    requires Wellformed(attrs)
  {
    if attrs == [] then [] else Text(attrs[0].key) + (Text(attrs[0].value) + AttributeBytes(attrs[1..]))
  }

  /** The index of the last attribute of a key. */
  predicate LastOf(attrs: seq<Attribute>, k: Bytes, i: nat)
  {
    i < |attrs| && attrs[i].key == k && forall j :: i < j < |attrs| ==> attrs[j].key != k
  }

  /** The map that gives every key its last value, and earlier entries where the list has none. */
  ghost predicate LastWins(m: map<Bytes, Bytes>, acc: map<Bytes, Bytes>, attrs: seq<Attribute>)
  {
    && (forall k :: k in m <==> k in acc || exists i :: 0 <= i < |attrs| && attrs[i].key == k)
    && (forall k, i: nat :: LastOf(attrs, k, i) ==> k in m && m[k] == attrs[i].value)
    && (forall k :: k in acc && (forall i :: 0 <= i < |attrs| ==> attrs[i].key != k) ==> k in m && m[k] == acc[k])
  }

  /** Any list of attributes is read whole and yields its last-wins map. */
  lemma {:induction false} AttributesReadBack(attrs: seq<Attribute>, acc: map<Bytes, Bytes>)
    requires Wellformed(attrs)
    ensures var r := Attributes(AttributeBytes(attrs), acc); r.Got? && r.rest == [] && LastWins(r.value, acc, attrs)
    decreases |attrs|
  {
    if attrs != [] {
      var a, rest := attrs[0], attrs[1..];
      TextReadBack(a.key, Text(a.value) + AttributeBytes(rest));
      TextReadBack(a.value, AttributeBytes(rest));
      AttributesReadBack(rest, acc[a.key := a.value]);
      assert AttributeBytes(attrs) != [];
      LastWinsCons(Attributes(AttributeBytes(rest), acc[a.key := a.value]).value, acc, attrs);
    }
  }

  lemma LastWinsCons(m: map<Bytes, Bytes>, acc: map<Bytes, Bytes>, attrs: seq<Attribute>)
    requires attrs != [] && LastWins(m, acc[attrs[0].key := attrs[0].value], attrs[1..])
    ensures LastWins(m, acc, attrs)
  {
    var a, rest := attrs[0], attrs[1..];
    assert forall i :: 0 < i < |attrs| ==> attrs[i] == rest[i - 1];
    forall k, i: nat | LastOf(attrs, k, i)
      ensures k in m && m[k] == attrs[i].value
    {
      if i > 0 {
        assert LastOf(rest, k, i - 1);
      }
    }
  }

  // ---------- the response, field by field ----------

  const U32 := 0x1_0000_0000

  /** The capability bits that decide the layout. */
  const LAYOUT: Flags := {
    CLIENT_CONNECT_WITH_DB, CLIENT_PROTOCOL_41, CLIENT_SSL, CLIENT_SECURE_CONNECTION, CLIENT_PLUGIN_AUTH,
    CLIENT_CONNECT_ATTRS, CLIENT_PLUGIN_AUTH_LENENC_CLIENT_DATA}

  function WithAttributes(i: Bytes, h: Handshake): Outcome<Handshake>
  {
    if CLIENT_CONNECT_ATTRS !in h.caps || i == [] then Got(i, h) else
    match ReadString(i) case Fail => Bad case Ok(rest, data) =>
    match Attributes(data, map[])
    case Got(_, m) => Got(rest, h.(attributes := Some(m)))
    case Bad => Bad
    case Panic => Panic
  }

  function WithPlugin(i: Bytes, h: Handshake): Outcome<Handshake>
  {
    match ReadOptionalName(i, CLIENT_PLUGIN_AUTH in h.caps)
    case Fail => Bad
    case Ok(rest, p) => WithAttributes(rest, h.(authPlugin := if p.Some? then p.value else []))
  }

  function WithDatabase(i: Bytes, h: Handshake): Outcome<Handshake>
  {
    match ReadOptionalName(i, CLIENT_CONNECT_WITH_DB in h.caps)
    case Fail => Bad
    case Ok(rest, db) => WithPlugin(rest, h.(database := db))
  }

  function WithAuth(i: Bytes, h: Handshake): Outcome<Handshake>
  {
    match ReadAuth(i, h.caps) case Fail => Bad case Ok(rest, auth) => WithDatabase(rest, h.(authResponse := auth))
  }

  function WithUser(i: Bytes, h: Handshake): Outcome<Handshake>
  {
    match ReadName(i) case Fail => Bad case Ok(rest, user) => WithAuth(rest, h.(username := Some(user)))
  }

  /** `client_handshake_response`, for responses of the 4.1 protocol; `None` for older ones. The bits
      the library knows are a parameter: the others are dropped from the capabilities. */
  function ClientHandshakeResponse(i: Bytes, afterTls: bool, known: Flags): Option<Outcome<Handshake>>
    requires LAYOUT <= known
  {
    match ReadLe(i, 2) case Fail => Some(Bad) case Ok(i1, low) =>
    if CLIENT_PROTOCOL_41 !in Bits(low, 16) * known then None else
    match ReadLe(i1, 2) case Fail => Some(Bad) case Ok(i2, high) =>
    match ReadLe(i2, 4) case Fail => Some(Bad) case Ok(i3, maxLen) =>
    match Take(i3, 24) case Fail => Some(Bad) case Ok(i4, filler) =>
    var caps := Bits(high * U16 + low, 32) * known;
    var h := Handshake(caps, maxLen, filler[0], None, [], [], None, None);
    if !afterTls && CLIENT_SSL in caps then Some(Got(i4, h)) else Some(WithUser(i4, h))
  }

  // ---------- the response as the protocol lays it out ----------

  datatype Response41 = Response41(
    word: nat, maxPacketLen: nat, collation: Byte, user: Bytes, auth: Bytes, database: Bytes, plugin: Bytes,
    attributes: seq<Attribute>)

  ghost predicate Sendable(r: Response41, caps: Flags)
  {
    && r.word < U32 && r.maxPacketLen < U32
    && 0 !in r.user && 0 !in r.database && 0 !in r.plugin
    && AuthFits(r.auth, caps) && Wellformed(r.attributes) && |AttributeBytes(r.attributes)| < U64
  }

  function AttributesPart(r: Response41, caps: Flags): Bytes
    requires Wellformed(r.attributes) && |AttributeBytes(r.attributes)| < U64
  {
    if CLIENT_CONNECT_ATTRS in caps then Text(AttributeBytes(r.attributes)) else []
  }

  function PluginPart(r: Response41, caps: Flags): Bytes
    requires Wellformed(r.attributes) && |AttributeBytes(r.attributes)| < U64
  {
    (if CLIENT_PLUGIN_AUTH in caps then Name(r.plugin) else []) + AttributesPart(r, caps)
  }

  function DatabasePart(r: Response41, caps: Flags): Bytes
    requires Wellformed(r.attributes) && |AttributeBytes(r.attributes)| < U64
  {
    (if CLIENT_CONNECT_WITH_DB in caps then Name(r.database) else []) + PluginPart(r, caps)
  }

  function UserPart(r: Response41, caps: Flags): Bytes
    requires Sendable(r, caps)
  {
    Name(r.user) + (AuthBytes(r.auth, caps) + DatabasePart(r, caps))
  }

  function Fixed(r: Response41, t: Bytes): Bytes
  {
    ToLe(r.word % U16, 2) + (ToLe(r.word / U16, 2) + (ToLe(r.maxPacketLen, 4) + ([r.collation] + seq(23, _ => 0) + t)))
  }

  /** A name that is sent must not be empty, or the proxy refuses the response. */
  predicate Named(r: Response41, caps: Flags)
  {
    && r.user != []
    && (CLIENT_CONNECT_WITH_DB in caps ==> r.database != [])
    && (CLIENT_PLUGIN_AUTH in caps ==> r.plugin != [])
  }

  /** What the proxy should make of the response. */
  ghost predicate Understood(h: Handshake, r: Response41, caps: Flags)
  {
    && h.caps == caps && h.maxPacketLen == r.maxPacketLen && h.collation == r.collation
    && h.username == Some(r.user) && h.authResponse == r.auth
    && h.database == (if CLIENT_CONNECT_WITH_DB in caps then Some(r.database) else None)
    && h.authPlugin == (if CLIENT_PLUGIN_AUTH in caps then r.plugin else [])
    && (if CLIENT_CONNECT_ATTRS in caps then h.attributes.Some? && LastWins(h.attributes.value, map[], r.attributes)
        else h.attributes.None?)
  }

  // ---------- the round trip ----------

  lemma AttributesStage(r: Response41, h: Handshake)
    requires Wellformed(r.attributes) && |AttributeBytes(r.attributes)| < U64 && h.attributes == None
    ensures var o := WithAttributes(AttributesPart(r, h.caps), h);
            && o.Got? && o.rest == []
            && o.value.(attributes := None) == h
            && if CLIENT_CONNECT_ATTRS in h.caps
               then o.value.attributes.Some? && LastWins(o.value.attributes.value, map[], r.attributes)
               else o.value.attributes.None?
  {
    if CLIENT_CONNECT_ATTRS in h.caps {
      var data := AttributeBytes(r.attributes);
      TextReadBack(data, []);
      assert Text(data) + [] == Text(data);
      AttributesReadBack(r.attributes, map[]);
    }
  }

  lemma OptionalNameReadBack(s: Bytes, on: bool, t: Bytes)
    requires 0 !in s
    ensures ReadOptionalName((if on then Name(s) else []) + t, on) ==
            if !on then Ok(t, None) else if s == [] then Fail else Ok(t, Some(s))
  {
    if on {
      NameReadBack(s, t);
    } else {
      assert [] + t == t;
    }
  }

  lemma NamesStage(r: Response41, h: Handshake)
    requires Sendable(r, h.caps) && h.attributes == None
    ensures var o := WithDatabase(DatabasePart(r, h.caps), h);
            var db := CLIENT_CONNECT_WITH_DB in h.caps;
            var plugin := CLIENT_PLUGIN_AUTH in h.caps;
            if (db && r.database == []) || (plugin && r.plugin == []) then o == Bad
            else o == WithAttributes(
                        AttributesPart(r, h.caps),
                        h.(database := if db then Some(r.database) else None,
                           authPlugin := if plugin then r.plugin else []))
  {
    OptionalNameReadBack(r.database, CLIENT_CONNECT_WITH_DB in h.caps, PluginPart(r, h.caps));
    OptionalNameReadBack(r.plugin, CLIENT_PLUGIN_AUTH in h.caps, AttributesPart(r, h.caps));
  }

  lemma UserStage(r: Response41, h: Handshake)
    requires Sendable(r, h.caps) && h.attributes == None && h.maxPacketLen == r.maxPacketLen && h.collation == r.collation
    ensures var o := WithUser(UserPart(r, h.caps), h);
            if Named(r, h.caps) then o.Got? && o.rest == [] && Understood(o.value, r, h.caps) else o == Bad
  {
    NameReadBack(r.user, AuthBytes(r.auth, h.caps) + DatabasePart(r, h.caps));
    AuthReadBack(r.auth, h.caps, DatabasePart(r, h.caps));
    var h1 := h.(username := Some(r.user), authResponse := r.auth);
    NamesStage(r, h1);
    var h2 := h1.(database := if CLIENT_CONNECT_WITH_DB in h.caps then Some(r.database) else None,
                  authPlugin := if CLIENT_PLUGIN_AUTH in h.caps then r.plugin else []);
    AttributesStage(r, h2);
  }

  lemma Div512(y: nat, r: nat)
    requires r < 512
    ensures (512 * y + r) / 512 == y
  {
  }

  lemma Mod2(x: nat, q: nat)
    ensures (2 * x + q) % 2 == q % 2
  {
  }

  lemma BitOfLowHalf(high: nat, low: nat)
    requires low < U16
    ensures (U16 * high + low) / 512 % 2 == low / 512 % 2
  {
    var q, r := low / 512, low % 512;
    assert U16 * high + low == 512 * (128 * high + q) + r;
    Div512(128 * high + q, r);
    Mod2(64 * high, q);
  }

  lemma LowBits(word: nat)
    requires word < U32
    ensures CLIENT_PROTOCOL_41 in Bits(word % U16, 16) <==> CLIENT_PROTOCOL_41 in Bits(word, 32)
  {
    BitOfLowHalf(word / U16, word % U16);
    assert U16 * (word / U16) + word % U16 == word;
    assert Pow2(9) == 512;
  }

  lemma FixedStage(r: Response41, t: Bytes, afterTls: bool, known: Flags)
    requires LAYOUT <= known && r.word < U32 && r.maxPacketLen < U32
    requires CLIENT_PROTOCOL_41 in Bits(r.word, 32)
    ensures var h := Handshake(Bits(r.word, 32) * known, r.maxPacketLen, r.collation, None, [], [], None, None);
            ClientHandshakeResponse(Fixed(r, t), afterTls, known) ==
            Some(if !afterTls && CLIENT_SSL in h.caps then Got(t, h) else WithUser(t, h))
  {
    Pow256Values();
    LowBits(r.word);
    var filler := [r.collation] + seq(23, _ => 0);
    var i3 := filler + t;
    var i2 := ToLe(r.maxPacketLen, 4) + i3;
    var i1 := ToLe(r.word / U16, 2) + i2;
    LeReadBack(r.word % U16, 2, i1);
    LeReadBack(r.word / U16, 2, i2);
    LeReadBack(r.maxPacketLen, 4, i3);
    assert i3[..24] == filler && i3[24..] == t;
  }

  /** Parsing inverts the layout of HandshakeResponse41 for every combination of capabilities with
      length-prefixed authentication data: every field comes back, the attributes as their last-wins
      map, exactly when no name that is sent is empty; otherwise the response is refused. */
  lemma HandshakeRoundTrip(r: Response41, afterTls: bool, known: Flags)
    requires LAYOUT <= known && CLIENT_PROTOCOL_41 in Bits(r.word, 32)
    requires Sendable(r, Bits(r.word, 32) * known)
    requires afterTls || CLIENT_SSL !in Bits(r.word, 32)
    ensures var caps := Bits(r.word, 32) * known;
            var o := ClientHandshakeResponse(Fixed(r, UserPart(r, caps)), afterTls, known);
            && o.Some?
            && if Named(r, caps) then o.value.Got? && o.value.rest == [] && Understood(o.value.value, r, caps)
               else o.value == Bad
  {
    var caps := Bits(r.word, 32) * known;
    FixedStage(r, UserPart(r, caps), afterTls, known);
    UserStage(r, Handshake(caps, r.maxPacketLen, r.collation, None, [], [], None, None));
  }

  /** Authentication data that ends in a NUL instead of having a length is where the reader gets stuck: the
      NUL is left in place. The response is refused exactly if the data is empty or a database or plugin name
      is read at the NUL; otherwise what is left begins with the NUL or, if attributes are read there, the
      NUL is taken for an empty list of them and the real ones are left unread. */
  lemma NulAuthExactly(auth: Bytes, t: Bytes, h: Handshake)
    requires CLIENT_PLUGIN_AUTH_LENENC_CLIENT_DATA !in h.caps && CLIENT_SECURE_CONNECTION !in h.caps
    requires 0 !in auth
    ensures var o := WithAuth(Name(auth) + t, h);
            && (o == Bad <==> auth == [] || CLIENT_CONNECT_WITH_DB in h.caps || CLIENT_PLUGIN_AUTH in h.caps)
            && (o != Bad ==>
                  var h1 := h.(authResponse := auth, database := None, authPlugin := []);
                  o == if CLIENT_CONNECT_ATTRS in h.caps then Got(t, h1.(attributes := Some(map[]))) else Got([0] + t, h1))
  {
    NulFound(auth, t);
    Associative(auth, [0], t);
    var i := Name(auth) + t;
    assert i[|auth|..] == [0] + t;
    assert BeforeNul([0] + t) == Some([]);
    assert ([0] + t)[1..] == t && t[0..] == t;
  }

  /** The part behind the fixed one, for clients whose authentication data ends in a NUL. */
  function NulUserPart(r: Response41, caps: Flags): Bytes
    requires Wellformed(r.attributes) && |AttributeBytes(r.attributes)| < U64
  {
    Name(r.user) + (Name(r.auth) + DatabasePart(r, caps))
  }

  /** The response of a client without length-prefixed authentication data, whatever its other capabilities: it
      is refused exactly if the user or the data is empty or a database or plugin is named; otherwise user
      and data come back, and the attributes, if it sends any, are lost. */
  lemma HandshakeNulExactly(r: Response41, afterTls: bool, known: Flags)
    requires LAYOUT <= known && CLIENT_PROTOCOL_41 in Bits(r.word, 32) && r.word < U32 && r.maxPacketLen < U32
    requires Bits(r.word, 32) !! {CLIENT_PLUGIN_AUTH_LENENC_CLIENT_DATA, CLIENT_SECURE_CONNECTION}
    requires 0 !in r.user && 0 !in r.auth && Wellformed(r.attributes) && |AttributeBytes(r.attributes)| < U64
    requires afterTls || CLIENT_SSL !in Bits(r.word, 32)
    ensures var caps := Bits(r.word, 32) * known;
            var o := ClientHandshakeResponse(Fixed(r, NulUserPart(r, caps)), afterTls, known);
            && (o == Some(Bad) <==>
                r.user == [] || r.auth == [] || CLIENT_CONNECT_WITH_DB in caps || CLIENT_PLUGIN_AUTH in caps)
            && (o != Some(Bad) ==>
                  o == Some(Got(
                    if CLIENT_CONNECT_ATTRS in caps then AttributesPart(r, caps) else [0],
                    Handshake(caps, r.maxPacketLen, r.collation, Some(r.user), r.auth, [], None,
                              if CLIENT_CONNECT_ATTRS in caps then Some(map[]) else None))))
  {
    var caps := Bits(r.word, 32) * known;
    var h := Handshake(caps, r.maxPacketLen, r.collation, None, [], [], None, None);
    FixedStage(r, NulUserPart(r, caps), afterTls, known);
    NameReadBack(r.user, Name(r.auth) + DatabasePart(r, caps));
    NulAuthExactly(r.auth, DatabasePart(r, caps), h.(username := Some(r.user)));
    if CLIENT_CONNECT_WITH_DB !in caps && CLIENT_PLUGIN_AUTH !in caps {
      assert DatabasePart(r, caps) == AttributesPart(r, caps);
      assert CLIENT_CONNECT_ATTRS !in caps ==> [0] + DatabasePart(r, caps) == [0];
    }
  }

  /** An attribute that is not UTF-8 is a panic; one that is cut off is an error. */
  lemma BadAttributes(k: Bytes, v: Bytes, t: Bytes, acc: map<Bytes, Bytes>)
    requires |k| < U64 && |v| < U64
    ensures !Utf8(k) || !Utf8(v) ==> Attributes(Text(k) + (Text(v) + t), acc) == Panic
    ensures Attributes(Text(k), acc) == Bad
  {
    TextReadBack(k, Text(v) + t);
    TextReadBack(v, t);
    TextReadBack(k, []);
    assert Text(k) + [] == Text(k);
  }

  /** A response is not of the 4.1 protocol exactly if its first word says so; one that is cut off in the word, or in
      the fixed part of one that is, is an error. */
  lemma FixedExactly(i: Bytes, afterTls: bool, known: Flags)
    requires LAYOUT <= known
    ensures var old41 := |i| >= 2 && 9 !in Bits(FromLe(i[..2]), 16);
            && (ClientHandshakeResponse(i, afterTls, known) == None <==> old41)
            && (|i| < 32 && !old41 ==> ClientHandshakeResponse(i, afterTls, known) == Some(Bad))
  {
  }

  const SAMPLE_HEAD: Bytes := [0x85, 0xae, 0x3f, 0x20, 0x00, 0x00, 0x00, 0x01, 0x21]

  /** A response of a client with capabilities 0x203fae85 that names the user "jon" and sends no authentication data,
      octet by octet. */
  lemma SampleResponse(known: Flags)
    requires LAYOUT <= known
    ensures ClientHandshakeResponse(SAMPLE_HEAD + seq(23, _ => 0) + [0x6a, 0x6f, 0x6e, 0x00, 0x00], true, known) ==
            Some(Got([], Handshake(Bits(0x203f_ae85, 32) * known, 0x100_0000, 0x21, Some([0x6a, 0x6f, 0x6e]), [], [], None, None)))
  {
    var r := Response41(0x203f_ae85, 0x100_0000, 0x21, [], [], [], [], []);
    var t: Bytes := [0x6a, 0x6f, 0x6e, 0x00, 0x00];
    SampleFlags();
    SampleFixed(t);
    FixedStage(r, t, true, known);
    SampleUser(Handshake(Bits(0x203f_ae85, 32) * known, 0x100_0000, 0x21, None, [], [], None, None));
  }

  lemma SampleUser(h: Handshake)
    requires {19, 20, 21} <= h.caps && 3 !in h.caps && h.database == None && h.authPlugin == []
    ensures WithUser([0x6a, 0x6f, 0x6e, 0x00, 0x00], h) == Got([], h.(username := Some([0x6a, 0x6f, 0x6e]), authResponse := []))
  {
    NameReadBack([0x6a, 0x6f, 0x6e], [0x00]);
    assert Name([0x6a, 0x6f, 0x6e]) + [0x00] == [0x6a, 0x6f, 0x6e, 0x00, 0x00];
    TextReadBack([], []);
    assert Text([]) + [] == [0x00];
  }

  lemma SampleFlags()
    ensures {9, 11, 19, 20, 21} <= Bits(0x203f_ae85, 32) && Bits(0x203f_ae85, 32) !! {3, 24}
  {
    FlagMasks();
    assert Bit(0x203f_ae85, 9) && Bit(0x203f_ae85, 11) && !Bit(0x203f_ae85, 3);
    assert Bit(0x203f_ae85, 19) && Bit(0x203f_ae85, 20) && Bit(0x203f_ae85, 21) && !Bit(0x203f_ae85, 24);
  }

  lemma SampleFixed(t: Bytes)
    ensures Fixed(Response41(0x203f_ae85, 0x100_0000, 0x21, [], [], [], [], []), t) == SAMPLE_HEAD + seq(23, _ => 0) + t
  {
    SampleWords();
    SampleLength();
    var filler: Bytes := seq(23, _ => 0);
    assert [0x85, 0xae] + ([0x3f, 0x20] + ([0x00, 0x00, 0x00, 0x01] + ([0x21] + filler + t))) == SAMPLE_HEAD + filler + t;
  }

  lemma SampleWords()
    ensures ToLe(0x203f_ae85 % U16, 2) == [0x85, 0xae] && ToLe(0x203f_ae85 / U16, 2) == [0x3f, 0x20]
  {
    assert 0x203f_ae85 % U16 == 0xae85 && 0x203f_ae85 / U16 == 0x203f;
    assert ToLe(0xae, 1) == [0xae] && ToLe(0x20, 1) == [0x20];
  }

  lemma SampleLength()
    ensures ToLe(0x100_0000, 4) == [0x00, 0x00, 0x00, 0x01]
  {
    assert ToLe(0x1, 1) == [0x01] && ToLe(0x100, 2) == [0x00, 0x01] && ToLe(0x1_0000, 3) == [0x00, 0x00, 0x01];
  }
}
