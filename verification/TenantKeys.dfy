/** The tenant key that a client carries in its login name: four obfuscated names behind a header of
    their lengths, and the user behind a dot. */
module TenantKeys {
  import opened ByteStrings

  datatype TenantKey = TenantKey(region: string, availableZone: string, namespace_: string, clusterName: string)

  // ---------- characters ----------

  predicate Lower(c: char)
  {
    'a' <= c <= 'z'
  }

  predicate Upper(c: char)
  {
    'A' <= c <= 'Z'
  }

  function Shift(index: nat): (r: nat)
    ensures r < 26
  {
    (index * 3 + 10) % 26
  }

  function Rotate(c: char, base: char, shift: nat): (r: char)
    requires base == 'a' || base == 'A'
    requires base as int <= c as int <= base as int + 25
    ensures base as int <= r as int <= base as int + 25
  {
    ((c as int - base as int + shift) % 26 + base as int) as char
  }

  function ObfuscateChar(c: char, index: nat): char
  {
    if Lower(c) then Rotate(c, 'a', 26 - Shift(index))
    else if Upper(c) then Rotate(c, 'A', 26 - Shift(index))
    else c
  }

  function RestoreChar(c: char, index: nat): char
  {
    if Lower(c) then Rotate(c, 'a', Shift(index))
    else if Upper(c) then Rotate(c, 'A', Shift(index))
    else c
  }

  lemma RotateBack(c: char, base: char, k: nat)
    requires (base == 'a' || base == 'A') && k < 26
    requires base as int <= c as int <= base as int + 25
    ensures Rotate(Rotate(c, base, 26 - k), base, k) == c
  {
    var x := c as int - base as int;
    assert ((x + (26 - k)) % 26 + k) % 26 == x;
  }

  lemma RestoreUndoesObfuscate(c: char, index: nat)
    ensures RestoreChar(ObfuscateChar(c, index), index) == c
    ensures Width(ObfuscateChar(c, index)) == Width(c)
  {
    if Lower(c) {
      RotateBack(c, 'a', Shift(index));
    } else if Upper(c) {
      RotateBack(c, 'A', Shift(index));
    }
  }

  function Obfuscate(s: string): (r: string)
    ensures |r| == |s|
  {
    seq(|s|, i requires 0 <= i < |s| => ObfuscateChar(s[i], i))
  }

  function Restore(s: string): (r: string)
    ensures |r| == |s|
  {
    seq(|s|, i requires 0 <= i < |s| => RestoreChar(s[i], i))
  }

  lemma RestoreKeepsLength(s: string)
    ensures ByteLen(Restore(s)) == ByteLen(s)
  {
    forall i | 0 <= i < |s|
      ensures Width(Restore(s)[i]) == Width(s[i])
    {
    }
    SameWidths(Restore(s), s);
  }

  lemma RestoreObfuscated(s: string)
    ensures Restore(Obfuscate(s)) == s
    ensures ByteLen(Obfuscate(s)) == ByteLen(s)
  {
    forall i | 0 <= i < |s|
      ensures RestoreChar(ObfuscateChar(s[i], i), i) == s[i] && Width(Obfuscate(s)[i]) == Width(s[i])
    {
      RestoreUndoesObfuscate(s[i], i);
    }
    SameWidths(Obfuscate(s), s);
  }

  // ---------- strings are UTF-8 ----------

  /** The number of bytes of a character. */
  function Width(c: char): (n: nat)
    ensures n > 0
  {
    if c as int < 0x80 then 1 else if c as int < 0x800 then 2 else if c as int < 0x1_0000 then 3 else 4
  }

  function ByteLen(s: string): nat
  {
    if s == "" then 0 else Width(s[0]) + ByteLen(s[1..])
  }

  lemma {:induction false} SameWidths(s: string, t: string)
    requires |s| == |t| && forall i :: 0 <= i < |s| ==> Width(s[i]) == Width(t[i])
    ensures ByteLen(s) == ByteLen(t)
  {
    if s != "" {
      SameWidths(s[1..], t[1..]);
    }
  }

  /** The characters from byte offset `n` on; `None` if that is out of range or inside a character. */
  function DropBytes(s: string, n: nat): Option<string>
  {
    if n == 0 then Some(s)
    else if s == "" || n < Width(s[0]) then None
    else DropBytes(s[1..], n - Width(s[0]))
  }

  function TakeBytes(s: string, n: nat): (r: Option<string>)
    ensures r.Some? ==> ByteLen(r.value) == n
  {
    if n == 0 then Some("")
    else if s == "" || n < Width(s[0]) then None
    else
      match TakeBytes(s[1..], n - Width(s[0]))
      case None => None
      case Some(t) => assert ([s[0]] + t)[1..] == t; Some([s[0]] + t)
  }

  /** `&s[start..start + len]` */
  function Slice(s: string, start: nat, len: nat): (r: Option<string>)
    ensures r.Some? ==> ByteLen(r.value) == len
  {
    match DropBytes(s, start) case None => None case Some(t) => TakeBytes(t, len)
  }

  lemma {:induction false} DropPrefix(s: string, t: string)
    ensures DropBytes(s + t, ByteLen(s)) == Some(t)
  {
    if s == "" {
      assert s + t == t;
    } else {
      assert (s + t)[1..] == s[1..] + t;
      DropPrefix(s[1..], t);
    }
  }

  lemma {:induction false} TakePrefix(s: string, t: string)
    ensures TakeBytes(s + t, ByteLen(s)) == Some(s)
  {
    if s != "" {
      assert (s + t)[1..] == s[1..] + t;
      TakePrefix(s[1..], t);
      assert [s[0]] + s[1..] == s;
    }
  }

  lemma {:induction false} ByteLenAppend(s: string, t: string)
    ensures ByteLen(s + t) == ByteLen(s) + ByteLen(t)
  {
    if s == "" {
      assert s + t == t;
    } else {
      assert (s + t)[1..] == s[1..] + t;
      ByteLenAppend(s[1..], t);
    }
  }

  lemma SliceMiddle(a: string, b: string, c: string)
    ensures Slice(a + (b + c), ByteLen(a), ByteLen(b)) == Some(b)
  {
    DropPrefix(a, b + c);
    TakePrefix(b, c);
  }

  lemma {:induction false} DroppedExactly(s: string, n: nat)
    requires DropBytes(s, n).Some?
    ensures exists a :: s == a + DropBytes(s, n).value && ByteLen(a) == n
  {
    if n == 0 {
      assert s == "" + s;
    } else {
      DroppedExactly(s[1..], n - Width(s[0]));
      var a :| s[1..] == a + DropBytes(s[1..], n - Width(s[0])).value && ByteLen(a) == n - Width(s[0]);
      var b := [s[0]] + a;
      assert b[1..] == a && s == [s[0]] + s[1..];
      assert s == b + DropBytes(s, n).value;
    }
  }

  lemma {:induction false} TakenIsFront(s: string, n: nat)
    requires TakeBytes(s, n).Some?
    ensures exists c :: s == TakeBytes(s, n).value + c
  {
    if n == 0 {
      assert s == "" + s;
    } else {
      TakenIsFront(s[1..], n - Width(s[0]));
      var t := TakeBytes(s[1..], n - Width(s[0])).value;
      var c :| s[1..] == t + c;
      assert s == [s[0]] + s[1..] == ([s[0]] + t) + c;
    }
  }

  /** A slice by bytes exists exactly if it begins and ends between characters, and is what stands there. */
  lemma SliceExactly(s: string, start: nat, len: nat, b: string)
    ensures Slice(s, start, len) == Some(b) <==>
            exists a: string, c: string :: s == a + (b + c) && ByteLen(a) == start && ByteLen(b) == len
  {
    if Slice(s, start, len) == Some(b) {
      DroppedExactly(s, start);
      var t := DropBytes(s, start).value;
      var a :| s == a + t && ByteLen(a) == start;
      TakenIsFront(t, len);
      var c :| t == b + c;
      assert s == a + (b + c);
    }
    forall a: string, c: string | s == a + (b + c) && ByteLen(a) == start && ByteLen(b) == len
      ensures Slice(s, start, len) == Some(b)
    {
      SliceMiddle(a, b, c);
    }
  }

  // ---------- the header ----------

  function HexDigit(n: nat): (c: char)
    requires n < 16
    ensures c as int < 0x80
  {
    if n < 10 then ('0' as int + n) as char else ('a' as int + n - 10) as char
  }

  function HexValue(c: char): (r: Option<nat>)
    ensures r.Some? ==> r.value < 16
  {
    if '0' <= c <= '9' then Some(c as int - '0' as int)
    else if 'a' <= c <= 'f' then Some(c as int - 'a' as int + 10)
    else if 'A' <= c <= 'F' then Some(c as int - 'A' as int + 10)
    else None
  }

  /** `hex::encode` */
  function Hex(bs: Bytes): (r: string)
    ensures |r| == 2 * |bs| && forall i :: 0 <= i < |r| ==> r[i] as int < 0x80
  {
    if bs == [] then "" else [HexDigit(bs[0] / 16), HexDigit(bs[0] % 16)] + Hex(bs[1..])
  }

  /** `hex::decode` */
  function UnHex(s: string): (r: Option<Bytes>)
    ensures r.Some? ==> 2 * |r.value| == |s|
  {
    if s == "" then Some([])
    else if |s| == 1 then None
    else
      match (HexValue(s[0]), HexValue(s[1]), UnHex(s[2..]))
      case (Some(h), Some(l), Some(bs)) => Some([16 * h + l] + bs)
      case _ => None
  }

  lemma HexDigitReadBack(n: nat)
    requires n < 16
    ensures HexValue(HexDigit(n)) == Some(n)
  {
  }

  lemma {:induction false} HexReadBack(bs: Bytes)
    ensures UnHex(Hex(bs)) == Some(bs)
  {
    if bs != [] {
      HexDigitReadBack(bs[0] / 16);
      HexDigitReadBack(bs[0] % 16);
      HexReadBack(bs[1..]);
      assert Hex(bs)[2..] == Hex(bs[1..]);
      assert [bs[0]] + bs[1..] == bs;
    }
  }

  lemma {:induction false} Ascii(s: string)
    requires forall i :: 0 <= i < |s| ==> s[i] as int < 0x80
    ensures ByteLen(s) == |s|
  {
    if s != "" {
      Ascii(s[1..]);
    }
  }

  // ---------- encode and decode ----------

  function FieldsOf(key: TenantKey): seq<string>
  {
    [key.region, key.availableZone, key.namespace_, key.clusterName]
  }

  function ObfuscateAll(fs: seq<string>): (r: seq<string>)
    ensures |r| == |fs|
  {
    seq(|fs|, i requires 0 <= i < |fs| => Obfuscate(fs[i]))
  }

  /** The lengths of the fields, each cut to a byte. */
  function Lengths(fs: seq<string>): (r: Bytes)
    ensures |r| == |fs|
  {
    if fs == [] then [] else [ByteLen(fs[0]) % 256] + Lengths(fs[1..])
  }

  function RestoreAll(fs: seq<string>): (r: seq<string>)
    ensures |r| == |fs| && forall i :: 0 <= i < |fs| ==> r[i] == Restore(fs[i])
  {
    if fs == [] then [] else [Restore(fs[0])] + RestoreAll(fs[1..])
  }

  function Concat(fs: seq<string>): string
  {
    if fs == [] then "" else fs[0] + Concat(fs[1..])
  }

  /** `encode_tenant_key` */
  function EncodeTenantKey(key: TenantKey): string
  {
    var fs := ObfuscateAll(FieldsOf(key));
    Hex(Lengths(fs)) + Concat(fs)
  }

  /** The loop of `decode_tenant_key` over the lengths: the offset of a field is the sum of the lengths
      before it, taken in a byte. `None` is a panic. */
  function Decoded(s: string, lens: Bytes, sum: Byte): (r: Option<seq<string>>)
    ensures r.Some? ==> |r.value| == |lens|
  {
    if lens == [] then Some([]) else
    match Slice(s, 8 + sum, lens[0])
    case None => None
    case Some(f) =>
      if |lens| == 1 then Some([Restore(f)]) else
      match CheckedAdd(sum, lens[0], 256)
      case None => None
      case Some(next) =>
        match Decoded(s, lens[1..], next) case None => None case Some(fs) => Some([Restore(f)] + fs)
  }

  /** `decode_tenant_key`; `None` is any of its panics. */
  function DecodeTenantKey(s: string): Option<TenantKey>
  {
    if |s| < 8 || ByteLen(s[..8]) != 8 then None else
    match UnHex(s[..8])
    case None => None
    case Some(lens) =>
      match Decoded(s, lens, 0)
      case None => None
      case Some(fs) => Some(TenantKey(fs[0], fs[1], fs[2], fs[3]))
  }

  // ---------- the round trip ----------

  /** The first three names have at most 255 bytes together, and so has the cluster name. */
  predicate Fits(key: TenantKey)
  {
    ByteLen(key.region) + ByteLen(key.availableZone) + ByteLen(key.namespace_) <= 255 && ByteLen(key.clusterName) <= 255
  }

  /** Every field is within a byte, and so is the offset of the last one. */
  predicate Addressable(fs: seq<string>, sum: nat)
  {
    sum < 256 && (fs == [] || (ByteLen(fs[0]) < 256 && (|fs| > 1 ==> Addressable(fs[1..], sum + ByteLen(fs[0])))))
  }

  lemma DecodedCons(s: string, fs: seq<string>, sum: Byte)
    requires fs != [] && ByteLen(fs[0]) < 256 && Slice(s, 8 + sum, ByteLen(fs[0])) == Some(fs[0])
    requires |fs| > 1 ==> sum + ByteLen(fs[0]) < 256
    requires |fs| > 1 ==> Decoded(s, Lengths(fs[1..]), sum + ByteLen(fs[0])) == Some(RestoreAll(fs[1..]))
    ensures Decoded(s, Lengths(fs), sum) == Some(RestoreAll(fs))
  {
    assert Lengths(fs)[0] == ByteLen(fs[0]) && Lengths(fs)[1..] == Lengths(fs[1..]);
    assert |fs| == 1 ==> RestoreAll(fs) == [Restore(fs[0])];
  }

  /** Whatever follows the fields is not looked at. */
  lemma {:induction false} DecodedExact(head: string, pre: string, fs: seq<string>, t: string)
    requires ByteLen(head) == 8 && Addressable(fs, ByteLen(pre))
    ensures Decoded(head + (pre + (Concat(fs) + t)), Lengths(fs), ByteLen(pre)) == Some(RestoreAll(fs))
    decreases |fs|
  {
    if fs != [] {
      var rest := Concat(fs[1..]) + t;
      ByteLenAppend(head, pre);
      Associative(fs[0], Concat(fs[1..]), t);
      Associative(head, pre, fs[0] + rest);
      SliceMiddle(head + pre, fs[0], rest);
      if |fs| > 1 {
        ByteLenAppend(pre, fs[0]);
        Associative(pre, fs[0], rest);
        DecodedExact(head, pre + fs[0], fs[1..], t);
      }
      DecodedCons(head + (pre + (Concat(fs) + t)), fs, ByteLen(pre));
    }
  }

  /** What is decoded at all has the lengths of the header. */
  lemma {:induction false} DecodedLengths(s: string, lens: Bytes, sum: Byte)
    requires Decoded(s, lens, sum).Some?
    ensures forall i :: 0 <= i < |lens| ==> ByteLen(Decoded(s, lens, sum).value[i]) == lens[i]
    decreases |lens|
  {
    if lens != [] {
      RestoreKeepsLength(Slice(s, 8 + sum, lens[0]).value);
      if |lens| > 1 {
        DecodedLengths(s, lens[1..], CheckedAdd(sum, lens[0], 256).value);
      }
    }
  }

  /** If overflow is checked, the lengths of a header that is decoded do not overflow. */
  lemma {:induction false} DecodedAddressable(s: string, lens: Bytes, sum: Byte, fs: seq<string>)
    requires OVERFLOW_CHECKS && Decoded(s, lens, sum).Some?
    requires |fs| == |lens| && forall i :: 0 <= i < |lens| ==> ByteLen(fs[i]) == lens[i]
    ensures Addressable(fs, sum)
    decreases |lens|
  {
    if |lens| > 1 {
      DecodedAddressable(s, lens[1..], CheckedAdd(sum, lens[0], 256).value, fs[1..]);
    }
  }

  lemma {:induction false} SameLengths(fs: seq<string>, gs: seq<string>)
    requires |fs| == |gs| && forall i :: 0 <= i < |fs| ==> ByteLen(fs[i]) == ByteLen(gs[i])
    ensures Lengths(fs) == Lengths(gs)
  {
    if fs != [] {
      SameLengths(fs[1..], gs[1..]);
    }
  }

  lemma FieldsDecode(key: TenantKey)
    ensures var fs := ObfuscateAll(FieldsOf(key));
            var s := EncodeTenantKey(key);
            && |s| >= 8 && ByteLen(s[..8]) == 8 && UnHex(s[..8]) == Some(Lengths(fs))
            && Lengths(fs) == Lengths(FieldsOf(key))
  {
    var fs := ObfuscateAll(FieldsOf(key));
    assert EncodeTenantKey(key)[..8] == Hex(Lengths(fs));
    HexReadBack(Lengths(fs));
    Ascii(Hex(Lengths(fs)));
    ObfuscatedFields(FieldsOf(key));
    SameLengths(fs, FieldsOf(key));
  }

  lemma FitsIsAddressable(key: TenantKey)
    ensures Fits(key) <==> Addressable(FieldsOf(key), 0)
  {
    var fs := FieldsOf(key);
    var (r, ra) := (ByteLen(fs[0]), ByteLen(fs[0]) + ByteLen(fs[1]));
    assert fs[1..][1..] == fs[2..] && fs[2..][1..] == fs[3..] && fs[3..] == [key.clusterName];
    assert Addressable(fs[3..], ra + ByteLen(fs[2])) <==> ra + ByteLen(fs[2]) < 256 && ByteLen(fs[3]) < 256;
    assert Addressable(fs[2..], ra) <==> ra < 256 && ByteLen(fs[2]) < 256 && Addressable(fs[3..], ra + ByteLen(fs[2]));
    assert Addressable(fs[1..], r) <==> r < 256 && ByteLen(fs[1]) < 256 && Addressable(fs[2..], ra);
  }

  lemma {:induction false} SameAddressable(fs: seq<string>, gs: seq<string>, sum: nat)
    requires |fs| == |gs| && forall i :: 0 <= i < |fs| ==> ByteLen(fs[i]) == ByteLen(gs[i])
    ensures Addressable(fs, sum) <==> Addressable(gs, sum)
    decreases |fs|
  {
    if |fs| > 1 {
      SameAddressable(fs[1..], gs[1..], sum + ByteLen(fs[0]));
    }
  }

  lemma ObfuscatedFields(gs: seq<string>)
    ensures RestoreAll(ObfuscateAll(gs)) == gs
    ensures forall i :: 0 <= i < |gs| ==> ByteLen(ObfuscateAll(gs)[i]) == ByteLen(gs[i])
  {
    forall i | 0 <= i < |gs|
      ensures Restore(ObfuscateAll(gs)[i]) == gs[i] && ByteLen(ObfuscateAll(gs)[i]) == ByteLen(gs[i])
    {
      RestoreObfuscated(gs[i]);
    }
  }

  lemma DecodedFits(fs: seq<string>, t: string)
    requires |fs| == 4 && Addressable(fs, 0)
    ensures Decoded(Hex(Lengths(fs)) + (Concat(fs) + t), Lengths(fs), 0) == Some(RestoreAll(fs))
  {
    Ascii(Hex(Lengths(fs)));
    assert "" + (Concat(fs) + t) == Concat(fs) + t;
    DecodedExact(Hex(Lengths(fs)), "", fs, t);
  }

  /** A key that fits is decoded from its encoding, whatever is written behind it. */
  lemma DecodeIgnoresRest(key: TenantKey, t: string)
    requires Fits(key)
    ensures DecodeTenantKey(EncodeTenantKey(key) + t) == Some(key)
  {
    var fs := ObfuscateAll(FieldsOf(key));
    ObfuscatedFields(FieldsOf(key));
    FitsIsAddressable(key);
    SameAddressable(fs, FieldsOf(key), 0);
    DecodedFits(fs, t);
    FieldsDecode(key);
    Associative(Hex(Lengths(fs)), Concat(fs), t);
    assert (EncodeTenantKey(key) + t)[..8] == EncodeTenantKey(key)[..8];
  }

  lemma DecodeFits(key: TenantKey)
    requires Fits(key)
    ensures DecodeTenantKey(EncodeTenantKey(key)) == Some(key)
  {
    DecodeIgnoresRest(key, "");
    assert EncodeTenantKey(key) + "" == EncodeTenantKey(key);
  }

  lemma DecodesToFields(key: TenantKey)
    requires DecodeTenantKey(EncodeTenantKey(key)) == Some(key)
    ensures Decoded(EncodeTenantKey(key), Lengths(FieldsOf(key)), 0) == Some(FieldsOf(key))
  {
    FieldsDecode(key);
    KeyOfFields(Decoded(EncodeTenantKey(key), Lengths(FieldsOf(key)), 0).value, key);
  }

  lemma OnlyFitsDecodes(key: TenantKey)
    requires DecodeTenantKey(EncodeTenantKey(key)) == Some(key)
    ensures forall i :: 0 <= i < 4 ==> ByteLen(FieldsOf(key)[i]) < 256
    ensures OVERFLOW_CHECKS ==> Fits(key)
  {
    DecodesToFields(key);
    var s, lens := EncodeTenantKey(key), Lengths(FieldsOf(key));
    DecodedLengths(s, lens, 0);
    if OVERFLOW_CHECKS {
      DecodedAddressable(s, lens, 0, FieldsOf(key));
    }
    FitsIsAddressable(key);
  }

  lemma ObfuscateUndoesRestore(c: char, index: nat)
    ensures ObfuscateChar(RestoreChar(c, index), index) == c
  {
    if Lower(c) {
      RotateForth(c, 'a', Shift(index));
    } else if Upper(c) {
      RotateForth(c, 'A', Shift(index));
    }
  }

  lemma RotateForth(c: char, base: char, k: nat)
    requires (base == 'a' || base == 'A') && k < 26
    requires base as int <= c as int <= base as int + 25
    ensures Rotate(Rotate(c, base, k), base, 26 - k) == c
  {
    var x := c as int - base as int;
    assert ((x + k) % 26 + (26 - k)) % 26 == x;
  }

  lemma RestoreExactly(f: string, g: string)
    ensures Restore(f) == g <==> f == Obfuscate(g)
  {
    RestoreObfuscated(g);
    if Restore(f) == g {
      forall i | 0 <= i < |f|
        ensures f[i] == Obfuscate(g)[i]
      {
        ObfuscateUndoesRestore(f[i], i);
      }
    }
  }

  /** The text of every field is found where its offset, which wraps at 256, says. */
  predicate Landing(s: string, gs: seq<string>, sum: Byte)
  {
    gs == [] || (
      && Slice(s, 8 + sum, ByteLen(gs[0])) == Some(Obfuscate(gs[0]))
      && Landing(s, gs[1..], (sum + ByteLen(gs[0])) % 256))
  }

  /** One turn of the loop, in a build where the sum wraps. */
  lemma {:induction false} DecodedTurn(s: string, gs: seq<string>, sum: Byte)
    requires !OVERFLOW_CHECKS && gs != [] && ByteLen(gs[0]) < 256
    ensures var f := Slice(s, 8 + sum, ByteLen(gs[0]));
            var rest := Decoded(s, Lengths(gs[1..]), (sum + ByteLen(gs[0])) % 256);
            Decoded(s, Lengths(gs), sum) ==
            if f.None? || rest.None? then None else Some([Restore(f.value)] + rest.value)
  {
    var n, f := ByteLen(gs[0]), Slice(s, 8 + sum, ByteLen(gs[0]));
    assert Lengths(gs)[0] == n && Lengths(gs)[1..] == Lengths(gs[1..]);
    assert CheckedAdd(sum, n, 256) == Some((sum + n) % 256);
    if |gs| == 1 {
      assert Decoded(s, Lengths(gs[1..]), (sum + n) % 256) == Some([]);
      assert f.Some? ==> [Restore(f.value)] + [] == [Restore(f.value)];
    }
  }

  lemma ConsExactly(x: string, rest: seq<string>, gs: seq<string>)
    requires gs != []
    ensures [x] + rest == gs <==> x == gs[0] && rest == gs[1..]
  {
    assert ([x] + rest)[1..] == rest;
    assert gs == [gs[0]] + gs[1..];
  }

  lemma {:induction false} DecodedExactly(s: string, gs: seq<string>, sum: Byte)
    requires !OVERFLOW_CHECKS && forall i :: 0 <= i < |gs| ==> ByteLen(gs[i]) < 256
    ensures Decoded(s, Lengths(gs), sum) == Some(gs) <==> Landing(s, gs, sum)
    decreases |gs|
  {
    if gs != [] {
      var n := ByteLen(gs[0]);
      var f, rest := Slice(s, 8 + sum, n), Decoded(s, Lengths(gs[1..]), (sum + n) % 256);
      DecodedTurn(s, gs, sum);
      DecodedExactly(s, gs[1..], (sum + n) % 256);
      if f.Some? && rest.Some? {
        RestoreExactly(f.value, gs[0]);
        ConsExactly(Restore(f.value), rest.value, gs);
      }
    }
  }

  lemma KeyOfFields(fs: seq<string>, key: TenantKey)
    requires |fs| == 4
    ensures TenantKey(fs[0], fs[1], fs[2], fs[3]) == key <==> fs == FieldsOf(key)
  {
  }

  /** Without overflow checks, the keys that survive the encoding are exactly those of whose names none has
      more than 255 bytes and whose text lands where the wrapped offsets point. */
  lemma WrappedExactly(key: TenantKey)
    requires !OVERFLOW_CHECKS
    ensures DecodeTenantKey(EncodeTenantKey(key)) == Some(key) <==>
            (forall i :: 0 <= i < 4 ==> ByteLen(FieldsOf(key)[i]) < 256) && Landing(EncodeTenantKey(key), FieldsOf(key), 0)
  {
    var gs := FieldsOf(key);
    if forall i :: 0 <= i < 4 ==> ByteLen(gs[i]) < 256 {
      FieldsDecode(key);
      DecodedExactly(EncodeTenantKey(key), gs, 0);
      var fs := Decoded(EncodeTenantKey(key), Lengths(gs), 0);
      if fs.Some? {
        KeyOfFields(fs.value, key);
      }
    } else if DecodeTenantKey(EncodeTenantKey(key)) == Some(key) {
      OnlyFitsDecodes(key);
    }
  }

  /** A key survives the encoding if its first three names have at most 255 bytes together and the
      cluster name at most 255; with overflow checks, only then. Without them the sum of the offsets
      wraps, so a longer key may still come back by accident, exactly if it lands on itself. */
  lemma TenantKeyRoundTrip(key: TenantKey)
    ensures Fits(key) ==> DecodeTenantKey(EncodeTenantKey(key)) == Some(key)
    ensures OVERFLOW_CHECKS ==> (DecodeTenantKey(EncodeTenantKey(key)) == Some(key) <==> Fits(key))
    ensures !OVERFLOW_CHECKS ==>
              (DecodeTenantKey(EncodeTenantKey(key)) == Some(key) <==>
               (forall i :: 0 <= i < 4 ==> ByteLen(FieldsOf(key)[i]) < 256)
               && Landing(EncodeTenantKey(key), FieldsOf(key), 0))
  {
    if !OVERFLOW_CHECKS {
      WrappedExactly(key);
    }
    if Fits(key) {
      DecodeFits(key);
    }
    if DecodeTenantKey(EncodeTenantKey(key)) == Some(key) {
      OnlyFitsDecodes(key);
    }
  }

  // ---------- the login name ----------

  /** The tenant key and user of a handshake. */
  datatype Login = Login(tenantKey: Option<string>, username: Option<string>)

  /** The position behind the last dot, 0 if there is none. */
  function AfterLastDot(s: string): (n: nat)
    ensures n <= |s| && (n > 0 ==> s[n - 1] == '.')
    ensures forall i :: n <= i < |s| ==> s[i] != '.'
  {
    if s == "" then 0
    else if s[|s| - 1] == '.' then |s|
    else AfterLastDot(s[..|s| - 1])
  }

  /** `change_tenant_if_need`, for either setting of the synchronising router. */
  function ChangeTenant(login: Login, syncRouter: bool): Login
  {
    if !syncRouter || login.username.None? then login else
    var s := login.username.value;
    var n := AfterLastDot(s);
    if n == 0 then login else Login(Some(s[..n - 1]), Some(s[n..]))
  }

  /** Login-name routing: splitting at the last dot gives back key and user, whatever the key contains,
      exactly when the user contains no dot. */
  lemma LoginSplit(encoded: string, user: string)
    ensures ChangeTenant(Login(None, Some(encoded + "." + user)), true) == Login(Some(encoded), Some(user))
            <==> '.' !in user
  {
    var s := encoded + "." + user;
    var n := AfterLastDot(s);
    assert s[|encoded|] == '.' && n > |encoded|;
    assert s[|encoded| + 1..] == user;
    assert s[..|encoded|] == encoded;
    assert forall i :: 0 <= i < |user| ==> s[|encoded| + 1 + i] == user[i];
    assert n > |encoded| + 1 ==> s[n - 1] == user[n - 2 - |encoded|];
  }

  /** The whole way from key and user to the login name and back. */
  lemma LoginRoundTrip(key: TenantKey, user: string)
    requires Fits(key) && '.' !in user
    ensures var login := ChangeTenant(Login(None, Some(EncodeTenantKey(key) + "." + user)), true);
            && login.username == Some(user)
            && login.tenantKey.Some? && DecodeTenantKey(login.tenantKey.value) == Some(key)
  {
    LoginSplit(EncodeTenantKey(key), user);
    DecodeFits(key);
  }

  // ---------- what it looks like ----------

  /** A letter goes back in the alphabet, of its own case, by ten places and three more for every character before
      it, round the end; every other character stays. */
  lemma ObfuscatedLetter(x: nat, index: nat, c: char)
    requires x < 26
    ensures ObfuscateChar(('a' as int + x) as char, index) == ('a' as int + (x - 3 * index - 10) % 26) as char
    ensures ObfuscateChar(('A' as int + x) as char, index) == ('A' as int + (x - 3 * index - 10) % 26) as char
    ensures !('a' <= c <= 'z') && !('A' <= c <= 'Z') ==> ObfuscateChar(c, index) == c
  {
    var y := 3 * index + 10;
    assert (x + (26 - y % 26)) % 26 == (x - y) % 26;
  }

  /** The digits are written in lower case and read in either. */
  lemma HexDigits(n: nat, c: char)
    requires n < 16
    ensures HexDigit(n) == "0123456789abcdef"[n] && HexValue("0123456789ABCDEF"[n]) == Some(n)
    ensures HexValue(c).None? <==> c !in "0123456789abcdefABCDEF"
  {
  }

  /** The encoded key: two hexadecimal digits for the length of each name, then the names, obfuscated one by one. */
  lemma EncodedLayout(key: TenantKey)
    ensures EncodeTenantKey(key) ==
            Hex([ByteLen(key.region) % 256, ByteLen(key.availableZone) % 256, ByteLen(key.namespace_) % 256,
                 ByteLen(key.clusterName) % 256])
            + (Obfuscate(key.region) + (Obfuscate(key.availableZone) + (Obfuscate(key.namespace_)
               + Obfuscate(key.clusterName))))
  {
    var fs, gs := FieldsOf(key), ObfuscateAll(FieldsOf(key));
    FieldsDecode(key);
    LengthsOfFour(fs);
    ConcatOfFour(gs);
  }

  lemma LengthsOfFour(fs: seq<string>)
    requires |fs| == 4
    ensures Lengths(fs) == [ByteLen(fs[0]) % 256, ByteLen(fs[1]) % 256, ByteLen(fs[2]) % 256, ByteLen(fs[3]) % 256]
  {
    assert fs[1..][1..] == fs[2..] && fs[2..][1..] == fs[3..] && fs[3..][1..] == [];
    assert Lengths(fs[3..]) == [ByteLen(fs[3]) % 256];
    assert Lengths(fs[2..]) == [ByteLen(fs[2]) % 256, ByteLen(fs[3]) % 256];
  }

  lemma ConcatOfFour(fs: seq<string>)
    requires |fs| == 4
    ensures Concat(fs) == fs[0] + (fs[1] + (fs[2] + fs[3]))
  {
    assert fs[1..][1..] == fs[2..] && fs[2..][1..] == fs[3..] && fs[3..][1..] == [];
    assert Concat(fs[3..]) == fs[3] + "" == fs[3];
    assert Concat(fs[2..]) == fs[2] + fs[3];
    assert Concat(fs[1..]) == fs[1] + (fs[2] + fs[3]);
  }

  /** A header that cannot be read, and a field that is not there, are panics. */
  lemma UndecodedPanics(s: string)
    ensures |s| < 8 ==> DecodeTenantKey(s).None?
    ensures |s| >= 8 && UnHex(s[..8]).None? ==> DecodeTenantKey(s).None?
  {
  }

  /** A login name without a dot, a client without a name, and a proxy whose router is not synchronised leave the
      login alone. */
  lemma LoginUnchanged(login: Login, syncRouter: bool)
    requires !syncRouter || login.username.None? || '.' !in login.username.value
    ensures ChangeTenant(login, syncRouter) == login
  {
  }
}
