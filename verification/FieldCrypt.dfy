/** NSCE2 deterministic field encryption: scalars, envelope, inspection, decryption. */
module FieldCrypt {
  import opened Bytes
  import opened Bits
  import opened Gf128
  import opened Siv
  import B64 = Base64url
  import D = Decimal
  import J = Json
  import Utf16
  import Utf8

  const MAX_PLAINTEXT := 0x10_0000
  const MAX_KEY_ID := 64
  const TAG_SIZE := 16
  const NONCE_SIZE := 12

  const UUID := 1
  const STRING := 2
  const TEXT := 3
  const DECIMAL := 4
  const TIMESTAMPTZ := 5
  const JSON := 6
  const BOOL := 8
  const BLOB := 14
  const INT8 := 15
  const INT64 := 18
  const UINT64 := 22

  datatype FieldType = FieldType(kind: nat, precision: nat, scale: nat, vecElem: nat)

  /** normalizeType: the scalar kinds carry no parameters, DECIMAL carries its precision and scale. */
  predicate Supported(t: FieldType)
  {
    && t.vecElem == 0
    && if t.kind == DECIMAL then D.ValidType(D.DecimalType(t.precision, t.scale))
       else (t.kind in {UUID, STRING, TEXT, BLOB, TIMESTAMPTZ, JSON, BOOL} || INT8 <= t.kind <= UINT64)
            && t.precision == 0 && t.scale == 0
  }

  /** A UUID by its sixteen bytes, a decimal by its text, an instant by its Unix nanoseconds. */
  datatype Value =
    | VUuid(raw: seq<byte>)
    | VText(s: Utf16.Text)
    | VBlob(bytes: seq<byte>)
    | VDecimal(d: string)
    | VInstant(ns: int)
    | VJson(j: J.Json)
    | VBool(b: bool)
    | VInt(n: int)

  // ---- scalars ----

  function LengthBytes(raw: seq<byte>): Option<seq<byte>>
  {
    if |raw| < 0x1_0000_0000 then Some(U32(|raw|) + raw) else None
  }

  function ReadLengthBytes(raw: seq<byte>): Option<seq<byte>>
  {
    if |raw| < 4 then None
    else
      var n := GetLE(raw[..4]);
      if n > MAX_PLAINTEXT || n + 4 != |raw| then None else Some(raw[4..])
  }

  lemma LengthRoundTrip(raw: seq<byte>)
    requires |raw| <= MAX_PLAINTEXT
    ensures LengthBytes(raw).Some? && ReadLengthBytes(LengthBytes(raw).value) == Some(raw)
  {
    Pow256Values();
    GetPut(|raw|, 4);
    var e := U32(|raw|) + raw;
    assert e[..4] == U32(|raw|) && e[4..] == raw;
  }

  function Width(kind: nat): (w: nat)
    requires INT8 <= kind <= UINT64
    ensures w in {1, 2, 4, 8}
  {
    [1, 2, 4, 8, 1, 2, 4, 8][kind - INT8]
  }

  predicate Signed(kind: nat) { kind <= INT64 }

  predicate InRange(kind: nat, n: int)
    requires INT8 <= kind <= UINT64
  {
    var p := Pow256(Width(kind));
    if Signed(kind) then 0 - p <= 2 * n < p else 0 <= n < p
  }

  /** Eight little-endian bytes of the 64-bit pattern, cut to the kind's width. */
  function PutInt(kind: nat, n: int): seq<byte>
    requires INT8 <= kind <= UINT64 && InRange(kind, n)
  {
    U64(if n < 0 then n + TWO64 else n)[..Width(kind)]
  }

  /** The cut bytes widened again: sign bits above a set top bit, zeros otherwise. */
  function GetInt(kind: nat, raw: seq<byte>): Option<int>
    requires INT8 <= kind <= UINT64
  {
    var w := Width(kind);
    if |raw| != w then None
    else
      var fill: byte := if Signed(kind) && raw[w - 1] >= 128 then 255 else 0;
      var full := raw + seq(8 - w, _ => fill);
      Some(if Signed(kind) then GetI64(full) else GetLE(full))
  }

  /** What lies above the low w bytes of n. */
  function High(n: nat, w: nat): nat
  {
    if w == 0 then n else High(n / 256, w - 1)
  }

  lemma {:induction false} PutSplit(n: nat, w: nat, k: nat)
    ensures PutLE(n, w + k) == PutLE(n, w) + PutLE(High(n, w), k)
  {
    if w > 0 {
      PutSplit(n / 256, w - 1, k);
    }
  }

  lemma {:induction false} PutConstant(k: nat, b: byte)
    requires b == 0 || b == 255
    ensures PutLE(if b == 0 then 0 else Pow256(k) - 1, k) == seq(k, _ => b)
  {
    if k > 0 {
      PutConstant(k - 1, b);
      var n := if b == 0 then 0 else Pow256(k) - 1;
      assert n % 256 == b as int && n / 256 == if b == 0 then 0 else Pow256(k - 1) - 1;
    }
  }

  lemma PutLast(n: nat, w: nat)
    requires w >= 1
    ensures PutLE(n, w)[w - 1] as int == High(n, w - 1) % 256
  {
    PutSplit(n, w - 1, 1);
    assert PutLE(High(n, w - 1), 1) == [(High(n, w - 1) % 256) as byte];
  }

  function Pattern(n: int): nat
    requires -TWO63 <= n < TWO64
  {
    if n < 0 then n + TWO64 else n
  }

  /** The 64-bit pattern of a w-byte integer: its top byte and what lies above it. */
  lemma PatternParts(n: int, w: nat)
    requires w in {1, 2, 4}
    requires 0 - Pow256(w) <= 2 * n && n < Pow256(w)
    ensures -TWO63 <= n < TWO64
    ensures High(Pattern(n), w) == if n < 0 then Pow256(8 - w) - 1 else 0
    ensures 2 * n < Pow256(w) ==> (High(Pattern(n), w - 1) % 256 >= 128 <==> n < 0)
  {
    Pow256Values();
    assert Pow256(6) == 0x1_0000_0000_0000 && Pow256(7) == 0x100_0000_0000_0000 by {
      assert Pow256(5) == 256 * Pow256(4);
    }
    var u := Pattern(n);
    HighOne(u);
    HighOne(u / 256);
    HighOne(u / 256 / 256);
    HighOne(u / 256 / 256 / 256);
    assert High(u, 2) == High(u / 256, 1);
    assert High(u, 3) == High(u / 256, 2) == High(u / 256 / 256, 1);
    assert High(u, 4) == High(u / 256, 3) == High(u / 256 / 256, 2) == High(u / 256 / 256 / 256, 1);
  }

  lemma HighOne(n: nat)
    ensures High(n, 1) == n / 256
  {
    assert High(n / 256, 0) == n / 256;
  }

  lemma IntRoundTrip(kind: nat, n: int)
    requires INT8 <= kind <= UINT64 && InRange(kind, n)
    ensures GetInt(kind, PutInt(kind, n)) == Some(n)
  {
    hide PutLE, GetLE, High;
    var w := Width(kind);
    Pow256Values();
    var u := Pattern(n);
    var raw := PutInt(kind, n);
    var fill: byte := if Signed(kind) && raw[w - 1] >= 128 then 255 else 0;
    PutSplit(u, w, 8 - w);
    assert raw == PutLE(u, w);
    var full := raw + seq(8 - w, _ => fill);
    if w < 8 {
      PutLast(u, w);
      PatternParts(n, w);
      PutConstant(8 - w, fill);
    }
    assert full == U64(u);
    GetPut(u, 8);
  }

  function EncodeScalar(h: J.Host, t: FieldType, v: Value): Option<seq<byte>>
    requires Supported(t)
  {
    if t.kind == UUID then
      if v.VUuid? && |v.raw| == 16 then Some(v.raw) else None
    else if t.kind == STRING || t.kind == TEXT then
      if v.VText? then LengthBytes(Utf8.Encode(Utf16.Scalars(v.s))) else None
    else if t.kind == BLOB then
      if v.VBlob? then LengthBytes(v.bytes) else None
    else if t.kind == DECIMAL then
      if !v.VDecimal? then None else
      var text := D.NormalizeDecimalValue(D.DecimalType(t.precision, t.scale), v.d);
      if text.None? then None else
      var raw := D.EncodeDecimalString(text.value);
      if raw.None? || |raw.value| < 8 || GetLE(raw.value[6..8]) != t.scale then None else raw
    else if t.kind == TIMESTAMPTZ then
      if v.VInstant? && FitsI64(v.ns) then Some(I64(v.ns)) else None
    else if t.kind == JSON then
      if !v.VJson? then None else
      var raw := J.EncodeNSJB(h, v.j);
      if raw.None? then None else LengthBytes(raw.value)
    else if t.kind == BOOL then
      if v.VBool? then Some([if v.b then 1 else 0]) else None
    else
      if v.VInt? && InRange(t.kind, v.n) then Some(PutInt(t.kind, v.n)) else None
  }

  function DecodeScalar(h: J.Host, t: FieldType, raw: seq<byte>): Option<Value>
    requires Supported(t)
  {
    if t.kind == UUID then
      if |raw| == 16 then Some(VUuid(raw)) else None
    else if t.kind in {STRING, TEXT, BLOB, DECIMAL, JSON} then
      var body := ReadLengthBytes(raw);
      if body.None? then None
      else if t.kind == STRING || t.kind == TEXT then
        var s := Utf8.DecodeDroppingMark(body.value);
        if s.None? then None else Some(VText(Utf16.Units(s.value)))
      else if t.kind == BLOB then Some(VBlob(body.value))
      else if t.kind == DECIMAL then
        var d := D.DecodeDecimal(body.value);
        if d.None? then None else Some(VDecimal(d.value))
      else
        var j := J.DecodeNSJB(h, body.value);
        if j.None? then None else Some(VJson(j.value))
    else if t.kind == TIMESTAMPTZ then
      if |raw| == 8 then Some(VInstant(GetI64(raw))) else None
    else if t.kind == BOOL then
      if |raw| == 1 && raw[0] <= 1 then Some(VBool(raw[0] == 1)) else None
    else
      var n := GetInt(t.kind, raw);
      if n.None? then None else Some(VInt(n.value))
  }

  /** What a column of type t gives back of a value: text as it reads, without a leading byte-order mark, the decimal
      at the column's scale without a sign on zero, the document in key order without its swallowed
      members, everything else unchanged. */
  function Stored(h: J.Host, t: FieldType, v: Value): Value
    requires Supported(t)
  {
    match v
    case VText(s) => VText(Utf16.Units(Utf8.DropMark(Utf16.Scalars(s))))
    case VDecimal(d) =>
      var text := D.NormalizeDecimalValue(D.DecimalType(t.precision, t.scale), d);
      if text.None? || D.Read(text.value).None? then v else VDecimal(D.Render(D.Read(text.value).value))
    case VJson(j) => VJson(J.Clean(h, J.Canon(h, j)))
    case _ => v
  }

  /** A value the host language can hold. */
  predicate Holdable(v: Value) { v.VJson? ==> J.Proper(v.j) }

  lemma ScalarRoundTrip(h: J.Host, t: FieldType, v: Value)
    requires Supported(t) && EncodeScalar(h, t, v).Some? && Holdable(v)
    requires |EncodeScalar(h, t, v).value| <= MAX_PLAINTEXT
    ensures DecodeScalar(h, t, EncodeScalar(h, t, v).value) == Some(Stored(h, t, v))
  {
    hide LengthBytes, ReadLengthBytes, PutInt, GetInt, InRange, D.NormalizeDecimalValue, D.EncodeDecimalString,
         D.DecodeDecimal, D.Read, D.Render, J.EncodeNSJB, J.DecodeNSJB, J.Clean, J.Canon, J.Proper, I64, GetI64,
         Utf8.Encode, Utf8.DecodeDroppingMark, Utf8.DropMark, Utf16.Scalars, Utf16.Units;
    if t.kind == STRING || t.kind == TEXT {
      PrefixedRoundTrip(Utf8.Encode(Utf16.Scalars(v.s)));
      Utf8.DroppingMark(Utf16.Scalars(v.s));
    } else if t.kind == BLOB {
      PrefixedRoundTrip(v.bytes);
    } else if t.kind == DECIMAL {
      DecimalScalar(h, t, v.d);
    } else if t.kind == TIMESTAMPTZ {
      I64RoundTrip(v.ns);
    } else if t.kind == JSON {
      J.NSJBRoundTrip(h, v.j);
      PrefixedRoundTrip(J.EncodeNSJB(h, v.j).value);
    } else if INT8 <= t.kind <= UINT64 {
      IntRoundTrip(t.kind, v.n);
    }
  }

  lemma PrefixedRoundTrip(raw: seq<byte>)
    requires LengthBytes(raw).Some? && |LengthBytes(raw).value| <= MAX_PLAINTEXT
    ensures ReadLengthBytes(LengthBytes(raw).value) == Some(raw)
  {
    LengthRoundTrip(raw);
  }

  lemma DecimalScalar(h: J.Host, t: FieldType, d: string)
    requires Supported(t) && t.kind == DECIMAL
    requires D.NormalizeDecimalValue(D.DecimalType(t.precision, t.scale), d).Some?
    ensures var text := D.NormalizeDecimalValue(D.DecimalType(t.precision, t.scale), d).value;
            && D.Read(text).Some? && D.EncodeDecimalString(text).Some?
            && var raw := D.EncodeDecimalString(text).value;
               && |raw| >= 8 && GetLE(raw[6..8]) == t.scale
               && (|raw| <= MAX_PLAINTEXT ==> ReadLengthBytes(raw) == Some(raw[4..]))
               && D.DecodeDecimal(raw[4..]) == Some(D.Render(D.Read(text).value))
  {
    hide D.NormalizeDecimalValue, D.Read, D.Render;
    var dt := D.DecimalType(t.precision, t.scale);
    var text := D.NormalizeDecimalValue(dt, d).value;
    D.NormalizedNumber(dt, d);
    D.DecimalRoundTrip(text);
    var n := D.Read(text).value;
    var raw := D.EncodeDecimalString(text).value;
    assert raw[4..] == D.Body(n);
    D.EncodedBody(n);
    ScaleBytes(n);
    assert raw[6..8] == D.Body(n)[2..4];
  }

  lemma ScaleBytes(n: D.Num)
    requires n.scale < 0x1_0000
    ensures |D.Body(n)| >= 4 && GetLE(D.Body(n)[2..4]) == n.scale
  {
    assert D.Body(n)[2..4] == U16(n.scale);
    Pow256Values();
    GetPut(n.scale, 2);
  }

  // ---- envelope ----

  datatype FieldKey = FieldKey(id: seq<byte>, material: seq<byte>)
  datatype Column = Column(database: seq<byte>, table: seq<byte>, column: seq<byte>)

  /** The primitives, as arbitrary functions: AES-128 on one block, its CTR keystream and HKDF,
      whose two halves are the MAC key and the CTR key. */
  datatype Suite = Suite(
    aes: (Block, Block) -> Block,
    keystream: (seq<byte>, Block, nat) -> byte,
    hkdf: seq<byte> -> (Block, Block))

  predicate IDByte(b: byte)
  {
    0x30 <= b <= 0x39 || 0x41 <= b <= 0x5a || 0x61 <= b <= 0x7a || b == 0x2e || b == 0x5f || b == 0x2d
  }

  predicate ValidKeyID(id: seq<byte>)
  {
    1 <= |id| <= MAX_KEY_ID && forall i :: 0 <= i < |id| ==> IDByte(id[i])
  }

  predicate UsableKey(key: FieldKey)
  {
    ValidKeyID(key.id) && |key.material| == 32 && exists i :: 0 <= i < 32 && key.material[i] != 0
  }

  predicate ValidName(n: seq<byte>) { 1 <= |n| <= 0xffff }

  predicate ValidColumn(c: Column) { ValidName(c.database) && ValidName(c.table) && ValidName(c.column) }

  const PREFIX: string := "NSCE1."
  const DETERMINISTIC_PREFIX: string := "NSCE2."
  const DETERMINISTIC_PREFIX_BYTES: seq<byte> := [0x4e, 0x53, 0x43, 0x45, 0x32, 0x2e]

  function Header(id: seq<byte>, t: FieldType): (h: seq<byte>)
    requires Supported(t) && ValidKeyID(id)
    ensures |h| == 9 + |id|
  {
    [2, 2, |id| as byte] + id + [t.kind as byte] + U16(t.precision) + U16(t.scale) + [t.vecElem as byte]
  }

  function Named(n: seq<byte>): seq<byte> { U16(|n|) + n }

  function Aad(c: Column, header: seq<byte>): seq<byte>
  {
    DETERMINISTIC_PREFIX_BYTES + Named(c.database) + Named(c.table) + Named(c.column) + header
  }

  lemma NamedInjective(a: seq<byte>, x: seq<byte>, b: seq<byte>, y: seq<byte>)
    requires ValidName(a) && ValidName(b) && Named(a) + x == Named(b) + y
    ensures a == b && x == y
  {
    Pow256Values();
    GetPut(|a|, 2);
    GetPut(|b|, 2);
    assert (Named(a) + x)[..2] == U16(|a|) && (Named(b) + y)[..2] == U16(|b|);
    assert (Named(a) + x)[2..2 + |a|] == a && (Named(b) + y)[2..2 + |b|] == b;
    assert (Named(a) + x)[2 + |a|..] == x && (Named(b) + y)[2 + |b|..] == y;
  }

  /** The associated data names its column and header without ambiguity. */
  lemma AadInjective(c: Column, h: seq<byte>, c': Column, h': seq<byte>)
    requires ValidColumn(c) && ValidColumn(c') && Aad(c, h) == Aad(c', h')
    ensures c == c' && h == h'
  {
    hide Named;
    var p := DETERMINISTIC_PREFIX_BYTES;
    var r, r' := Named(c.database) + (Named(c.table) + (Named(c.column) + h)),
        Named(c'.database) + (Named(c'.table) + (Named(c'.column) + h'));
    assert Aad(c, h) == p + r && Aad(c', h') == p + r';
    assert (p + r)[6..] == r && (p + r')[6..] == r';
    NamedInjective(c.database, Named(c.table) + (Named(c.column) + h), c'.database,
        Named(c'.table) + (Named(c'.column) + h'));
    NamedInjective(c.table, Named(c.column) + h, c'.table, Named(c'.column) + h');
    NamedInjective(c.column, h, c'.column, h');
  }

  function Tag(s: Suite, material: seq<byte>, c: Column, header: seq<byte>, plain: seq<byte>): Block
  {
    var k := s.hkdf(material).0;
    S2V(b => s.aes(k, b), [Aad(c, header), plain])
  }

  /** header, tag, ciphertext: the bytes the text encodes. */
  function Sealed(s: Suite, key: FieldKey, c: Column, t: FieldType, plain: seq<byte>): (body: seq<byte>)
    requires Supported(t) && ValidKeyID(key.id)
    ensures |body| == 9 + |key.id| + TAG_SIZE + |plain|
  {
    var header := Header(key.id, t);
    var tag := Tag(s, key.material, c, header, plain);
    header + tag + Crypt(s.keystream, s.hkdf(key.material).1, plain, tag)
  }

  function EncryptDeterministic(s: Suite, h: J.Host, key: FieldKey, c: Column, t: FieldType, v: Value): Option<string>
  {
    if !Supported(t) then None
    else
      var plain := EncodeScalar(h, t, v);
      if plain.None? || |plain.value| > MAX_PLAINTEXT || !UsableKey(key) || !ValidColumn(c) then None
      else Some(DETERMINISTIC_PREFIX + B64.Encode(Sealed(s, key, c, t, plain.value)))
  }

  datatype Mode = Randomized | Deterministic
  datatype Parsed = Parsed(keyID: seq<byte>, t: FieldType, body: seq<byte>, headerLength: nat, mode: Mode)

  function InspectField(text: string): Option<Parsed>
  {
    if |text| >= 6 && text[..6] == PREFIX then InspectBody(text[6..], 1, NONCE_SIZE, Randomized)
    else if |text| >= 6 && text[..6] == DETERMINISTIC_PREFIX then InspectBody(text[6..], 2, 0, Deterministic)
    else None
  }

  /** The checks after the prefix: alphabet, length, canonical base64url, version and suite byte,
      key id and logical type. */
  function InspectBody(enc: string, version: byte, nonceSize: nat, mode: Mode): Option<Parsed>
  {
    if enc == "" || |enc| % 4 == 1 || !B64.AllInAlphabet(enc) || |enc| > ((MAX_PLAINTEXT + 101) * 4 + 2) / 3 then None
    else
      var body := B64.Decode(enc).value;
      if B64.Encode(body) != enc || |body| < 3 + 1 + 6 + nonceSize + TAG_SIZE || body[0] != version
          || body[1] != version then None
      else
        var n := body[2] as int;
        if n < 1 || n > MAX_KEY_ID || |body| < 3 + n + 6 + nonceSize + TAG_SIZE then None
        else
          var id := body[3..3 + n];
          var t := FieldType(body[3 + n] as int, GetLE(body[4 + n..6 + n]), GetLE(body[6 + n..8 + n]),
            body[8 + n] as int);
          if !ValidKeyID(id) || !Supported(t) then None
          else Some(Parsed(id, t, body, 9 + n + nonceSize, mode))
  }

  function DecryptDeterministic(s: Suite, h: J.Host, lookup: seq<byte> -> Option<FieldKey>, c: Column,
                                expected: FieldType, text: string): Option<Value>
  {
    if !Supported(expected) then None
    else
      var p := InspectField(text);
      if p.None? || p.value.mode != Deterministic || p.value.t != expected || !ValidColumn(c)
         || |p.value.body| < p.value.headerLength + TAG_SIZE then None
      else
        var key := lookup(p.value.keyID);
        if key.None? || !UsableKey(key.value) || key.value.id != p.value.keyID then None
        else
          var hl := p.value.headerLength;
          var tag: Block := p.value.body[hl..hl + TAG_SIZE];
          var plain := Crypt(s.keystream, s.hkdf(key.value.material).1, p.value.body[hl + TAG_SIZE..], tag);
          if tag != Tag(s, key.value.material, c, p.value.body[..hl], plain) then None
          else DecodeScalar(h, expected, plain)
  }

  lemma HeaderFields(id: seq<byte>, t: FieldType, rest: seq<byte>)
    requires Supported(t) && ValidKeyID(id)
    ensures var body, n := Header(id, t) + rest, |id|;
            && body[0] == 2 && body[1] == 2 && body[2] as int == n
            && body[3..3 + n] == id && body[3 + n] as int == t.kind
            && GetLE(body[4 + n..6 + n]) == t.precision && GetLE(body[6 + n..8 + n]) == t.scale
            && body[8 + n] as int == t.vecElem
            && body[..9 + n] == Header(id, t) && body[9 + n..] == rest
  {
    var body, n := Header(id, t) + rest, |id|;
    Pow256Values();
    GetPut(t.precision, 2);
    GetPut(t.scale, 2);
    assert body[4 + n..6 + n] == U16(t.precision);
    assert body[6 + n..8 + n] == U16(t.scale);
  }

  /** Everything the encryptor emits passes inspection, up to the largest plaintext and key id. */
  lemma EmittedPassesInspection(s: Suite, key: FieldKey, c: Column, t: FieldType, plain: seq<byte>)
    requires Supported(t) && ValidKeyID(key.id) && |plain| <= MAX_PLAINTEXT
    ensures var body := Sealed(s, key, c, t, plain);
            InspectField(DETERMINISTIC_PREFIX + B64.Encode(body))
                == Some(Parsed(key.id, t, body, 9 + |key.id|, Deterministic))
  {
    hide Header, Tag, Crypt, B64.Encode, B64.Decode, Supported, ValidKeyID, GetLE;
    var body := Sealed(s, key, c, t, plain);
    var header := Header(key.id, t);
    var enc := B64.Encode(body);
    var text := DETERMINISTIC_PREFIX + enc;
    assert text[..6] == DETERMINISTIC_PREFIX && text[6..] == enc;
    B64.DecodeEncode(body);
    var tag := Tag(s, key.material, c, header, plain);
    var ct := Crypt(s.keystream, s.hkdf(key.material).1, plain, tag);
    assert body == header + (tag + ct);
    HeaderFields(key.id, t, tag + ct);
    KeyIDSize(key.id);
  }

  lemma KeyIDSize(id: seq<byte>)
    requires ValidKeyID(id)
    ensures 1 <= |id| <= MAX_KEY_ID
  {
  }

  /** For every supported type, value, usable key and column: decryption with a provider that still holds
      the key returns what the column gives back of the value. */
  lemma FieldRoundTrip(s: Suite, h: J.Host, key: FieldKey, c: Column, t: FieldType, v: Value,
                       lookup: seq<byte> -> Option<FieldKey>)
    requires EncryptDeterministic(s, h, key, c, t, v).Some? && Holdable(v)
    requires lookup(key.id) == Some(key)
    ensures DecryptDeterministic(s, h, lookup, c, t, EncryptDeterministic(s, h, key, c, t, v).value)
            == Some(Stored(h, t, v))
  {
    hide Header, Tag, Crypt, B64.Encode, InspectField, Supported, EncodeScalar, DecodeScalar, Holdable, Stored,
        ValidColumn, ValidKeyID;
    var plain := EncodeScalar(h, t, v).value;
    var body := Sealed(s, key, c, t, plain);
    EmittedPassesInspection(s, key, c, t, plain);
    OpensSealed(s, key, c, t, plain);
    ScalarRoundTrip(h, t, v);
  }

  /** Text survives encryption exactly when every surrogate in it has its partner and it does not begin with a
      byte-order mark. */
  lemma TextComesBack(s: Suite, h: J.Host, key: FieldKey, c: Column, t: FieldType, text: Utf16.Text,
                      lookup: seq<byte> -> Option<FieldKey>)
    requires EncryptDeterministic(s, h, key, c, t, VText(text)).Some? && lookup(key.id) == Some(key)
    ensures DecryptDeterministic(s, h, lookup, c, t, EncryptDeterministic(s, h, key, c, t, VText(text)).value)
            == Some(VText(text))
            <==> Utf16.WellFormed(text) && !Utf16.Marked(text)
  {
    hide EncryptDeterministic, DecryptDeterministic;
    FieldRoundTrip(s, h, key, c, t, VText(text), lookup);
    Utf16.ComesBack(text);
  }

  /** A mark followed by an x decrypts to the x alone. */
  lemma MarkedTextLost(s: Suite, h: J.Host, key: FieldKey, c: Column, t: FieldType,
                       lookup: seq<byte> -> Option<FieldKey>)
    requires EncryptDeterministic(s, h, key, c, t, VText([0xfeff, 0x78])).Some? && lookup(key.id) == Some(key)
    ensures DecryptDeterministic(s, h, lookup, c, t, EncryptDeterministic(s, h, key, c, t, VText([0xfeff, 0x78])).value)
              == Some(VText([0x78]))
  {
    hide EncryptDeterministic, DecryptDeterministic;
    FieldRoundTrip(s, h, key, c, t, VText([0xfeff, 0x78]), lookup);
    var text: Utf16.Text := [0xfeff, 0x78];
    assert Utf16.WellFormed(text[1..]) && Utf16.WellFormed(text);
    Utf16.UnitsScalars(text);
    Utf16.MarkReads(text);
  }

  /** A lone surrogate decrypts to the replacement character. */
  lemma SurrogateLost(s: Suite, h: J.Host, key: FieldKey, c: Column, t: FieldType,
                      lookup: seq<byte> -> Option<FieldKey>)
    requires EncryptDeterministic(s, h, key, c, t, VText([0xd800])).Some? && lookup(key.id) == Some(key)
    ensures DecryptDeterministic(s, h, lookup, c, t, EncryptDeterministic(s, h, key, c, t, VText([0xd800])).value)
              == Some(VText([0xfffd]))
  {
    hide EncryptDeterministic, DecryptDeterministic;
    FieldRoundTrip(s, h, key, c, t, VText([0xd800]), lookup);
    Utf16.LoneReads();
  }

  lemma OpensSealed(s: Suite, key: FieldKey, c: Column, t: FieldType, plain: seq<byte>)
    requires Supported(t) && ValidKeyID(key.id)
    ensures var body, hl := Sealed(s, key, c, t, plain), 9 + |key.id|;
            && body[..hl] == Header(key.id, t)
            && body[hl..hl + TAG_SIZE] == Tag(s, key.material, c, Header(key.id, t), plain)
            && Crypt(s.keystream, s.hkdf(key.material).1, body[hl + TAG_SIZE..], body[hl..hl + TAG_SIZE]) == plain
  {
    hide Header, Tag, Crypt, Supported, ValidKeyID;
    var body, hl, header := Sealed(s, key, c, t, plain), 9 + |key.id|, Header(key.id, t);
    var tag := Tag(s, key.material, c, header, plain);
    var ct := Crypt(s.keystream, s.hkdf(key.material).1, plain, tag);
    assert body == header + tag + ct;
    assert body[..hl] == header && body[hl..hl + TAG_SIZE] == tag && body[hl + TAG_SIZE..] == ct;
    CryptInvolutive(s.keystream, s.hkdf(key.material).1, plain, tag);
  }

  /** Under one key, column and type, ciphertexts are equal exactly when plaintexts are: the point
      of the deterministic mode. */
  lemma EqualCiphertexts(s: Suite, h: J.Host, key: FieldKey, c: Column, t: FieldType, v: Value, w: Value)
    requires EncryptDeterministic(s, h, key, c, t, v).Some? && EncryptDeterministic(s, h, key, c, t, w).Some?
    ensures EncryptDeterministic(s, h, key, c, t, v) == EncryptDeterministic(s, h, key, c, t, w)
            <==> EncodeScalar(h, t, v) == EncodeScalar(h, t, w)
  {
    hide Sealed, B64.Encode, Supported, EncodeScalar, ValidColumn, ValidKeyID;
    var p, q := EncodeScalar(h, t, v).value, EncodeScalar(h, t, w).value;
    if EncryptDeterministic(s, h, key, c, t, v) == EncryptDeterministic(s, h, key, c, t, w) {
      var e, f := B64.Encode(Sealed(s, key, c, t, p)), B64.Encode(Sealed(s, key, c, t, q));
      assert (DETERMINISTIC_PREFIX + e)[6..] == e && (DETERMINISTIC_PREFIX + f)[6..] == f;
      B64.DecodeEncode(Sealed(s, key, c, t, p));
      B64.DecodeEncode(Sealed(s, key, c, t, q));
      OpensSealed(s, key, c, t, p);
      OpensSealed(s, key, c, t, q);
    }
  }

  /** Decimals of one column: the ciphertexts agree exactly on the same number and sign mark. */
  lemma EqualDecimals(s: Suite, h: J.Host, key: FieldKey, c: Column, t: FieldType, v: string, w: string)
    requires t.kind == DECIMAL
    requires EncryptDeterministic(s, h, key, c, t, VDecimal(v)).Some?
             && EncryptDeterministic(s, h, key, c, t, VDecimal(w)).Some?
    ensures D.ReadValue(v).Some? && D.ReadValue(w).Some?
    ensures EncryptDeterministic(s, h, key, c, t, VDecimal(v)) == EncryptDeterministic(s, h, key, c, t, VDecimal(w))
            <==> D.SameNumber(D.ReadValue(v).value, D.ReadValue(w).value)
                 && D.ReadValue(v).value.neg == D.ReadValue(w).value.neg
  {
    hide D.NormalizeDecimalValue, D.EncodeDecimalString, D.ReadValue, D.SameNumber, Sealed, B64.Encode;
    EqualCiphertexts(s, h, key, c, t, VDecimal(v), VDecimal(w));
    D.NormalizedBytesEqual(D.DecimalType(t.precision, t.scale), v, w);
  }

  /** Two JSON documents of one column have the same ciphertext exactly when they are the same up to member order. */
  lemma EqualDocuments(s: Suite, h: J.Host, key: FieldKey, c: Column, t: FieldType, v: J.Json, w: J.Json)
    requires J.Proper(v) && J.Proper(w)
    requires EncryptDeterministic(s, h, key, c, t, VJson(v)).Some?
             && EncryptDeterministic(s, h, key, c, t, VJson(w)).Some?
    ensures EncryptDeterministic(s, h, key, c, t, VJson(v)) == EncryptDeterministic(s, h, key, c, t, VJson(w))
            <==> J.Same(v, w)
  {
    hide J.EncodeNSJB, J.Proper, J.Same, Sealed, B64.Encode, LengthBytes;
    EqualCiphertexts(s, h, key, c, t, VJson(v), VJson(w));
    J.PrintedDocuments(h, v, w);
    SameLength(J.EncodeNSJB(h, v).value, J.EncodeNSJB(h, w).value);
  }

  lemma SameLength(a: seq<byte>, b: seq<byte>)
    requires LengthBytes(a).Some? && LengthBytes(b).Some?
    ensures LengthBytes(a) == LengthBytes(b) <==> a == b
  {
    assert LengthBytes(a).value[4..] == a && LengthBytes(b).value[4..] == b;
  }
}
