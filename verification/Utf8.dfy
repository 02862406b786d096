/** UTF-8 of Unicode text: the encoder, the strict decoder and the byte-order mark. */
module Utf8 {
  import opened Bytes

  /** The one, two, three or four bytes of a scalar value. */
  function EncodeChar(c: char): (r: seq<byte>)
    ensures 1 <= |r| <= 4
  {
    var n := c as int;
    if n < 0x80 then [n as byte]
    else if n < 0x800 then [(0xc0 + n / 64) as byte, (0x80 + n % 64) as byte]
    else if n < 0x1_0000 then [(0xe0 + n / 4096) as byte, (0x80 + n / 64 % 64) as byte, (0x80 + n % 64) as byte]
    else [(0xf0 + n / 262144) as byte, (0x80 + n / 4096 % 64) as byte, (0x80 + n / 64 % 64) as byte,
        (0x80 + n % 64) as byte]
  }

  function Encode(s: string): seq<byte>
  {
    if s == "" then [] else EncodeChar(s[0]) + Encode(s[1..])
  }

  predicate Continues(b: byte) { 0x80 <= b < 0xc0 }

  /** The length a lead byte announces; zero for a byte that cannot lead. */
  function LeadLength(b: byte): nat
  {
    if b < 0x80 then 1 else if 0xc0 <= b < 0xe0 then 2 else if 0xe0 <= b < 0xf0 then 3 else if 0xf0 <= b < 0xf8 then 4
        else 0
  }

  function Bits(b: byte): nat { b as int % 64 }

  /** The number spelled by the first bytes, if they have the right shape. */
  function Spelled(b: seq<byte>): (r: Option<(nat, nat)>)
    ensures r.Some? ==> 1 <= r.value.1 <= |b|
  {
    if b == [] then None
    else
      var k := LeadLength(b[0]);
      if k == 0 || |b| < k || exists i :: 1 <= i < k && !Continues(b[i]) then None
      else if k == 1 then Some((b[0] as int, 1))
      else if k == 2 then Some((b[0] as int % 32 * 64 + Bits(b[1]), 2))
      else if k == 3 then Some((b[0] as int % 16 * 4096 + Bits(b[1]) * 64 + Bits(b[2]), 3))
      else Some((b[0] as int % 8 * 262144 + Bits(b[1]) * 4096 + Bits(b[2]) * 64 + Bits(b[3]), 4))
  }

  /** The shortest spelling of a scalar value and nothing else. */
  predicate Shortest(n: nat, k: nat)
  {
    (n < 0xd800 || 0xe000 <= n < 0x11_0000)
        && k == if n < 0x80 then 1 else if n < 0x800 then 2 else if n < 0x1_0000 then 3 else 4
  }

  /** Strict decoding: overlong spellings, surrogates and stray bytes are refused. */
  function Decode(b: seq<byte>): Option<string>
  {
    if b == [] then Some("")
    else
      match Spelled(b)
      case None => None
      case Some(p) =>
        if !Shortest(p.0, p.1) then None
        else match Decode(b[p.1..]) case None => None case Some(rest) => Some([p.0 as char] + rest)
  }

  /** Base-64 digits put together again. */
  lemma Digits(n: nat)
    ensures n == n / 64 * 64 + n % 64
    ensures n / 64 == n / 4096 * 64 + n / 64 % 64
    ensures n / 4096 == n / 262144 * 64 + n / 4096 % 64
  {
  }

  /** What Spelled makes of a lead byte and its continuation bytes. */
  function Joined(e: seq<byte>): nat
    requires 1 <= |e| <= 4
  {
    if |e| == 1 then e[0] as int
    else if |e| == 2 then e[0] as int % 32 * 64 + Bits(e[1])
    else if |e| == 3 then e[0] as int % 16 * 4096 + Bits(e[1]) * 64 + Bits(e[2])
    else e[0] as int % 8 * 262144 + Bits(e[1]) * 4096 + Bits(e[2]) * 64 + Bits(e[3])
  }

  lemma SpelledPrefix(e: seq<byte>, rest: seq<byte>)
    requires 1 <= |e| <= 4 && LeadLength(e[0]) == |e| && forall i :: 1 <= i < |e| ==> Continues(e[i])
    ensures Spelled(e + rest) == Some((Joined(e), |e|))
  {
    hide Bits, Continues, LeadLength;
    var b := e + rest;
    assert forall i :: 0 <= i < |e| ==> b[i] == e[i];
  }

  lemma CharShape(c: char)
    ensures var e := EncodeChar(c); LeadLength(e[0]) == |e| && forall i :: 1 <= i < |e| ==> Continues(e[i])
  {
  }

  lemma Payload(b: byte, base: nat, x: nat)
    requires b as int == base + x
    ensures base == 0x80 && x < 64 ==> Bits(b) == x
    ensures base == 0xc0 && x < 32 ==> b as int % 32 == x
    ensures base == 0xe0 && x < 16 ==> b as int % 16 == x
    ensures base == 0xf0 && x < 8 ==> b as int % 8 == x
  {
  }

  lemma CharValue(c: char)
    ensures Joined(EncodeChar(c)) == c as int
  {
    hide Bits;
    var n, e := c as int, EncodeChar(c);
    Digits(n);
    var d0, d1, d2, top := n % 64, n / 64 % 64, n / 4096 % 64, n / 262144;
    if n < 0x80 {
    } else if n < 0x800 {
      Payload(e[0], 0xc0, n / 64);
      Payload(e[1], 0x80, d0);
    } else if n < 0x1_0000 {
      Payload(e[0], 0xe0, n / 4096);
      Payload(e[1], 0x80, d1);
      Payload(e[2], 0x80, d0);
    } else {
      Payload(e[0], 0xf0, top);
      Payload(e[1], 0x80, d2);
      Payload(e[2], 0x80, d1);
      Payload(e[3], 0x80, d0);
    }
  }

  lemma SpelledChar(c: char, rest: seq<byte>)
    ensures Spelled(EncodeChar(c) + rest) == Some((c as int, |EncodeChar(c)|))
    ensures Shortest(c as int, |EncodeChar(c)|)
  {
    hide Joined, Spelled, LeadLength, Continues;
    CharShape(c);
    CharValue(c);
    SpelledPrefix(EncodeChar(c), rest);
  }

  /** Strict decoding undoes encoding, for every text. */
  lemma {:induction false} DecodeEncode(s: string)
    ensures Decode(Encode(s)) == Some(s)
  {
    hide EncodeChar, Spelled;
    if s != "" {
      var e, rest := EncodeChar(s[0]), Encode(s[1..]);
      SpelledChar(s[0], rest);
      DecodeEncode(s[1..]);
      assert (e + rest)[|e|..] == rest;
      assert s == [s[0]] + s[1..];
    }
  }

  // ---- the byte-order mark ----

  const MARK: char := '\U{feff}'
  const MARK_BYTES: seq<byte> := [0xef, 0xbb, 0xbf]

  predicate Marked(s: string) { s != "" && s[0] == MARK }

  /** Encoded text begins with EF BB BF exactly when the text begins with U+FEFF. */
  lemma MarkShows(s: string)
    ensures MARK_BYTES <= Encode(s) <==> Marked(s)
  {
    assert EncodeChar(MARK) == MARK_BYTES;
    if s != "" {
      var e, rest := EncodeChar(s[0]), Encode(s[1..]);
      SpelledChar(s[0], rest);
      if MARK_BYTES <= e + rest {
        assert (e + rest)[0] == 0xef && (e + rest)[1] == 0xbb && (e + rest)[2] == 0xbf;
        assert Spelled(e + rest) == Some((0xfeff, 3));
      }
    }
  }

  /** A fatal decoder that, as TextDecoder does by default, drops one leading mark. */
  function DecodeDroppingMark(b: seq<byte>): Option<string>
  {
    Decode(if MARK_BYTES <= b then b[3..] else b)
  }

  function DropMark(s: string): string { if Marked(s) then s[1..] else s }

  lemma DroppingMark(s: string)
    ensures DecodeDroppingMark(Encode(s)) == Some(DropMark(s))
  {
    hide Decode;
    MarkShows(s);
    if Marked(s) {
      assert EncodeChar(MARK) == MARK_BYTES;
      assert Encode(s)[3..] == Encode(s[1..]);
    }
    DecodeEncode(DropMark(s));
  }
}
