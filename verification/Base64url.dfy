/** Unpadded base64url (section 5 of RFC 4648), as the NSCE envelope and the NSSC1 credential use it. */
module Base64url {
  import opened Bytes

  newtype sextet = x: int | 0 <= x < 64

  function Symbol(i: sextet): (c: char)
  {
    if i < 26 then ('A' as int + i as int) as char
    else if i < 52 then ('a' as int + (i as int - 26)) as char
    else if i < 62 then ('0' as int + (i as int - 52)) as char
    else if i == 62 then '-' else '_'
  }

  function Index(c: char): Option<sextet>
  {
    if 'A' <= c <= 'Z' then Some((c as int - 'A' as int) as sextet)
    else if 'a' <= c <= 'z' then Some((c as int - 'a' as int + 26) as sextet)
    else if '0' <= c <= '9' then Some((c as int - '0' as int + 52) as sextet)
    else if c == '-' then Some(62)
    else if c == '_' then Some(63)
    else None
  }

  predicate InAlphabet(c: char)
  {
    Index(c).Some?
  }

  predicate AllInAlphabet(t: string)
  {
    forall i :: 0 <= i < |t| ==> InAlphabet(t[i])
  }

  lemma SymbolIndex(i: sextet)
    ensures Index(Symbol(i)) == Some(i)
  {
  }

  /** Three bytes become four sextets; a tail of one or two bytes becomes two or three. */
  function Regroup(b: seq<byte>): (s: seq<sextet>)
    ensures |s| == (4 * |b| + 2) / 3
  {
    if b == [] then []
    else
      var b0 := b[0] as int;
      if |b| == 1 then [(b0 / 4) as sextet, (b0 % 4 * 16) as sextet]
      else
        var b1 := b[1] as int;
        if |b| == 2 then [(b0 / 4) as sextet, (b0 % 4 * 16 + b1 / 16) as sextet, (b1 % 16 * 4) as sextet]
        else
          var b2 := b[2] as int;
          [(b0 / 4) as sextet, (b0 % 4 * 16 + b1 / 16) as sextet,
           (b1 % 16 * 4 + b2 / 64) as sextet, (b2 % 64) as sextet]
          + Regroup(b[3..])
  }

  /** The decoder's view: a tail drops the bits that do not fill a byte, a lone sextet yields nothing. */
  function Ungroup(s: seq<sextet>): (b: seq<byte>)
    ensures |b| == 3 * |s| / 4
  {
    if |s| <= 1 then []
    else
      var s0, s1 := s[0] as int, s[1] as int;
      var b0 := (s0 * 4 + s1 / 16) as byte;
      if |s| == 2 then [b0]
      else
        var s2 := s[2] as int;
        var b1 := (s1 % 16 * 16 + s2 / 4) as byte;
        if |s| == 3 then [b0, b1]
        else [b0, b1, (s2 % 4 * 64 + s[3] as int) as byte] + Ungroup(s[4..])
  }

  lemma {:induction false} UngroupRegroup(b: seq<byte>)
    ensures Ungroup(Regroup(b)) == b
  {
    if |b| >= 3 {
      UngroupRegroup(b[3..]);
      var s := Regroup(b);
      assert s[4..] == Regroup(b[3..]);
      QuantumRoundTrip(b[0] as int, b[1] as int, b[2] as int);
      assert b == b[..3] + b[3..];
    }
  }

  lemma QuantumRoundTrip(x: nat, y: nat, z: nat)
    requires x < 256 && y < 256 && z < 256
    ensures var s1, s2 := x % 4 * 16 + y / 16, y % 16 * 4 + z / 64;
            x / 4 * 4 + s1 / 16 == x && s1 % 16 * 16 + s2 / 4 == y && s2 % 4 * 64 + z % 64 == z
  {
  }

  function Encode(b: seq<byte>): (t: string)
    ensures |t| == (4 * |b| + 2) / 3
  {
    var s := Regroup(b);
    seq(|s|, i requires 0 <= i < |s| => Symbol(s[i]))
  }

  function Indices(t: string): (s: seq<sextet>)
    requires AllInAlphabet(t)
    ensures |s| == |t|
  {
    seq(|t|, i requires 0 <= i < |t| => Index(t[i]).value)
  }

  function Decode(t: string): (r: Option<seq<byte>>)
    ensures r.Some? ==> |r.value| == 3 * |t| / 4
  {
    if AllInAlphabet(t) then Some(Ungroup(Indices(t))) else None
  }

  lemma DecodeEncode(b: seq<byte>)
    ensures AllInAlphabet(Encode(b))
    ensures Decode(Encode(b)) == Some(b)
    ensures |Encode(b)| % 4 != 1
  {
    hide Symbol, Index, Regroup, Ungroup;
    EncodedLength(|b|);
    var s, t := Regroup(b), Encode(b);
    forall i | 0 <= i < |t| ensures InAlphabet(t[i]) && Index(t[i]) == Some(s[i]) {
      SymbolIndex(s[i]);
    }
    assert Indices(t) == s;
    UngroupRegroup(b);
  }

  lemma EncodedLength(n: nat)
    ensures (4 * n + 2) / 3 % 4 != 1
  {
    var q, r := n / 3, n % 3;
    assert (4 * n + 2) / 3 == 4 * q + (4 * r + 2) / 3;
  }

  /** Text that survives decode and re-encode is exactly the encoder's image. */
  lemma CanonicalText(t: string)
    ensures (Decode(t).Some? && Encode(Decode(t).value) == t) <==> exists b :: Encode(b) == t
  {
    if exists b :: Encode(b) == t {
      var b :| Encode(b) == t;
      hide Encode, Decode;
      DecodeEncode(b);
    }
  }
}
