/** Arbitrary-precision decimals of the Node driver: text, coefficient, base-256 body and back. */
module Decimal {
  import opened Bytes

  const MAX_PACKET := 0x10_0000

  // ---- positional numerals, most significant digit first ----

  predicate Below(base: nat, ds: seq<nat>)
  {
    forall i :: 0 <= i < |ds| ==> ds[i] < base
  }

  function Val(base: nat, ds: seq<nat>): (n: nat)
  {
    if ds == [] then 0 else Val(base, ds[..|ds| - 1]) * base + ds[|ds| - 1]
  }

  /** The numeral of n without leading zeros; zero has no digits. */
  function Numeral(base: nat, n: nat): (ds: seq<nat>)
    requires base >= 2
    ensures Below(base, ds)
    ensures n > 0 <==> ds != []
    decreases n
  {
    if n == 0 then [] else
      Shrinks(base, n);
      Numeral(base, n / base) + [n % base]
  }

  lemma Shrinks(base: nat, n: nat)
    requires base >= 2 && n > 0
    ensures 0 <= n / base < n
  {
    var q := n / base;
    assert n == base * q + n % base;
    if q >= 1 { MulAtLeast(q, base - 1); MulDistributes(q, base, 1); }
  }

  lemma ValSnoc(base: nat, ds: seq<nat>, d: nat)
    ensures Val(base, ds + [d]) == Val(base, ds) * base + d
  {
    assert (ds + [d])[..|ds|] == ds;
  }

  lemma DivMod(base: nat, n: nat)
    requires base >= 1
    ensures (n / base) * base + n % base == n
  {
  }

  lemma {:induction false} ValNumeral(base: nat, n: nat)
    requires base >= 2
    ensures Val(base, Numeral(base, n)) == n
    decreases n
  {
    hide Val;
    if n > 0 {
      Shrinks(base, n);
      ValNumeral(base, n / base);
      ValSnoc(base, Numeral(base, n / base), n % base);
      DivMod(base, n);
    } else {
      ValEmpty(base);
    }
  }

  lemma ValEmpty(base: nat)
    ensures Val(base, []) == 0
  {
  }

  lemma {:induction false} NumeralShorter(n: nat)
    ensures |Numeral(16, n)| <= |Numeral(10, n)|
    decreases n
  {
    if n > 0 {
      NumeralShorter(n / 16);
      NumeralMonotone(n / 16, n / 10);
    }
  }

  lemma {:induction false} NumeralMonotone(m: nat, n: nat)
    requires m <= n
    ensures |Numeral(10, m)| <= |Numeral(10, n)|
    decreases n
  {
    if m > 0 {
      NumeralMonotone(m / 10, n / 10);
    }
  }

  lemma {:induction false} ValLeadingZero(base: nat, ds: seq<nat>)
    ensures Val(base, [0] + ds) == Val(base, ds)
  {
    if ds == [] {
      assert [0][..0] == [];
    } else {
      ValLeadingZero(base, ds[..|ds| - 1]);
      assert ([0] + ds)[..|ds|] == [0] + ds[..|ds| - 1];
    }
  }

  lemma {:induction false} ValZeros(base: nat, k: nat, ds: seq<nat>)
    ensures Val(base, seq(k, _ => 0) + ds) == Val(base, ds)
  {
    if k == 0 {
      assert seq(0, _ => 0) + ds == ds;
    } else {
      ValZeros(base, k - 1, ds);
      ValLeadingZero(base, seq(k - 1, _ => 0) + ds);
      assert seq(k, _ => 0) + ds == [0] + (seq(k - 1, _ => 0) + ds);
    }
  }

  function Pow10(k: nat): (p: nat)
    ensures p >= 1
  {
    if k == 0 then 1 else 10 * Pow10(k - 1)
  }

  lemma {:induction false} ValTrailingZeros(ds: seq<nat>, k: nat)
    ensures Val(10, ds + seq(k, _ => 0)) == Val(10, ds) * Pow10(k)
  {
    if k == 0 {
      assert ds + seq(0, _ => 0) == ds;
    } else {
      ValTrailingZeros(ds, k - 1);
      var t := ds + seq(k, _ => 0);
      assert t[..|t| - 1] == ds + seq(k - 1, _ => 0);
      assert Val(10, t) == Val(10, ds) * Pow10(k - 1) * 10 + 0;
      assert Val(10, ds) * Pow10(k - 1) * 10 == Val(10, ds) * (10 * Pow10(k - 1));
    }
  }

  lemma {:induction false} ValBelowPow(ds: seq<nat>)
    requires Below(10, ds)
    ensures Val(10, ds) < Pow10(|ds|)
  {
    if ds != [] {
      ValBelowPow(ds[..|ds| - 1]);
    }
  }

  // ---- base 256 through hexadecimal, as the driver converts ----

  function PairUp(hs: seq<nat>): (b: seq<byte>)
    requires Below(16, hs) && |hs| % 2 == 0
    ensures |b| == |hs| / 2
  {
    if hs == [] then []
    else PairUp(hs[..|hs| - 2]) + [(16 * hs[|hs| - 2] + hs[|hs| - 1]) as byte]
  }

  function Ints(b: seq<byte>): (ds: seq<nat>)
    ensures |ds| == |b|
  {
    seq(|b|, i requires 0 <= i < |b| => b[i] as int)
  }

  function BigintToBytes(n: nat): (b: seq<byte>)
    ensures |b| <= |Numeral(16, n)|
  {
    var hex := Numeral(16, n);
    PairUp(if |hex| % 2 == 1 then [0] + hex else hex)
  }

  lemma {:induction false} PairUpValue(hs: seq<nat>)
    requires Below(16, hs) && |hs| % 2 == 0
    ensures Val(256, Ints(PairUp(hs))) == Val(16, hs)
  {
    if hs != [] {
      var init, b := hs[..|hs| - 2], PairUp(hs);
      PairUpValue(init);
      assert Ints(b)[..|b| - 1] == Ints(PairUp(init));
      var h1 := hs[..|hs| - 1];
      assert h1[..|h1| - 1] == init;
      assert Val(16, hs) == (Val(16, init) * 16 + hs[|hs| - 2]) * 16 + hs[|hs| - 1];
    }
  }

  lemma BigintBytesRoundTrip(n: nat)
    ensures Val(256, Ints(BigintToBytes(n))) == n
  {
    hide Val, PairUp, Ints;
    var hex := Numeral(16, n);
    ValNumeral(16, n);
    ValLeadingZero(16, hex);
    PairUpValue(if |hex| % 2 == 1 then [0] + hex else hex);
  }

  method BytesToBigint(buf: seq<byte>) returns (n: nat)
    ensures n == Val(256, Ints(buf))
  {
    n := 0;
    for i := 0 to |buf|
      invariant n == Val(256, Ints(buf[..i]))
    {
      assert Ints(buf[..i + 1])[..i] == Ints(buf[..i]);
      n := n * 256 + buf[i] as int;
    }
    assert buf[..|buf|] == buf;
  }

  // ---- text ----

  predicate IsDigit(c: char) { '0' <= c <= '9' }

  predicate AllDigits(s: string)
  {
    forall i :: 0 <= i < |s| ==> IsDigit(s[i])
  }

  function Digits(s: string): (ds: seq<nat>)
    requires AllDigits(s)
    ensures |ds| == |s| && Below(10, ds)
  {
    seq(|s|, i requires 0 <= i < |s| => s[i] as int - '0' as int)
  }

  lemma DigitsConcat(a: string, b: string)
    requires AllDigits(a) && AllDigits(b)
    ensures AllDigits(a + b) && Digits(a + b) == Digits(a) + Digits(b)
  {
  }

  function Text(ds: seq<nat>): (s: string)
    requires Below(10, ds)
    ensures |s| == |ds| && AllDigits(s) && Digits(s) == ds
  {
    seq(|ds|, i requires 0 <= i < |ds| => ('0' as int + ds[i]) as char)
  }

  /** White space and line terminators, as String.prototype.trim removes them. */
  predicate IsSpace(c: char)
  {
    || '\t' <= c <= '\r' || c == ' ' || c == '\U{a0}' || c == '\U{1680}' || '\U{2000}' <= c <= '\U{200a}'
    || c == '\U{2028}' || c == '\U{2029}' || c == '\U{202f}' || c == '\U{205f}' || c == '\U{3000}' || c == '\U{feff}'
  }

  function TrimStart(s: string): string
  {
    if s != "" && IsSpace(s[0]) then TrimStart(s[1..]) else s
  }

  function TrimEnd(s: string): string
  {
    if s != "" && IsSpace(s[|s| - 1]) then TrimEnd(s[..|s| - 1]) else s
  }

  function Trim(s: string): string { TrimEnd(TrimStart(s)) }

  function FirstDot(s: string): (i: nat)
    ensures i <= |s| && (i < |s| ==> s[i] == '.')
    ensures forall j :: 0 <= j < i ==> s[j] != '.'
  {
    if s == "" || s[0] == '.' then 0 else 1 + FirstDot(s[1..])
  }

  datatype Unsigned = Unsigned(whole: string, fraction: string)

  /** The pattern digits, or digits "." digits; an absent fraction is the empty one. */
  function MatchUnsigned(s: string): (r: Option<Unsigned>)
    ensures r.Some? ==> AllDigits(r.value.whole) && AllDigits(r.value.fraction) && r.value.whole != ""
  {
    var i := FirstDot(s);
    var whole := s[..i];
    if whole == "" || !AllDigits(whole) then None
    else if i == |s| then Some(Unsigned(whole, ""))
    else if s[i + 1..] == "" || !AllDigits(s[i + 1..]) then None
    else Some(Unsigned(whole, s[i + 1..]))
  }

  predicate StartsWith(s: string, c: char) { s != "" && s[0] == c }

  /** A signed coefficient with a scale: the number is coef / 10^scale, negated when neg. */
  datatype Num = Num(neg: bool, coef: nat, scale: nat)

  function Signless(n: Num): Num { if n.coef == 0 then n.(neg := false) else n }

  function NumOf(neg: bool, u: Unsigned): Num
    requires AllDigits(u.whole) && AllDigits(u.fraction)
  {
    Num(neg, Val(10, Digits(u.whole + u.fraction)), |u.fraction|)
  }

  /** What encodeDecimalString reads: an optional "+" and then an optional "-". */
  function Read(s: string): Option<Num>
  {
    var t := Trim(s);
    var t1 := if StartsWith(t, '+') then t[1..] else t;
    var neg := StartsWith(t1, '-');
    var m := MatchUnsigned(if neg then t1[1..] else t1);
    if m.None? then None else Some(NumOf(neg, m.value))
  }

  function Body(n: Num): (b: seq<byte>)
    requires n.scale < 0x1_0000
  {
    [if n.neg then 1 else 0, 0] + U16(n.scale) + BigintToBytes(n.coef)
  }

  /** The length-prefixed body; text outside the pattern, a scale above 16 bits or a body above
      one packet is an error. Leading zeros are stripped before the conversion and do not matter. */
  function EncodeDecimalString(s: string): Option<seq<byte>>
  {
    var n := Read(s);
    if n.None? || n.value.scale >= 0x1_0000 then None
    else
      var body := Body(n.value);
      if |body| > MAX_PACKET then None else Some(U32(|body|) + body)
  }

  function ToText(n: nat): (s: string)
    ensures AllDigits(s) && |s| >= 1
  {
    if n == 0 then "0" else Text(Numeral(10, n))
  }

  function Zeros(k: nat): (s: string)
    ensures |s| == k && AllDigits(s)
  {
    seq(k, _ => '0')
  }

  /** The digits of n, padded so that at least one stands before the point. */
  function Padded(n: nat, scale: nat): (p: string)
    ensures AllDigits(p) && |p| > scale
  {
    var s := ToText(n);
    if |s| <= scale then Zeros(scale + 1 - |s|) + s else s
  }

  function SpelledOut(u: Unsigned): string
  {
    if u.fraction == "" then u.whole else u.whole + "." + u.fraction
  }

  function Placed(n: nat, scale: nat): Unsigned
  {
    var p := Padded(n, scale);
    Unsigned(p[..|p| - scale], p[|p| - scale..])
  }

  /** The decoder's text: the sign is dropped from the two spellings of zero it compares with. */
  function Render(n: Num): string
  {
    var s := SpelledOut(Placed(n.coef, n.scale));
    if n.neg && s != "0" && s != "0." + Zeros(n.scale) then "-" + s else s
  }

  function Unpack(body: seq<byte>): Num
    requires |body| >= 4
  {
    Num(body[0] % 2 == 1, Val(256, Ints(body[4..])), GetLE(body[2..4]))
  }

  function DecodeDecimal(body: seq<byte>): Option<string>
  {
    if |body| < 4 then None else Some(Render(Unpack(body)))
  }

  lemma UnpackBody(n: Num)
    requires n.scale < 0x1_0000
    ensures Unpack(Body(n)) == n
  {
    var b := Body(n);
    assert b[2..4] == U16(n.scale);
    assert b[4..] == BigintToBytes(n.coef);
    Pow256Values();
    GetPut(n.scale, 2);
    BigintBytesRoundTrip(n.coef);
  }

  // ---- the text the decoder prints reads back ----

  lemma TrimsToSelf(s: string)
    requires s != "" && !IsSpace(s[0]) && !IsSpace(s[|s| - 1])
    ensures Trim(s) == s
  {
  }

  lemma {:induction false} FirstDotAt(w: string, f: string)
    requires AllDigits(w)
    ensures FirstDot(w) == |w|
    ensures FirstDot(w + "." + f) == |w|
  {
    if w == "" {
    } else {
      FirstDotAt(w[1..], f);
      assert (w + "." + f)[1..] == w[1..] + "." + f;
    }
  }

  lemma MatchesBack(w: string, f: string)
    requires AllDigits(w) && AllDigits(f) && w != ""
    ensures MatchUnsigned(w) == Some(Unsigned(w, ""))
    ensures f != "" ==> MatchUnsigned(w + "." + f) == Some(Unsigned(w, f))
  {
    FirstDotAt(w, f);
    var s := w + "." + f;
    assert s[..|w|] == w && s[|w| + 1..] == f;
    assert w[..|w|] == w;
  }

  lemma ReadUnsigned(neg: bool, u: Unsigned)
    requires AllDigits(u.whole) && AllDigits(u.fraction) && u.whole != ""
    ensures MatchUnsigned(SpelledOut(u)) == Some(u)
    ensures Read(if neg then "-" + SpelledOut(u) else SpelledOut(u)) == Some(NumOf(neg, u))
  {
    hide NumOf, MatchUnsigned, Trim;
    var t := SpelledOut(u);
    MatchesBack(u.whole, u.fraction);
    assert IsDigit(t[0]) && IsDigit(t[|t| - 1]);
    var s := if neg then "-" + t else t;
    TrimsToSelf(s);
    assert neg ==> s[1..] == t;
  }

  lemma ToTextValue(n: nat)
    ensures Val(10, Digits(ToText(n))) == n
  {
    if n == 0 {
      assert Digits("0")[..0] == [];
    } else {
      ValNumeral(10, n);
    }
  }

  /** Placing the point keeps the value of the digits. */
  lemma PlacedFacts(n: nat, scale: nat)
    ensures var u := Placed(n, scale);
            && AllDigits(u.whole) && AllDigits(u.fraction) && u.whole != "" && |u.fraction| == scale
            && Val(10, Digits(u.whole + u.fraction)) == n
  {
    hide Val, ToText, Digits, Zeros;
    var s, p, u := ToText(n), Padded(n, scale), Placed(n, scale);
    ToTextValue(n);
    if |s| <= scale { ZerosAhead(scale + 1 - |s|, s); }
    assert u.whole + u.fraction == p;
  }

  lemma ZerosAhead(k: nat, s: string)
    requires AllDigits(s)
    ensures Val(10, Digits(Zeros(k) + s)) == Val(10, Digits(s))
  {
    hide Val;
    DigitsConcat(Zeros(k), s);
    assert Digits(Zeros(k)) == seq(k, _ => 0);
    ValZeros(10, k, Digits(s));
  }

  lemma ZerosValue(k: nat)
    ensures Val(10, Digits(Zeros(k))) == 0
  {
    assert Digits(Zeros(k)) == seq(k, _ => 0) + [];
    ValZeros(10, k, []);
  }

  /** The two strings the decoder compares with are exactly the renderings of zero. */
  lemma ZeroSpelling(n: nat, scale: nat)
    ensures var s := SpelledOut(Placed(n, scale));
            (s == "0" || s == "0." + Zeros(scale)) <==> n == 0
  {
    hide Val, Digits, MatchUnsigned, Read, Placed, SpelledOut;
    var u := Placed(n, scale);
    PlacedFacts(n, scale);
    ReadUnsigned(false, u);
    ZeroTexts(scale);
    if n == 0 {
      PlacedZero(scale);
    } else if scale == 0 {
      LoneDot();
    }
  }

  lemma PlacedZero(scale: nat)
    ensures Placed(0, scale) == Unsigned("0", Zeros(scale))
  {
    assert Padded(0, scale) == Zeros(scale + 1);
  }

  lemma ZeroTexts(scale: nat)
    ensures SpelledOut(Unsigned("0", "")) == "0" && MatchUnsigned("0") == Some(Unsigned("0", ""))
    ensures SpelledOut(Unsigned("0", Zeros(scale))) == if scale == 0 then "0" else "0." + Zeros(scale)
    ensures scale > 0 ==> MatchUnsigned("0." + Zeros(scale)) == Some(Unsigned("0", Zeros(scale)))
    ensures AllDigits("0" + Zeros(scale)) && Val(10, Digits("0" + Zeros(scale))) == 0
    ensures AllDigits("0" + "") && Val(10, Digits("0" + "")) == 0
  {
    hide Val, Digits, MatchUnsigned, Read;
    ReadUnsigned(false, Unsigned("0", Zeros(scale)));
    ReadUnsigned(false, Unsigned("0", ""));
    ZerosValue(scale + 1);
    ZerosValue(1);
    assert "0" + Zeros(scale) == Zeros(scale + 1);
    assert "0" + "" == Zeros(1);
    assert "0" + "." + Zeros(scale) == "0." + Zeros(scale);
  }

  lemma LoneDot()
    ensures MatchUnsigned("0." + Zeros(0)) == None
  {
    FirstDotAt("0", "");
    assert "0" + "." + "" == "0." + Zeros(0);
  }

  lemma ReadRender(n: Num)
    ensures Read(Render(n)) == Some(Signless(n))
  {
    hide Read, Placed, Val, Digits, SpelledOut;
    ZeroSpelling(n.coef, n.scale);
    PlacedFacts(n.coef, n.scale);
    ReadUnsigned(n.neg && n.coef != 0, Placed(n.coef, n.scale));
  }

  lemma RenderSignless(n: Num)
    ensures Render(Signless(n)) == Render(n)
  {
    hide Placed, SpelledOut;
    ZeroSpelling(n.coef, n.scale);
  }

  /** For every accepted text: decoding keeps the number and its scale, a second trip changes
      nothing, and the bytes themselves survive exactly when the number is not negative zero. */
  lemma DecimalRoundTrip(s: string)
    requires EncodeDecimalString(s).Some?
    ensures var raw := EncodeDecimalString(s).value;
            && |raw| >= 8 && GetLE(raw[..4]) == |raw| - 4
            && DecodeDecimal(raw[4..]).Some?
            && var t := DecodeDecimal(raw[4..]).value;
               && Read(s).Some? && Read(t) == Some(Signless(Read(s).value))
               && EncodeDecimalString(t).Some?
               && DecodeDecimal(EncodeDecimalString(t).value[4..]) == Some(t)
               && (EncodeDecimalString(t) == EncodeDecimalString(s)
                  <==> !(Read(s).value.neg && Read(s).value.coef == 0))
  {
    hide Read, Render, Body, Unpack;
    var n := Read(s).value;
    var raw := EncodeDecimalString(s).value;
    EncodedBody(n);
    var t := Render(n);
    assert raw[4..] == Body(n);
    ReadRender(n);
    RenderSignless(n);
    EncodedBody(Signless(n));
    assert EncodeDecimalString(t) == Some(U32(|Body(Signless(n))|) + Body(Signless(n)));
    assert EncodeDecimalString(t).value[4..] == Body(Signless(n));
  }

  lemma EncodedBody(n: Num)
    requires n.scale < 0x1_0000
    ensures |Body(n)| >= 4 && Unpack(Body(n)) == n
    ensures |Body(Signless(n))| == |Body(n)|
    ensures |Body(n)| <= MAX_PACKET ==> GetLE(U32(|Body(n)|)) == |Body(n)|
  {
    UnpackBody(n);
    Pow256Values();
    GetPut(|Body(n)|, 4);
  }

  /** Whatever the bytes, decoded text reads back and renders to itself. */
  lemma DecodedDecimal(raw: seq<byte>)
    requires DecodeDecimal(raw).Some?
    ensures var t := DecodeDecimal(raw).value; Read(t).Some? && Render(Read(t).value) == t
  {
    hide Read, Render, Unpack;
    ReadRender(Unpack(raw));
    RenderSignless(Unpack(raw));
  }

  /** Minus zero is accepted, decodes to "0", and "0" has other bytes. */
  lemma NegativeZero()
    ensures EncodeDecimalString("-0").Some?
    ensures DecodeDecimal(EncodeDecimalString("-0").value[4..]) == Some("0")
    ensures EncodeDecimalString("0") != EncodeDecimalString("-0")
  {
    hide Render, Placed, Zeros;
    var n := Num(true, 0, 0);
    ReadsMinusZero();
    assert Numeral(16, 0) == [];
    DecimalRoundTrip("-0");
    EncodedBody(n);
    var raw := EncodeDecimalString("-0").value;
    assert raw[4..] == Body(n);
    RendersZero();
  }

  lemma ReadsMinusZero()
    ensures Read("-0") == Some(Num(true, 0, 0))
  {
    var s := "-0";
    TrimsToSelf(s);
    assert s[1..] == "0";
    assert FirstDot("0") == 1 by { assert "0"[1..] == ""; }
    assert "0"[..1] == "0";
    assert MatchUnsigned("0") == Some(Unsigned("0", ""));
    assert "0" + "" == "0";
    assert Val(10, Digits("0")) == 0 by { ZeroDigit(); }
  }

  lemma ZeroDigit()
    ensures Val(10, Digits("0")) == 0
  {
    assert Zeros(1) == "0";
    ZerosValue(1);
  }

  lemma RendersZero()
    ensures Render(Num(true, 0, 0)) == "0"
  {
    ZeroSpelling(0, 0);
    var p := Padded(0, 0);
    assert p == "0";
    assert p[..1] == "0" && p[1..] == "";
  }

  // ---- values normalised to a column type ----

  datatype DecimalType = DecimalType(precision: nat, scale: nat)

  predicate ValidType(t: DecimalType) { 1 <= t.precision <= 38 && t.scale <= t.precision }

  /** The number normalizeDecimalValue reads: one sign at most. */
  function ReadValue(v: string): Option<Num>
  {
    var o := Trim(v);
    var m := MatchUnsigned(if StartsWith(o, '+') || StartsWith(o, '-') then o[1..] else o);
    if m.None? then None else Some(NumOf(StartsWith(o, '-'), m.value))
  }

  function StripZeros(ds: seq<nat>): seq<nat>
  {
    if ds != [] && ds[0] == 0 then StripZeros(ds[1..]) else ds
  }

  predicate AllZero(ds: seq<nat>) { forall i :: 0 <= i < |ds| ==> ds[i] == 0 }

  function Fitted(t: DecimalType, fraction: string): Option<string>
    requires AllDigits(fraction)
  {
    if |fraction| > t.scale then
      if AllZero(Digits(fraction[t.scale..])) then Some(fraction[..t.scale]) else None
    else Some(fraction + Zeros(t.scale - |fraction|))
  }

  function NormalizeDecimalValue(t: DecimalType, v: string): Option<string>
  {
    var o := Trim(v);
    var m := MatchUnsigned(if StartsWith(o, '+') || StartsWith(o, '-') then o[1..] else o);
    if m.None? then None
    else
      var f := Fitted(t, m.value.fraction);
      if f.None? then None
      else
        var kept := StripZeros(Digits(m.value.whole + f.value));
        var length := if kept == [] then 1 else |kept|;
        if length > t.precision then None
        else
          var text := m.value.whole + (if t.scale > 0 then "." + f.value else "");
          Some(if StartsWith(o, '-') then "-" + text else text)
  }

  lemma {:induction false} StripValue(ds: seq<nat>)
    ensures Val(10, StripZeros(ds)) == Val(10, ds)
  {
    if ds != [] && ds[0] == 0 {
      StripValue(ds[1..]);
      ValLeadingZero(10, ds[1..]);
      assert ds == [0] + ds[1..];
    }
  }

  lemma {:induction false} StripBelow(ds: seq<nat>)
    requires Below(10, ds)
    ensures Below(10, StripZeros(ds))
  {
    if ds != [] && ds[0] == 0 {
      StripBelow(ds[1..]);
    }
  }

  /** Fitting the fraction to the column scale rescales the coefficient and loses nothing. */
  lemma FittedValue(t: DecimalType, whole: string, fraction: string)
    requires AllDigits(whole) && AllDigits(fraction) && Fitted(t, fraction).Some?
    ensures var f := Fitted(t, fraction).value;
            && AllDigits(f) && |f| == t.scale
            && Val(10, Digits(whole + f)) * Pow10(|fraction|) == Val(10, Digits(whole + fraction)) * Pow10(t.scale)
  {
    hide Val;
    var f := Fitted(t, fraction).value;
    if |fraction| > t.scale {
      var k := |fraction| - t.scale;
      assert fraction == f + fraction[t.scale..];
      assert Digits(fraction[t.scale..]) == seq(k, _ => 0);
      Rescaled(whole, f, fraction[t.scale..], k);
    } else {
      var k := t.scale - |fraction|;
      assert Digits(Zeros(k)) == seq(k, _ => 0);
      Rescaled(whole, fraction, Zeros(k), k);
    }
  }

  /** Appending k zeros to a fraction multiplies the coefficient by 10^k. */
  lemma Rescaled(whole: string, f: string, zeros: string, k: nat)
    requires AllDigits(whole) && AllDigits(f) && AllDigits(zeros)
    requires Digits(zeros) == seq(k, _ => 0)
    ensures AllDigits(f + zeros)
    ensures Val(10, Digits(whole + f)) * Pow10(|f + zeros|) == Val(10, Digits(whole + (f + zeros))) * Pow10(|f|)
  {
    hide Val, Digits;
    DigitsConcat(f, zeros);
    DigitsConcat(whole, f + zeros);
    DigitsConcat(whole, f);
    var ds := Digits(whole + f);
    assert Digits(whole + (f + zeros)) == ds + seq(k, _ => 0);
    ValTrailingZeros(ds, k);
    Pow10Add(|f|, k);
    MulSwap(Val(10, ds), Pow10(k), Pow10(|f|));
    assert |zeros| == k;
  }

  lemma {:induction false} Pow10Add(a: nat, b: nat)
    ensures Pow10(a + b) == Pow10(a) * Pow10(b)
  {
    if a > 0 {
      Pow10Add(a - 1, b);
      assert 10 * (Pow10(a - 1) * Pow10(b)) == (10 * Pow10(a - 1)) * Pow10(b);
    }
  }

  lemma MulSwap(x: nat, y: nat, z: nat)
    ensures x * y * z == x * (z * y)
  {
  }

  /** Normalising keeps sign and number, fixes the scale and always yields encodable text. */
  lemma NormalizedNumber(t: DecimalType, v: string)
    requires ValidType(t) && NormalizeDecimalValue(t, v).Some?
    ensures ReadValue(v).Some? && Read(NormalizeDecimalValue(t, v).value).Some?
    ensures var n, m := ReadValue(v).value, Read(NormalizeDecimalValue(t, v).value).value;
            m.neg == n.neg && m.scale == t.scale && m.coef * Pow10(n.scale) == n.coef * Pow10(t.scale)
    ensures EncodeDecimalString(NormalizeDecimalValue(t, v).value).Some?
  {
    hide Read, Trim, MatchUnsigned, StripZeros, Fitted, SpelledOut, Val, Body;
    var o := Trim(v);
    var u := MatchUnsigned(if StartsWith(o, '+') || StartsWith(o, '-') then o[1..] else o).value;
    var neg := StartsWith(o, '-');
    var r := NormalizeDecimalValue(t, v).value;
    FittedValue(t, u.whole, u.fraction);
    var f := Fitted(t, u.fraction).value;
    var w := Unsigned(u.whole, f);
    NormalizedText(neg, t, w);
    assert r == if neg then "-" + SpelledOut(w) else SpelledOut(w);
    SmallBody(NumOf(neg, w), Digits(u.whole + f));
  }

  lemma NormalizedText(neg: bool, t: DecimalType, w: Unsigned)
    requires AllDigits(w.whole) && AllDigits(w.fraction) && w.whole != "" && |w.fraction| == t.scale
    ensures w.whole + (if t.scale > 0 then "." + w.fraction else "") == SpelledOut(w)
    ensures Read(if neg then "-" + SpelledOut(w) else SpelledOut(w)) == Some(NumOf(neg, w))
  {
    hide Read, NumOf;
    ReadUnsigned(neg, w);
    assert w.whole + ("." + w.fraction) == w.whole + "." + w.fraction;
  }

  lemma SmallBody(n: Num, ds: seq<nat>)
    requires n.scale <= 38 && Below(10, ds) && n.coef == Val(10, ds)
    requires |StripZeros(ds)| <= 38
    ensures |Body(n)| <= 42
  {
    StripValue(ds);
    StripBelow(ds);
    ValBelowPow(StripZeros(ds));
    NumeralLength(n.coef, |StripZeros(ds)|);
    NumeralShorter(n.coef);
  }

  lemma {:induction false} NumeralLength(n: nat, k: nat)
    requires n < Pow10(k)
    ensures |Numeral(10, n)| <= k
  {
    if n > 0 {
      NumeralLength(n / 10, k - 1);
    }
  }

  predicate SameNumber(a: Num, b: Num)
  {
    a.coef * Pow10(b.scale) == b.coef * Pow10(a.scale)
  }

  /** One column type: two values get the same bytes exactly when they are the same number with
      the same sign mark. Only zero can carry two marks. */
  lemma NormalizedBytesEqual(t: DecimalType, v1: string, v2: string)
    requires ValidType(t) && NormalizeDecimalValue(t, v1).Some? && NormalizeDecimalValue(t, v2).Some?
    ensures ReadValue(v1).Some? && ReadValue(v2).Some?
    ensures EncodeDecimalString(NormalizeDecimalValue(t, v1).value)
            == EncodeDecimalString(NormalizeDecimalValue(t, v2).value)
            <==> SameNumber(ReadValue(v1).value, ReadValue(v2).value)
                 && ReadValue(v1).value.neg == ReadValue(v2).value.neg
  {
    hide Read, ReadValue, NormalizeDecimalValue, Body, Unpack;
    NormalizedNumber(t, v1);
    NormalizedNumber(t, v2);
    var n1, n2 := ReadValue(v1).value, ReadValue(v2).value;
    var m1, m2 := Read(NormalizeDecimalValue(t, v1).value).value, Read(NormalizeDecimalValue(t, v2).value).value;
    CoefficientsAgree(m1.coef, m2.coef, n1.coef, n2.coef, Pow10(n1.scale), Pow10(n2.scale), Pow10(t.scale));
    EncodedBody(m1);
    EncodedBody(m2);
    if EncodeDecimalString(NormalizeDecimalValue(t, v1).value)
        == EncodeDecimalString(NormalizeDecimalValue(t, v2).value) {
      assert (U32(|Body(m1)|) + Body(m1))[4..] == Body(m1);
      assert (U32(|Body(m2)|) + Body(m2))[4..] == Body(m2);
    }
  }

  lemma CoefficientsAgree(k1: nat, k2: nat, c1: nat, c2: nat, p1: nat, p2: nat, p: nat)
    requires p1 >= 1 && p2 >= 1 && p >= 1
    requires k1 * p1 == c1 * p && k2 * p2 == c2 * p
    ensures k1 == k2 <==> c1 * p2 == c2 * p1
  {
    assert (k1 * (p1 * p2)) == (c1 * p2) * p by {
      assert k1 * (p1 * p2) == (k1 * p1) * p2;
      assert (c1 * p) * p2 == (c1 * p2) * p;
    }
    assert (k2 * (p1 * p2)) == (c2 * p1) * p by {
      assert k2 * (p1 * p2) == (k2 * p2) * p1;
      assert (c2 * p) * p1 == (c2 * p1) * p;
    }
    if k1 == k2 {
      CancelFactor(c1 * p2, c2 * p1, p);
    }
    if c1 * p2 == c2 * p1 {
      assert p1 * p2 >= 1;
      CancelFactor(k1, k2, p1 * p2);
    }
  }

  lemma CancelFactor(x: nat, y: nat, p: nat)
    requires p >= 1 && x * p == y * p
    ensures x == y
  {
    if x < y {
      MulAtLeast(p, y - x);
      MulDistributes(p, y, x);
    } else if y < x {
      MulAtLeast(p, x - y);
      MulDistributes(p, x, y);
    }
  }
}
