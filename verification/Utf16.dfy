/** JavaScript strings: sequences of sixteen-bit units, read as Unicode text and written back. */
module Utf16 {
  import Utf8

  newtype unit = x: int | 0 <= x < 0x1_0000

  type Text = seq<unit>

  predicate High(u: unit) { 0xd800 <= u < 0xdc00 }

  predicate Low(u: unit) { 0xdc00 <= u < 0xe000 }

  /** A surrogate pair at the head. */
  predicate Paired(t: Text) { |t| >= 2 && High(t[0]) && Low(t[1]) }

  const REPLACEMENT: char := '\U{fffd}'

  function PairChar(hi: unit, lo: unit): (c: char)
    requires High(hi) && Low(lo)
    ensures c as int == 0x1_0000 + (hi as int - 0xd800) * 0x400 + (lo as int - 0xdc00)
  {
    (0x1_0000 + (hi as int - 0xd800) * 0x400 + (lo as int - 0xdc00)) as char
  }

  /** The scalar values an encoder sees: a surrogate without its partner counts as U+FFFD. */
  function Scalars(t: Text): string
  {
    if t == [] then ""
    else if Paired(t) then [PairChar(t[0], t[1])] + Scalars(t[2..])
    else [if High(t[0]) || Low(t[0]) then REPLACEMENT else t[0] as int as char] + Scalars(t[1..])
  }

  function UnitsOf(c: char): (r: Text)
    ensures 1 <= |r| <= 2
  {
    var n := c as int;
    if n < 0x1_0000 then [n as unit]
    else [(0xd800 + (n - 0x1_0000) / 0x400) as unit, (0xdc00 + (n - 0x1_0000) % 0x400) as unit]
  }

  /** What a decoder makes of text. */
  function Units(s: string): Text
  {
    if s == "" then [] else UnitsOf(s[0]) + Units(s[1..])
  }

  /** Every surrogate has its partner. */
  predicate WellFormed(t: Text)
  {
    if t == [] then true
    else if Paired(t) then WellFormed(t[2..])
    else !High(t[0]) && !Low(t[0]) && WellFormed(t[1..])
  }

  lemma UnitsOfPair(hi: unit, lo: unit)
    requires High(hi) && Low(lo)
    ensures UnitsOf(PairChar(hi, lo)) == [hi, lo]
  {
    var n := (hi as int - 0xd800) * 0x400 + (lo as int - 0xdc00);
    assert n / 0x400 == hi as int - 0xd800 && n % 0x400 == lo as int - 0xdc00;
  }

  /** Reading and writing back keeps the length, and keeps the string if and only if it is well formed. */
  lemma {:induction false} UnitsScalars(t: Text)
    ensures |Units(Scalars(t))| == |t| && (Units(Scalars(t)) == t <==> WellFormed(t))
  {
    hide UnitsOf, PairChar;
    if t == [] {
    } else if Paired(t) {
      UnitsOfPair(t[0], t[1]);
      UnitsScalars(t[2..]);
      Prepended([t[0], t[1]], [t[0], t[1]], Units(Scalars(t[2..])), t[2..]);
      assert t == [t[0], t[1]] + t[2..];
      assert Scalars(t)[1..] == Scalars(t[2..]);
    } else {
      var c := Scalars(t)[0];
      UnitsOfOne(t[0], c);
      UnitsScalars(t[1..]);
      Prepended(UnitsOf(c), [t[0]], Units(Scalars(t[1..])), t[1..]);
      assert t == [t[0]] + t[1..];
      assert Scalars(t)[1..] == Scalars(t[1..]);
    }
  }

  lemma UnitsOfOne(u: unit, c: char)
    requires c == if High(u) || Low(u) then REPLACEMENT else u as int as char
    ensures |UnitsOf(c)| == 1 && (UnitsOf(c) == [u] <==> !High(u) && !Low(u))
  {
  }

  lemma Prepended(a: Text, b: Text, x: Text, y: Text)
    requires |a| == |b|
    ensures a + x == b + y <==> a == b && x == y
  {
    assert (a + x)[..|a|] == a && (b + y)[..|b|] == b && (a + x)[|a|..] == x && (b + y)[|b|..] == y;
  }

  /** Every text is the reading of a string. */
  lemma {:induction false} ScalarsUnits(s: string)
    ensures Scalars(Units(s)) == s && WellFormed(Units(s))
  {
    if s != "" {
      ScalarsUnits(s[1..]);
      var u, rest := UnitsOf(s[0]), Units(s[1..]);
      assert (u + rest)[|u|..] == rest;
      assert s == [s[0]] + s[1..];
    }
  }

  // ---- the byte-order mark ----

  const MARK: unit := 0xfeff

  predicate Marked(t: Text) { t != [] && t[0] == MARK }

  lemma MarkReads(t: Text)
    ensures Utf8.Marked(Scalars(t)) <==> Marked(t)
    ensures Units(Utf8.DropMark(Scalars(t))) == if Marked(t) then Units(Scalars(t))[1..] else Units(Scalars(t))
  {
    if Marked(t) {
      assert Scalars(t)[0] == Utf8.MARK && UnitsOf(Utf8.MARK) == [MARK];
    }
  }

  /** What decoding an encoded string gives: the same string if and only if it is well formed and does not begin with
      a mark. */
  lemma ComesBack(t: Text)
    ensures Units(Utf8.DropMark(Scalars(t))) == t <==> WellFormed(t) && !Marked(t)
  {
    hide Scalars, Units, WellFormed;
    UnitsScalars(t);
    MarkReads(t);
  }

  lemma LoneReads()
    ensures Units(Utf8.DropMark(Scalars([0xd800]))) == [0xfffd]
  {
    var t: Text := [0xd800];
    assert t[1..] == [] && Scalars(t) == [REPLACEMENT] + "";
    var s := [REPLACEMENT];
    assert Scalars(t) == s && s[1..] == "" && Units(s) == UnitsOf(REPLACEMENT) + [];
  }
}
