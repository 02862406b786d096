/** Sixteen-byte blocks as elements of GF(2^128), and doubling.

    The reference side is algebra. An element of GF(2)[x] is the finite set of its exponents, its
    addition is symmetric difference, and a block is the polynomial its 128 bits spell. Doubling is
    then multiplication by x modulo x^128 + x^7 + x^2 + x + 1, as section 2.3 of RFC 5297 defines it.
  */
module Gf128 {
  import opened Bytes
  import opened Bits

  type Block = s: seq<byte> | |s| == 16 witness [0, 0, 0, 0, 0, 0, 0, 0, 0, 0, 0, 0, 0, 0, 0, 0]

  function SymDiff(a: set<nat>, b: set<nat>): set<nat>
  {
    (a - b) + (b - a)
  }

  lemma SymDiffAssoc(a: set<nat>, b: set<nat>, c: set<nat>)
    ensures SymDiff(SymDiff(a, b), c) == SymDiff(a, SymDiff(b, c))
  {
  }

  lemma SymDiffEmpty(a: set<nat>)
    ensures SymDiff(a, {}) == a && SymDiff({}, a) == a
  {
  }

  ghost function Poly(b: Block): set<nat>
  {
    set e: nat | e < 128 && BitOf(b[15 - e / 8], e % 8)
  }

  lemma PolyBelow(b: Block)
    ensures forall e :: e in Poly(b) ==> e < 128
  {
  }

  lemma PolyAt(b: Block, i: nat, k: nat)
    requires i < 16 && k < 8
    ensures 8 * (15 - i) + k in Poly(b) <==> BitOf(b[i], k)
  {
    var e := 8 * (15 - i) + k;
    assert e / 8 == 15 - i && e % 8 == k;
  }

  const Modulus: set<nat> := {128, 7, 2, 1, 0}

  ghost function Shift(p: set<nat>): set<nat>
  {
    set e | e in p :: e + 1
  }

  /** Multiplication by x in GF(2^128). */
  ghost function MulX(p: set<nat>): set<nat>
  {
    if 128 in Shift(p) then SymDiff(Shift(p), Modulus) else Shift(p)
  }

  lemma ShiftMember(p: set<nat>, e: nat)
    ensures e in Shift(p) <==> e >= 1 && e - 1 in p
  {
    if e >= 1 && e - 1 in p {
      assert (e - 1) + 1 == e;
    }
  }

  lemma MulXMember(p: set<nat>, e: nat)
    requires forall d :: d in p ==> d < 128
    ensures e in MulX(p) <==>
            e < 128 && ((e >= 1 && e - 1 in p) != (127 in p && e in {7, 2, 1, 0}))
  {
    ShiftMember(p, e);
    ShiftMember(p, 128);
  }

  /** Multiplication by x is linear over GF(2). */
  lemma MulXLinear(p: set<nat>, q: set<nat>)
    requires forall e :: e in p ==> e < 128
    requires forall e :: e in q ==> e < 128
    ensures MulX(SymDiff(p, q)) == SymDiff(MulX(p), MulX(q))
  {
    forall e: nat ensures e in MulX(SymDiff(p, q)) <==> e in SymDiff(MulX(p), MulX(q)) {
      MulXMember(p, e);
      MulXMember(q, e);
      MulXMember(SymDiff(p, q), e);
    }
  }

  lemma MulXZero()
    ensures MulX({}) == {}
  {
    assert Shift({}) == {};
  }

  lemma SymDiffBelow(p: set<nat>, q: set<nat>)
    requires forall e :: e in p ==> e < 128
    requires forall e :: e in q ==> e < 128
    ensures forall e :: e in SymDiff(p, q) ==> e < 128
  {
  }

  lemma MulXBelow(p: set<nat>)
    requires forall e :: e in p ==> e < 128
    ensures forall e :: e in MulX(p) ==> e < 128
  {
    forall e | e in MulX(p) ensures e < 128 { MulXMember(p, e); }
  }

  // ---- doubling ----

  function Carry(b: Block, i: nat): byte
    requires i < 16
  {
    if i == 15 then 0 else b[i + 1] / 128
  }

  function Shl(b: byte, carry: byte): byte
    requires carry <= 1
  {
    ((2 * (b as int)) % 256 + carry as int) as byte
  }

  function ShiftLeft(b: Block): Block
  {
    seq(16, i requires 0 <= i < 16 => Shl(b[i], Carry(b, i)))
  }

  function Double(b: Block): Block
  {
    var s := ShiftLeft(b);
    if b[0] >= 128 then s[15 := Xor(s[15], 0x87)] else s
  }

  lemma {:induction false} BitIgnoresHigh(n: nat, w: nat, j: nat)
    requires j < w
    ensures Bit(n + Pow2(w), j) == Bit(n, j)
  {
    if j > 0 {
      assert (n + Pow2(w)) / 2 == n / 2 + Pow2(w - 1);
      BitIgnoresHigh(n / 2, w - 1, j - 1);
    }
  }

  lemma TopBit(n: nat)
    requires n < 256
    ensures Bit(n, 7) <==> n >= 128
  {
    Pow2Eight();
    HighBit(n, 7);
  }

  lemma {:induction false} HighBit(n: nat, w: nat)
    requires n < Pow2(w + 1)
    ensures Bit(n, w) <==> n >= Pow2(w)
  {
    if w > 0 {
      HighBit(n / 2, w - 1);
    }
  }

  lemma ShlBit(b: byte, carry: byte, k: nat)
    requires carry <= 1 && k < 8
    ensures BitOf(Shl(b, carry), k) == if k == 0 then carry == 1 else BitOf(b, k - 1)
  {
    var n := b as int;
    if k > 0 {
      assert Shl(b, carry) as int / 2 == n % 128;
      Pow2Eight();
      if n >= 128 {
        assert n % 128 == n - 128;
        BitIgnoresHigh(n - 128, 7, k - 1);
      }
    }
  }

  lemma ShiftLeftBit(b: Block, i: nat, k: nat)
    requires i < 16 && k < 8
    ensures BitOf(ShiftLeft(b)[i], k) ==
            if k > 0 then BitOf(b[i], k - 1) else i < 15 && BitOf(b[i + 1], 7)
  {
    ShlBit(b[i], Carry(b, i), k);
    if k == 0 && i < 15 {
      TopBit(b[i + 1] as int);
    }
  }

  /** Moving every bit of b one place up in s adds one to each exponent. */
  lemma ShiftedPoly(b: Block, s: Block, i: nat, k: nat)
    requires i < 16 && k < 8
    requires BitOf(s[i], k) == if k > 0 then BitOf(b[i], k - 1) else i < 15 && BitOf(b[i + 1], 7)
    ensures var e := 8 * (15 - i) + k;
            e in Poly(s) <==> e >= 1 && e - 1 in Poly(b)
  {
    PolyAt(s, i, k);
    if k > 0 {
      PolyAt(b, i, k - 1);
    } else if i < 15 {
      PolyAt(b, i + 1, 7);
    }
  }

  /** Flipping the bits of 0x87 in the last byte of s adds x^7 + x^2 + x + 1. */
  lemma ReducedPoly(s: Block, d: Block, i: nat, k: nat)
    requires i < 16 && k < 8
    requires d == s[15 := Xor(s[15], 0x87)]
    ensures var e := 8 * (15 - i) + k;
            e in Poly(d) <==> (e in Poly(s)) != (e in {7, 2, 1, 0})
  {
    PolyAt(s, i, k);
    PolyAt(d, i, k);
    if i == 15 {
      XorBit(s[15], 0x87, k);
      Bits87(k);
    }
  }

  /** The byte-carry loop is multiplication by x in GF(2^128), for every block. */
  lemma DoubleIsMulX(b: Block)
    ensures Poly(Double(b)) == MulX(Poly(b))
  {
    forall e: nat | e < 128 ensures e in Poly(Double(b)) <==> e in MulX(Poly(b)) { DoubleCoefficient(b, e); }
    MulXBelow(Poly(b));
  }

  lemma DoubleCoefficient(b: Block, e: nat)
    requires e < 128
    ensures e in Poly(Double(b)) <==> e in MulX(Poly(b))
  {
    hide BitOf, Poly, MulX, ShiftLeft, Xor;
    var i, k, s := 15 - e / 8, e % 8, ShiftLeft(b);
    assert 8 * (15 - i) + k == e;
    TopCoefficient(b);
    PolyBelow(b);
    MulXMember(Poly(b), e);
    ShiftLeftBit(b, i, k);
    ShiftedPoly(b, s, i, k);
    if b[0] >= 128 {
      ReducedPoly(s, Double(b), i, k);
    }
  }

  lemma TopCoefficient(b: Block)
    ensures 127 in Poly(b) <==> b[0] >= 128
  {
    TopBit(b[0] as int);
    PolyAt(b, 0, 7);
  }

  lemma Bits87(k: nat)
    requires k < 8
    ensures BitOf(0x87, k) <==> k in {7, 2, 1, 0}
  {
    assert Bit(0x87, 0) && Bit(0x87, 1) && Bit(0x87, 2) && !Bit(0x87, 3);
    assert !Bit(0x87, 4) && !Bit(0x87, 5) && !Bit(0x87, 6) && Bit(0x87, 7);
  }

  /** The loop over the buffer, least significant byte last. */
  method Dbl(block: Block) returns (out: Block)
    ensures out == Double(block)
  {
    hide Shl, Xor;
    var buf := new byte[16];
    var carry: byte := 0;
    var i := 15;
    while i >= 0
      invariant -1 <= i <= 15
      invariant carry == if i == 15 then 0 else block[i + 1] / 128
      invariant forall j :: i < j < 16 ==> buf[j] == ShiftLeft(block)[j]
    {
      buf[i] := Shl(block[i], carry);
      carry := block[i] / 128;
      i := i - 1;
    }
    assert buf[..] == ShiftLeft(block);
    if carry != 0 {
      buf[15] := Xor(buf[15], 0x87);
    }
    out := buf[..];
  }

  function Xor16(a: Block, b: Block): Block
  {
    seq(16, i requires 0 <= i < 16 => Xor(a[i], b[i]))
  }

  lemma Xor16Poly(a: Block, b: Block)
    ensures Poly(Xor16(a, b)) == SymDiff(Poly(a), Poly(b))
  {
    forall e: nat | e < 128 ensures e in Poly(Xor16(a, b)) <==> e in SymDiff(Poly(a), Poly(b)) {
      XorBit(a[15 - e / 8], b[15 - e / 8], e % 8);
    }
  }
}
