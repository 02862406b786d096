/** Bits of natural numbers and of bytes. */
module Bits {
  import opened Bytes

  function Bit(n: nat, k: nat): bool
  {
    if k == 0 then n % 2 == 1 else Bit(n / 2, k - 1)
  }

  function Pow2(w: nat): (p: nat)
    ensures p >= 1
  {
    if w == 0 then 1 else 2 * Pow2(w - 1)
  }

  lemma Pow2Eight()
    ensures Pow2(7) == 128 && Pow2(8) == 256
  {
    assert Pow2(4) == 16;
    assert Pow2(6) == 64;
  }

  predicate BitOf(b: byte, k: nat) { Bit(b as int, k) }

  function XorBits(a: nat, b: nat, w: nat): (r: nat)
    ensures r < Pow2(w)
  {
    if w == 0 then 0 else (if a % 2 != b % 2 then 1 else 0) + 2 * XorBits(a / 2, b / 2, w - 1)
  }

  function Xor(a: byte, b: byte): byte
  {
    Pow2Eight();
    XorBits(a as int, b as int, 8) as byte
  }

  lemma {:induction false} XorBitsBit(a: nat, b: nat, w: nat, k: nat)
    requires k < w
    ensures Bit(XorBits(a, b, w), k) == (Bit(a, k) != Bit(b, k))
  {
    if k > 0 {
      XorBitsBit(a / 2, b / 2, w - 1, k - 1);
    }
  }

  lemma XorBit(a: byte, b: byte, k: nat)
    requires k < 8
    ensures BitOf(Xor(a, b), k) == (BitOf(a, k) != BitOf(b, k))
  {
    XorBitsBit(a as int, b as int, 8, k);
  }

  lemma {:induction false} BitsDetermine(a: nat, b: nat, w: nat)
    requires a < Pow2(w) && b < Pow2(w)
    requires forall k: nat :: k < w ==> Bit(a, k) == Bit(b, k)
    ensures a == b
  {
    if w > 0 {
      assert Bit(a, 0) == Bit(b, 0);
      forall k: nat | k < w - 1 ensures Bit(a / 2, k) == Bit(b / 2, k) {
        assert Bit(a, k + 1) == Bit(b, k + 1);
      }
      BitsDetermine(a / 2, b / 2, w - 1);
    }
  }

  lemma ByteDetermined(a: byte, b: byte)
    requires forall k: nat :: k < 8 ==> BitOf(a, k) == BitOf(b, k)
    ensures a == b
  {
    Pow2Eight();
    var x, y := a as int, b as int;
    forall k: nat | k < 8 ensures Bit(x, k) == Bit(y, k) {
      assert BitOf(a, k) == BitOf(b, k);
    }
    BitsDetermine(x, y, 8);
  }

  lemma XorCancels(a: byte, b: byte)
    ensures Xor(Xor(a, b), b) == a
  {
    forall k: nat | k < 8 ensures BitOf(Xor(Xor(a, b), b), k) == BitOf(a, k) {
      XorBit(Xor(a, b), b, k);
      XorBit(a, b, k);
    }
    ByteDetermined(Xor(Xor(a, b), b), a);
  }
}
