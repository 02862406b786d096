/** AES-SIV of the Node driver: CMAC, S2V and the CTR pass, over any 16-byte block cipher. */
module Siv {
  import opened Bytes
  import opened Bits
  import opened Gf128

  const Zero: Block := [0, 0, 0, 0, 0, 0, 0, 0, 0, 0, 0, 0, 0, 0, 0, 0]

  // ---- CMAC: section 2.4 of RFC 4493 ----

  function Pad(m: seq<byte>): Block
    requires |m| < 16
  {
    m + [0x80] + seq(15 - |m|, _ => 0 as byte)
  }

  /** ceil(n / 16), but one block for the empty message. */
  function Blocks(n: nat): (k: nat)
    ensures k >= 1 && 16 * (k - 1) <= n <= 16 * k
    ensures 16 * (k - 1) == if n > 0 && n % 16 == 0 then n - 16 else n - n % 16
  {
    if n == 0 then 1 else (n + 15) / 16
  }

  /** The last block: masked by K1 when complete, padded and masked by K2 otherwise. */
  function LastBlock(k1: Block, k2: Block, m: seq<byte>): Block
  {
    if |m| > 0 && |m| % 16 == 0 then Xor16(m[|m| - 16..], k1)
    else Xor16(Pad(m[|m| - |m| % 16..]), k2)
  }

  /** M_1, ..., M_n with the last block treated: all the blocks the chain absorbs. */
  function Partition(k1: Block, k2: Block, m: seq<byte>): (ms: seq<Block>)
    ensures |ms| == Blocks(|m|)
  {
    seq(Blocks(|m|) - 1, i requires 0 <= i < Blocks(|m|) - 1 => m[16 * i..16 * i + 16]) + [LastBlock(k1, k2, m)]
  }

  /** CBC chaining from the zero block. */
  function CbcMac(E: Block -> Block, ms: seq<Block>): Block
  {
    if ms == [] then Zero else E(Xor16(CbcMac(E, ms[..|ms| - 1]), ms[|ms| - 1]))
  }

  function Cmac(E: Block -> Block, m: seq<byte>): Block
  {
    var k1 := Double(E(Zero));
    CbcMac(E, Partition(k1, Double(k1), m))
  }

  method ComputeCmac(E: Block -> Block, msg: seq<byte>) returns (t: Block)
    ensures t == Cmac(E, msg)
  {
    hide Double, Xor16, LastBlock, Blocks;
    var l := E(Zero);
    var k1 := Dbl(l);
    var k2 := Dbl(k1);
    var blocks := Blocks(|msg|);
    var last := LastBlock(k1, k2, msg);
    ghost var ms := Partition(k1, k2, msg);
    var y := Zero;
    var i := 0;
    while i < blocks - 1
      invariant 0 <= i <= blocks - 1
      invariant y == CbcMac(E, ms[..i])
    {
      assert ms[..i + 1][..i] == ms[..i];
      y := E(Xor16(y, msg[16 * i..16 * i + 16]));
      i := i + 1;
    }
    assert ms[..|ms| - 1] == ms[..i];
    t := E(Xor16(y, last));
  }

  // ---- S2V: section 2.4 of RFC 5297 ----

  /** The running value D after absorbing every vector of vs. */
  function Absorb(E: Block -> Block, vs: seq<seq<byte>>): Block
  {
    if vs == [] then Cmac(E, Zero)
    else Xor16(Double(Absorb(E, vs[..|vs| - 1])), Cmac(E, vs[|vs| - 1]))
  }

  /** x^k p in GF(2^128). */
  ghost function MulXPow(p: set<nat>, k: nat): set<nat>
  {
    if k == 0 then p else MulX(MulXPow(p, k - 1))
  }

  /** The sum over i of x^(n-1-i) CMAC(v_i), for n vectors. */
  ghost function Terms(E: Block -> Block, vs: seq<seq<byte>>): set<nat>
  {
    if vs == [] then {}
    else SymDiff(MulXPow(Poly(Cmac(E, vs[0])), |vs| - 1), Terms(E, vs[1..]))
  }

  lemma {:induction false} MulXPowBelow(p: set<nat>, k: nat)
    requires forall e :: e in p ==> e < 128
    ensures forall e :: e in MulXPow(p, k) ==> e < 128
  {
    if k > 0 {
      MulXPowBelow(p, k - 1);
      MulXBelow(MulXPow(p, k - 1));
    }
  }

  lemma {:induction false} TermsSnoc(E: Block -> Block, vs: seq<seq<byte>>, v: seq<byte>)
    ensures forall e :: e in Terms(E, vs) ==> e < 128
    ensures Terms(E, vs + [v]) == SymDiff(MulX(Terms(E, vs)), Poly(Cmac(E, v)))
  {
    hide Cmac, Poly, MulX, SymDiff;
    var c := Poly(Cmac(E, v));
    if vs == [] {
      assert (vs + [v])[1..] == [];
      MulXZero();
      SymDiffEmpty(c);
    } else {
      TermsSnoc(E, vs[1..], v);
      assert (vs + [v])[1..] == vs[1..] + [v];
      var p := Poly(Cmac(E, vs[0]));
      var h, t := MulXPow(p, |vs| - 1), Terms(E, vs[1..]);
      PolyBelow(Cmac(E, vs[0]));
      MulXPowBelow(p, |vs| - 1);
      SymDiffBelow(h, t);
      MulXLinear(h, t);
      SymDiffAssoc(MulX(h), MulX(t), c);
      assert MulXPow(p, |vs|) == MulX(h);
    }
  }

  /** Absorbing n vectors evaluates one polynomial expression:
      D = x^n CMAC(0) + sum over i of x^(n-1-i) CMAC(v_i). */
  lemma {:induction false} AbsorbClosedForm(E: Block -> Block, vs: seq<seq<byte>>)
    ensures Poly(Absorb(E, vs)) == SymDiff(MulXPow(Poly(Cmac(E, Zero)), |vs|), Terms(E, vs))
  {
    hide Double, Xor16, Cmac, Poly, MulX, SymDiff;
    var z := Poly(Cmac(E, Zero));
    if vs == [] {
      SymDiffEmpty(z);
    } else {
      var init, v := vs[..|vs| - 1], vs[|vs| - 1];
      assert vs == init + [v];
      AbsorbClosedForm(E, init);
      var d := Absorb(E, init);
      Xor16Poly(Double(d), Cmac(E, v));
      DoubleIsMulX(d);
      var h, t := MulXPow(z, |init|), Terms(E, init);
      PolyBelow(Cmac(E, Zero));
      MulXPowBelow(z, |init|);
      TermsSnoc(E, init, v);
      MulXLinear(h, t);
      SymDiffAssoc(MulX(h), MulX(t), Poly(Cmac(E, v)));
      assert MulXPow(z, |vs|) == MulX(h);
    }
  }

  /** Sn xorend D: the last 16 bytes of a long final vector are masked. */
  function XorEnd(m: seq<byte>, d: Block): (t: seq<byte>)
    requires |m| >= 16
    ensures |t| == |m|
  {
    m[..|m| - 16] + Xor16(m[|m| - 16..], d)
  }

  function S2V(E: Block -> Block, vs: seq<seq<byte>>): Block
    requires vs != []
  {
    var last, d := vs[|vs| - 1], Absorb(E, vs[..|vs| - 1]);
    Cmac(E, if |last| >= 16 then XorEnd(last, d) else Xor16(Double(d), Pad(last)))
  }

  method MaskTail(last: seq<byte>, d: Block) returns (t: seq<byte>)
    requires |last| >= 16
    ensures t == XorEnd(last, d)
  {
    hide Xor;
    var buf := new byte[|last|](k requires 0 <= k < |last| => last[k]);
    var off := |last| - 16;
    var k := 0;
    while k < 16
      invariant 0 <= k <= 16
      invariant forall j :: 0 <= j < off ==> buf[j] == last[j]
      invariant forall j :: off <= j < off + k ==> buf[j] == Xor(last[j], d[j - off])
      invariant forall j :: off + k <= j < |last| ==> buf[j] == last[j]
    {
      buf[off + k] := Xor(buf[off + k], d[k]);
      k := k + 1;
    }
    t := buf[..];
  }

  /** The loop as written. An empty vector list is the one input it does not accept: it reads the
      length of a missing last vector and throws. */
  method ComputeS2V(E: Block -> Block, vectors: seq<seq<byte>>) returns (r: Option<Block>)
    ensures r.None? <==> vectors == []
    ensures vectors != [] ==> r == Some(S2V(E, vectors))
  {
    hide Double, Xor16, Cmac, Pad, XorEnd;
    var d := ComputeCmac(E, Zero);
    var n := |vectors|;
    var i := 0;
    while i < n - 1
      invariant 0 <= i <= n && (n > 0 ==> i <= n - 1)
      invariant d == Absorb(E, vectors[..i])
    {
      var dd := Dbl(d);
      var c := ComputeCmac(E, vectors[i]);
      assert vectors[..i + 1][..i] == vectors[..i];
      d := Xor16(dd, c);
      i := i + 1;
    }
    if n == 0 {
      return None;
    }
    var last := vectors[n - 1];
    var t: seq<byte>;
    if |last| >= 16 {
      t := MaskTail(last, d);
    } else {
      var dd := Dbl(d);
      t := Xor16(dd, Pad(last));
    }
    var v := ComputeCmac(E, t);
    r := Some(v);
  }

  // ---- the CTR pass ----

  /** The synthetic IV with bits 31 and 63 cleared, as section 2.5 of RFC 5297 asks. */
  function CounterBlock(tag: Block): Block
  {
    tag[8 := tag[8] % 128][12 := tag[12] % 128]
  }

  /** XOR with the keystream of the masked tag; the same operation encrypts and decrypts. */
  function Crypt(keystream: (seq<byte>, Block, nat) -> byte, key: seq<byte>, input: seq<byte>,
                 tag: Block): (r: seq<byte>)
    ensures |r| == |input|
  {
    seq(|input|, i requires 0 <= i < |input| => Xor(input[i], keystream(key, CounterBlock(tag), i)))
  }

  lemma CryptInvolutive(keystream: (seq<byte>, Block, nat) -> byte, key: seq<byte>, input: seq<byte>, tag: Block)
    ensures Crypt(keystream, key, Crypt(keystream, key, input, tag), tag) == input
  {
    forall i | 0 <= i < |input| ensures Crypt(keystream, key, Crypt(keystream, key, input, tag), tag)[i] == input[i] {
      XorCancels(input[i], keystream(key, CounterBlock(tag), i));
    }
  }
}
