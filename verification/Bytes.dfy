/** Bytes, little-endian integers and small sequence facts shared by every wire format. */
module Bytes {

  newtype byte = x: int | 0 <= x < 256

  datatype Option<+T> = None | Some(value: T)

  function Pow256(w: nat): (p: nat)
    ensures p >= 1
  {
    if w == 0 then 1 else 256 * Pow256(w - 1)
  }

  /** The widths the formats use, evaluated once. */
  lemma Pow256Values()
    ensures Pow256(1) == 0x100
    ensures Pow256(2) == 0x1_0000
    ensures Pow256(4) == 0x1_0000_0000
    ensures Pow256(8) == 0x1_0000_0000_0000_0000
  {
    assert Pow256(3) == 0x100_0000;
    assert Pow256(4) == 256 * Pow256(3);
    assert Pow256(5) == 256 * Pow256(4);
    assert Pow256(6) == 256 * Pow256(5);
    assert Pow256(7) == 256 * Pow256(6);
    assert Pow256(8) == 256 * Pow256(7);
  }

  /** The low `w` bytes of n, least significant first: a fixed-width write that wraps. */
  function PutLE(n: nat, w: nat): (s: seq<byte>)
    ensures |s| == w
  {
    if w == 0 then [] else [(n % 256) as byte] + PutLE(n / 256, w - 1)
  }

  function GetLE(s: seq<byte>): (n: nat)
  {
    if s == [] then 0 else s[0] as int + 256 * GetLE(s[1..])
  }

  lemma {:induction false} GetPut(n: nat, w: nat)
    ensures GetLE(PutLE(n, w)) == n % Pow256(w)
    ensures n < Pow256(w) ==> GetLE(PutLE(n, w)) == n
  {
    if w == 0 {
    } else {
      GetPut(n / 256, w - 1);
      var p := Pow256(w - 1);
      assert PutLE(n, w)[1..] == PutLE(n / 256, w - 1);
      SplitMod(n, p);
    }
  }

  /** n mod 256p, read off from its quotient and remainder by 256. */
  lemma SplitMod(n: nat, p: nat)
    requires p >= 1
    ensures n % (256 * p) == n % 256 + 256 * ((n / 256) % p)
    ensures n < 256 * p ==> n / 256 < p
  {
    var q, r := (n / 256) / p, (n / 256) % p;
    assert n / 256 == q * p + r;
    var low := n % 256 + 256 * r;
    assert n == 256 * (q * p + r) + n % 256;
    assert 256 * (q * p) == (256 * p) * q;
    assert n == (256 * p) * q + low;
    assert 0 <= low < 256 * p;
    DivModUnique(256 * p, q, low);
  }

  lemma DivModUnique(b: nat, q: int, r: int)
    requires 0 <= r < b
    ensures (b * q + r) / b == q && (b * q + r) % b == r
  {
    var n := b * q + r;
    QuotientUnique(b, q, r, n / b, n % b);
  }

  lemma QuotientUnique(b: nat, q: int, r: int, q': int, r': int)
    requires 0 <= r < b && 0 <= r' < b
    requires b * q + r == b * q' + r'
    ensures q == q' && r == r'
  {
    MulDistributes(b, q, q');
    if q > q' {
      MulAtLeast(b, q - q');
    } else if q < q' {
      MulAtLeast(b, q' - q);
      MulDistributes(b, q', q);
    }
  }

  lemma MulDistributes(b: int, x: int, y: int)
    ensures b * (x - y) == b * x - b * y
  {
  }

  lemma MulAtLeast(b: nat, d: int)
    requires d >= 1
    ensures b * d >= b
  {
  }

  lemma {:induction false} PutGet(s: seq<byte>)
    ensures PutLE(GetLE(s), |s|) == s
    ensures GetLE(s) < Pow256(|s|)
  {
    if s != [] {
      PutGet(s[1..]);
      assert s == [s[0]] + s[1..];
    }
  }

  function U16(n: nat): (s: seq<byte>)
    ensures |s| == 2
  {
    PutLE(n, 2)
  }

  function U32(n: nat): (s: seq<byte>)
    ensures |s| == 4
  {
    PutLE(n, 4)
  }

  function U64(n: nat): (s: seq<byte>)
    ensures |s| == 8
  {
    PutLE(n, 8)
  }

  const TWO63 := 0x8000_0000_0000_0000
  const TWO64 := 0x1_0000_0000_0000_0000

  predicate FitsI64(n: int) { -TWO63 <= n < TWO63 }

  /** Two's complement in eight bytes: `uint64(n)` written, `int64(u)` read. */
  function I64(n: int): (s: seq<byte>)
    requires FitsI64(n)
    ensures |s| == 8
  {
    U64(if n < 0 then n + TWO64 else n)
  }

  function GetI64(s: seq<byte>): (n: int)
    requires |s| == 8
  {
    var u := GetLE(s);
    if u >= TWO63 then u - TWO64 else u
  }

  lemma I64RoundTrip(n: int)
    requires FitsI64(n)
    ensures GetI64(I64(n)) == n
  {
    Pow256Values();
    GetPut(if n < 0 then n + TWO64 else n, 8);
  }

  lemma I64Exact(s: seq<byte>)
    requires |s| == 8
    ensures FitsI64(GetI64(s)) && I64(GetI64(s)) == s
  {
    Pow256Values();
    PutGet(s);
  }

  /** Flattens a list of byte strings. */
  function Flatten(parts: seq<seq<byte>>): (s: seq<byte>)
  {
    if parts == [] then [] else parts[0] + Flatten(parts[1..])
  }

  lemma {:induction false} FlattenAppend(a: seq<seq<byte>>, b: seq<seq<byte>>)
    ensures Flatten(a + b) == Flatten(a) + Flatten(b)
  {
    if a == [] {
      assert a + b == b;
    } else {
      FlattenAppend(a[1..], b);
      assert (a + b)[1..] == a[1..] + b;
      assert a[0] + (Flatten(a[1..]) + Flatten(b)) == a[0] + Flatten(a[1..]) + Flatten(b);
    }
  }

  lemma FlattenSnoc(a: seq<seq<byte>>, x: seq<byte>)
    ensures Flatten(a + [x]) == Flatten(a) + x
  {
    FlattenAppend(a, [x]);
    assert Flatten([x]) == x;
  }
}
