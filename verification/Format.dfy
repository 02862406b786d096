/** Two-way binary formats built from parts. A lawful codec is an encoder and a strict decoder that
    undo each other: decoding an encoded value returns it and leaves the bytes behind it, and
    whatever the decoder accepts is the encoding of what it returns. */
module Format {
  import opened Bytes

  datatype Parsed<+T> = Parsed(value: T, rest: seq<byte>) | Bad

  datatype Codec<!T> = Codec(enc: T -> seq<byte>, dec: seq<byte> -> Parsed<T>, ok: T -> bool)

  ghost predicate Undoes<T(!new)>(c: Codec<T>)
  {
    forall t, rest :: c.ok(t) ==> c.dec(c.enc(t) + rest) == Parsed(t, rest)
  }

  ghost predicate Strict<T(!new)>(c: Codec<T>)
  {
    forall raw :: c.dec(raw).Parsed? ==> c.ok(c.dec(raw).value) && raw == c.enc(c.dec(raw).value) + c.dec(raw).rest
  }

  ghost predicate Lawful<T(!new)>(c: Codec<T>) { Undoes(c) && Strict(c) }

  // ---- atoms ----

  /** Exactly n raw bytes. */
  function Raw(n: nat): Codec<seq<byte>>
  {
    Codec((s: seq<byte>) => s,
          (raw: seq<byte>) => if |raw| < n then Bad else Parsed(raw[..n], raw[n..]),
          (s: seq<byte>) => |s| == n)
  }

  lemma RawLawful(n: nat)
    ensures Lawful(Raw(n))
  {
    var c := Raw(n);
    forall t, rest | c.ok(t) ensures c.dec(c.enc(t) + rest) == Parsed(t, rest) {
      assert (t + rest)[..n] == t && (t + rest)[n..] == rest;
    }
  }

  /** A little-endian unsigned integer of w bytes, at most max. */
  function UInt(w: nat, max: nat): Codec<nat>
  {
    Codec((n: nat) => PutLE(n, w),
          (raw: seq<byte>) => if |raw| < w || GetLE(raw[..w]) > max then Bad else Parsed(GetLE(raw[..w]), raw[w..]),
          (n: nat) => n <= max)
  }

  lemma UIntLawful(w: nat, max: nat)
    requires max < Pow256(w)
    ensures Lawful(UInt(w, max))
  {
    hide PutLE, GetLE, Pow256;
    var c := UInt(w, max);
    forall n: nat, rest | c.ok(n) ensures c.dec(c.enc(n) + rest) == Parsed(n, rest) {
      GetPut(n, w);
      var e := PutLE(n, w);
      assert (e + rest)[..w] == e && (e + rest)[w..] == rest;
    }
    forall raw | c.dec(raw).Parsed? ensures c.ok(c.dec(raw).value) && raw == c.enc(c.dec(raw).value) + c.dec(raw).rest {
      PutGet(raw[..w]);
    }
  }

  /** A 64-bit two's complement integer. */
  function Int64(): Codec<int>
  {
    Codec((n: int) => if FitsI64(n) then I64(n) else [],
          (raw: seq<byte>) => if |raw| < 8 then Bad else Parsed(GetI64(raw[..8]), raw[8..]),
          (n: int) => FitsI64(n))
  }

  lemma Int64Lawful()
    ensures Lawful(Int64())
  {
    hide I64, GetI64;
    var c := Int64();
    forall n, rest | c.ok(n) ensures c.dec(c.enc(n) + rest) == Parsed(n, rest) {
      I64RoundTrip(n);
      var e := I64(n);
      assert (e + rest)[..8] == e && (e + rest)[8..] == rest;
    }
    forall raw | c.dec(raw).Parsed? ensures c.ok(c.dec(raw).value) && raw == c.enc(c.dec(raw).value) + c.dec(raw).rest {
      I64Exact(raw[..8]);
    }
  }

  /** A byte string behind its 16-bit length, at most max bytes. */
  function Text(max: nat): Codec<seq<byte>>
  {
    Codec((s: seq<byte>) => U16(|s|) + s,
          (raw: seq<byte>) =>
            if |raw| < 2 then Bad
            else
              var n := GetLE(raw[..2]);
              if n > max || |raw| < 2 + n then Bad else Parsed(raw[2..2 + n], raw[2 + n..]),
          (s: seq<byte>) => |s| <= max)
  }

  lemma TextLawful(max: nat)
    requires max < 0x1_0000
    ensures Lawful(Text(max))
  {
    hide PutLE, GetLE;
    var c := Text(max);
    Pow256Values();
    forall s, rest | c.ok(s) ensures c.dec(c.enc(s) + rest) == Parsed(s, rest) {
      GetPut(|s|, 2);
      var e := U16(|s|) + s + rest;
      assert e[..2] == U16(|s|) && e[2..2 + |s|] == s && e[2 + |s|..] == rest;
    }
    forall raw | c.dec(raw).Parsed? ensures c.ok(c.dec(raw).value) && raw == c.enc(c.dec(raw).value) + c.dec(raw).rest {
      PutGet(raw[..2]);
      var n := GetLE(raw[..2]);
      assert raw[2..] == raw[2..2 + n] + raw[2 + n..];
      assert raw == raw[..2] + raw[2..];
    }
  }

  /** One byte. */
  function Octet(): Codec<byte>
  {
    Codec((b: byte) => [b], (raw: seq<byte>) => if raw == [] then Bad else Parsed(raw[0], raw[1..]), (b: byte) => true)
  }

  lemma OctetLawful()
    ensures Lawful(Octet())
  {
    var c := Octet();
    forall b, rest ensures c.dec(c.enc(b) + rest) == Parsed(b, rest) {
      assert ([b] + rest)[1..] == rest;
    }
  }

  /** A byte that is 0 or 1. */
  function Flag(): Codec<bool>
  {
    Codec((b: bool) => if b then [1] else [0],
          (raw: seq<byte>) => if raw == [] || raw[0] > 1 then Bad else Parsed(raw[0] == 1, raw[1..]),
          (b: bool) => true)
  }

  lemma FlagLawful()
    ensures Lawful(Flag())
  {
    var c := Flag();
    forall b, rest ensures c.dec(c.enc(b) + rest) == Parsed(b, rest) {
      assert (c.enc(b) + rest)[1..] == rest;
    }
  }

  // ---- combinations ----

  function Pair<A, B>(a: Codec<A>, b: Codec<B>): Codec<(A, B)>
  {
    Codec((p: (A, B)) => a.enc(p.0) + b.enc(p.1),
          (raw: seq<byte>) =>
            match a.dec(raw)
            case Bad => Bad
            case Parsed(x, r1) =>
              match b.dec(r1)
              case Bad => Bad
              case Parsed(y, r2) => Parsed((x, y), r2),
          (p: (A, B)) => a.ok(p.0) && b.ok(p.1))
  }

  lemma PairLawful<A(!new), B(!new)>(a: Codec<A>, b: Codec<B>)
    requires Lawful(a) && Lawful(b)
    ensures Lawful(Pair(a, b))
  {
    var c := Pair(a, b);
    forall p, rest | c.ok(p) ensures c.dec(c.enc(p) + rest) == Parsed(p, rest) {
      assert c.enc(p) + rest == a.enc(p.0) + (b.enc(p.1) + rest);
      assert a.dec(a.enc(p.0) + (b.enc(p.1) + rest)) == Parsed(p.0, b.enc(p.1) + rest);
      assert b.dec(b.enc(p.1) + rest) == Parsed(p.1, rest);
    }
    forall raw | c.dec(raw).Parsed? ensures c.ok(c.dec(raw).value) && raw == c.enc(c.dec(raw).value) + c.dec(raw).rest {
      var pa := a.dec(raw);
      var pb := b.dec(pa.rest);
      assert raw == a.enc(pa.value) + pa.rest;
      assert pa.rest == b.enc(pb.value) + pb.rest;
      assert a.enc(pa.value) + (b.enc(pb.value) + pb.rest) == a.enc(pa.value) + b.enc(pb.value) + pb.rest;
    }
  }

  /** The same bytes read as another type. */
  function As<A, B>(c: Codec<A>, to: A -> B, from: B -> A): Codec<B>
  {
    Codec((b: B) => c.enc(from(b)),
          (raw: seq<byte>) => match c.dec(raw) case Bad => Bad case Parsed(x, r) => Parsed(to(x), r),
          (b: B) => c.ok(from(b)))
  }

  lemma AsLawful<A(!new), B(!new)>(c: Codec<A>, to: A -> B, from: B -> A)
    requires Lawful(c) && (forall a :: from(to(a)) == a) && (forall b :: to(from(b)) == b)
    ensures Lawful(As(c, to, from))
  {
    var d := As(c, to, from);
    forall b, rest | d.ok(b) ensures d.dec(d.enc(b) + rest) == Parsed(b, rest) {
      assert c.dec(c.enc(from(b)) + rest) == Parsed(from(b), rest);
    }
    forall raw | d.dec(raw).Parsed? ensures d.ok(d.dec(raw).value) && raw == d.enc(d.dec(raw).value) + d.dec(raw).rest {
      assert from(to(c.dec(raw).value)) == c.dec(raw).value;
    }
  }

  function EncodeAll<T>(c: Codec<T>, ts: seq<T>): seq<byte>
  {
    if ts == [] then [] else c.enc(ts[0]) + EncodeAll(c, ts[1..])
  }

  function DecodeAll<T>(c: Codec<T>, n: nat, raw: seq<byte>): Parsed<seq<T>>
  {
    if n == 0 then Parsed([], raw)
    else
      match c.dec(raw)
      case Bad => Bad
      case Parsed(t, r1) =>
        match DecodeAll(c, n - 1, r1)
        case Bad => Bad
        case Parsed(ts, r2) => Parsed([t] + ts, r2)
  }

  predicate AllOk<T>(c: Codec<T>, ts: seq<T>)
  {
    forall i :: 0 <= i < |ts| ==> c.ok(ts[i])
  }

  lemma {:induction false} DecodeAllUndoes<T(!new)>(c: Codec<T>, ts: seq<T>, rest: seq<byte>)
    requires Lawful(c) && AllOk(c, ts)
    ensures DecodeAll(c, |ts|, EncodeAll(c, ts) + rest) == Parsed(ts, rest)
  {
    if ts != [] {
      var tail := EncodeAll(c, ts[1..]);
      assert EncodeAll(c, ts) + rest == c.enc(ts[0]) + (tail + rest);
      assert c.dec(c.enc(ts[0]) + (tail + rest)) == Parsed(ts[0], tail + rest);
      DecodeAllUndoes(c, ts[1..], rest);
      assert ts == [ts[0]] + ts[1..];
    }
  }

  lemma {:induction false} DecodeAllStrict<T(!new)>(c: Codec<T>, n: nat, raw: seq<byte>)
    requires Lawful(c) && DecodeAll(c, n, raw).Parsed?
    ensures var r := DecodeAll(c, n, raw); |r.value| == n && AllOk(c, r.value) && raw == EncodeAll(c, r.value) + r.rest
  {
    if n > 0 {
      var p := c.dec(raw);
      DecodeAllStrict(c, n - 1, p.rest);
      var r := DecodeAll(c, n, raw);
      assert r.value[1..] == DecodeAll(c, n - 1, p.rest).value;
      assert raw == c.enc(p.value) + p.rest;
      assert c.enc(p.value) + (EncodeAll(c, r.value[1..]) + r.rest) == EncodeAll(c, r.value) + r.rest;
    }
  }

  /** A list behind a w-byte count, at most max elements. */
  function List<T>(w: nat, max: nat, c: Codec<T>): Codec<seq<T>>
  {
    Codec((ts: seq<T>) => PutLE(|ts|, w) + EncodeAll(c, ts),
          (raw: seq<byte>) =>
            match UInt(w, max).dec(raw)
            case Bad => Bad
            case Parsed(n, r) => DecodeAll(c, n, r),
          (ts: seq<T>) => |ts| <= max && AllOk(c, ts))
  }

  lemma ListLawful<T(!new)>(w: nat, max: nat, c: Codec<T>)
    requires Lawful(c) && max < Pow256(w)
    ensures Lawful(List(w, max, c))
  {
    hide UInt, List;
    UIntLawful(w, max);
    forall ts, rest | List(w, max, c).ok(ts)
        ensures List(w, max, c).dec(List(w, max, c).enc(ts) + rest) == Parsed(ts, rest) {
      ListUndoes(w, max, c, ts, rest);
    }
    forall raw | List(w, max, c).dec(raw).Parsed?
      ensures List(w, max, c).ok(List(w, max, c).dec(raw).value)
      ensures raw == List(w, max, c).enc(List(w, max, c).dec(raw).value) + List(w, max, c).dec(raw).rest
    {
      ListStrict(w, max, c, raw);
    }
  }

  lemma ListUndoes<T(!new)>(w: nat, max: nat, c: Codec<T>, ts: seq<T>, rest: seq<byte>)
    requires Lawful(c) && Lawful(UInt(w, max)) && List(w, max, c).ok(ts)
    ensures List(w, max, c).dec(List(w, max, c).enc(ts) + rest) == Parsed(ts, rest)
  {
    hide PutLE, GetLE;
    var u, e, body := UInt(w, max), EncodeAll(c, ts), EncodeAll(c, ts) + rest;
    assert u.dec(u.enc(|ts|) + body) == Parsed(|ts|, body);
    DecodeAllUndoes(c, ts, rest);
    assert u.enc(|ts|) + e + rest == u.enc(|ts|) + body;
  }

  lemma Reassociate(a: seq<byte>, b: seq<byte>, c: seq<byte>)
    ensures a + (b + c) == a + b + c
  {
  }

  lemma ListStrict<T(!new)>(w: nat, max: nat, c: Codec<T>, raw: seq<byte>)
    requires Lawful(c) && Lawful(UInt(w, max)) && List(w, max, c).dec(raw).Parsed?
    ensures var r := List(w, max, c).dec(raw);
            List(w, max, c).ok(r.value) && raw == List(w, max, c).enc(r.value) + r.rest
  {
    hide PutLE, GetLE, EncodeAll, DecodeAll, AllOk;
    var u := UInt(w, max);
    var p := u.dec(raw);
    DecodeAllStrict(c, p.value, p.rest);
    var r := DecodeAll(c, p.value, p.rest);
    assert raw == PutLE(p.value, w) + p.rest && p.value <= max;
    Reassociate(PutLE(p.value, w), EncodeAll(c, r.value), r.rest);
  }

  // ---- refusals ----

  /** The decoder does not mistake this value's bytes for another value. */
  ghost predicate Refuses<T(!new)>(c: Codec<T>, t: T) { forall rest :: c.dec(c.enc(t) + rest) == Bad }

  lemma TextRefuses(max: nat, s: seq<byte>)
    requires max < |s| < 0x1_0000
    ensures Refuses(Text(max), s)
  {
    hide PutLE, GetLE;
    Pow256Values();
    GetPut(|s|, 2);
    forall rest ensures Text(max).dec(Text(max).enc(s) + rest) == Bad {
      assert (U16(|s|) + s + rest)[..2] == U16(|s|);
    }
  }

  lemma PairRefuses<A(!new), B(!new)>(a: Codec<A>, b: Codec<B>, p: (A, B))
    requires Refuses(a, p.0) || (Lawful(a) && a.ok(p.0) && Refuses(b, p.1))
    ensures Refuses(Pair(a, b), p)
  {
    var c := Pair(a, b);
    forall rest ensures c.dec(c.enc(p) + rest) == Bad {
      var r := b.enc(p.1) + rest;
      assert c.enc(p) + rest == a.enc(p.0) + r;
      assert a.dec(a.enc(p.0) + r) == Bad || (a.dec(a.enc(p.0) + r) == Parsed(p.0, r) && b.dec(r) == Bad);
    }
  }

  lemma AsRefuses<A(!new), B(!new)>(c: Codec<A>, to: A -> B, from: B -> A, b: B)
    requires Refuses(c, from(b))
    ensures Refuses(As(c, to, from), b)
  {
  }

  lemma {:induction false} DecodeAllRefuses<T(!new)>(c: Codec<T>, ts: seq<T>, rest: seq<byte>)
    requires Lawful(c) && !AllOk(c, ts) && forall i :: 0 <= i < |ts| && !c.ok(ts[i]) ==> Refuses(c, ts[i])
    ensures DecodeAll(c, |ts|, EncodeAll(c, ts) + rest) == Bad
  {
    var tail := EncodeAll(c, ts[1..]) + rest;
    assert EncodeAll(c, ts) + rest == c.enc(ts[0]) + tail;
    if c.ok(ts[0]) {
      assert c.dec(c.enc(ts[0]) + tail) == Parsed(ts[0], tail);
      DecodeAllRefuses(c, ts[1..], rest);
    } else {
      assert c.dec(c.enc(ts[0]) + tail) == Bad;
    }
  }

  lemma ListRefuses<T(!new)>(w: nat, max: nat, c: Codec<T>, ts: seq<T>)
    requires Lawful(c) && |ts| <= max < Pow256(w) && !AllOk(c, ts)
    requires forall i :: 0 <= i < |ts| && !c.ok(ts[i]) ==> Refuses(c, ts[i])
    ensures Refuses(List(w, max, c), ts)
  {
    hide PutLE, GetLE, Refuses;
    UIntLawful(w, max);
    var u, l := UInt(w, max), List(w, max, c);
    assert forall rest :: l.dec(l.enc(ts) + rest) == Bad by {
      forall rest ensures l.dec(l.enc(ts) + rest) == Bad {
        var body := EncodeAll(c, ts) + rest;
        assert u.dec(u.enc(|ts|) + body) == Parsed(|ts|, body);
        DecodeAllRefuses(c, ts, rest);
        assert u.enc(|ts|) + EncodeAll(c, ts) + rest == u.enc(|ts|) + body;
      }
    }
    RefusesIntro(l, ts);
  }

  lemma RefusesIntro<T(!new)>(c: Codec<T>, t: T)
    requires forall rest :: c.dec(c.enc(t) + rest) == Bad
    ensures Refuses(c, t)
  {
  }

  lemma {:induction false} ElementSize<T>(c: Codec<T>, ts: seq<T>, i: nat)
    requires i < |ts|
    ensures |c.enc(ts[i])| <= |EncodeAll(c, ts)|
  {
    if i > 0 { ElementSize(c, ts[1..], i - 1); }
  }

  // ---- whole files ----

  /** A fixed prefix, one value, and nothing behind it. */
  function WholeFile<T>(prefix: seq<byte>, c: Codec<T>, raw: seq<byte>): Option<T>
  {
    if |raw| < |prefix| || raw[..|prefix|] != prefix then None
    else
      match c.dec(raw[|prefix|..])
      case Bad => None
      case Parsed(t, rest) => if rest == [] then Some(t) else None
  }

  /** A whole file decodes to t exactly when it is the encoding of a well-formed t. */
  lemma WholeFileExact<T(!new)>(prefix: seq<byte>, c: Codec<T>, raw: seq<byte>, t: T)
    requires Lawful(c)
    ensures WholeFile(prefix, c, raw) == Some(t) <==> c.ok(t) && raw == prefix + c.enc(t)
  {
    if c.ok(t) && raw == prefix + c.enc(t) {
      assert raw[|prefix|..] == c.enc(t) == c.enc(t) + [];
      assert c.dec(c.enc(t) + []) == Parsed(t, []);
    }
    if WholeFile(prefix, c, raw) == Some(t) {
      assert raw == prefix + raw[|prefix|..];
      assert raw[|prefix|..] == c.enc(t) + [];
    }
  }
}
