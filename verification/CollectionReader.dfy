/** The loops of the collection format: descriptors and payloads read by advancing an offset, and the
    null bitmap filled in place. */
module CollectionReader {
  import opened Bytes
  import opened Reading
  import opened Collections
  import Bits
  import J = Json

  // ---- descriptors ----

  /** readTypeFull and readNestedDescriptor: a kind byte, five unused bytes, and the nested part. */
  method ReadTypeFull(h: J.Host, b: seq<byte>, off: nat, depth: nat) returns (r: At<Type>)
    ensures r == if off + 6 > |b| then Bad else ReadNested(h, b, off + 6, b[off] as int, depth)
    decreases if off < |b| then |b| - off else 0, 1
  {
    if off + 6 > |b| { return Bad; }
    r := ReadDescriptor(h, b, off + 6, b[off] as int, depth);
  }

  method ReadDescriptor(h: J.Host, b: seq<byte>, off: nat, kind: nat, depth: nat) returns (r: At<Type>)
    ensures r == ReadNested(h, b, off, kind, depth)
    decreases if off < |b| then |b| - off else 0, 2
  {
    hide GetLE, ReadTypes;
    if depth > MAX_NEST_DEPTH + 1 { return Bad; }
    if kind == ARRAY {
      OneMoreType(h, b, off, [], 1, [], depth + 1);
      var e := ReadTypeFull(h, b, off, depth + 1);
      if e.Bad? { return Bad; }
      assert [] + [e.value] == [e.value];
      return At(TColl(Arr, [e.value]), e.next);
    }
    if kind == MAP {
      OneMoreType(h, b, off, [], 2, [], depth + 1);
      var k := ReadTypeFull(h, b, off, depth + 1);
      if k.Bad? { return Bad; }
      assert [] + [k.value] == [k.value];
      OneMoreType(h, b, k.next, [], 1, [k.value], depth + 1);
      var v := ReadTypeFull(h, b, k.next, depth + 1);
      if v.Bad? { return Bad; }
      assert [k.value] + [v.value] == [k.value, v.value];
      return At(TColl(MapOf, [k.value, v.value]), v.next);
    }
    if kind == STRUCT {
      if off + 2 > |b| { return Bad; }
      var n := GetLE(b[off..off + 2]);
      if n == 0 || n > MAX_STRUCT_FIELDS { return Bad; }
      r := ReadFields(h, b, off + 2, n, depth + 1);
      return;
    }
    if kind == 30 { return Bad; }
    return At(TScalar(kind), off);
  }

  lemma OneMoreType(h: J.Host, b: seq<byte>, off: nat, names: seq<string>, want: nat, types: seq<Type>, depth: nat)
    requires want > 0 && forall i :: 0 <= i < |types| ==> WellFormed(types[i])
    ensures ReadTypes(h, b, off, names, want, false, types, depth) ==
              (if off + 6 > |b| then Bad
               else
                 var inner := ReadNested(h, b, off + 6, b[off] as int, depth);
                 if inner.Bad? then Bad
                     else ReadTypes(h, b, inner.next, names, want - 1, false, types + [inner.value], depth))
    ensures want == 1 && off + 6 <= |b| ==>
              (var inner := ReadNested(h, b, off + 6, b[off] as int, depth);
               inner.At? ==>
                 ReadTypes(h, b, inner.next, names, 0, false, types + [inner.value], depth)
                 == At((names, types + [inner.value]), inner.next))
  {
  }

  /** The loop over a struct's fields. */
  method ReadFields(h: J.Host, b: seq<byte>, start: nat, n: nat, depth: nat) returns (r: At<Type>)
    requires 1 <= n <= MAX_STRUCT_FIELDS
    ensures var got := ReadTypes(h, b, start, [], n, true, [], depth);
            r == if got.Bad? then Bad else At(TColl(StructOf(got.value.0), got.value.1), got.next)
    decreases if start < |b| then |b| - start else 0, 2
  {
    hide ReadNested, ReadTypes, ReadName;
    var off, names: seq<string>, types: seq<Type>, i := start, [], [], 0;
    while i < n
      invariant 0 <= i <= n && start <= off && |names| == i && forall k :: 0 <= k < |types| ==> WellFormed(types[k])
      invariant ReadTypes(h, b, start, [], n, true, [], depth) == ReadTypes(h, b, off, names, n - i, true, types, depth)
    {
      OneMoreField(h, b, off, names, n - i, types, depth);
      var name := ReadName(h, b, off);
      if name.Bad? { return Bad; }
      var t := ReadTypeFull(h, b, name.next, depth);
      if t.Bad? { return Bad; }
      off := t.next;
      names, types := names + [name.value], types + [t.value];
      i := i + 1;
    }
    NoMoreFields(h, b, off, names, types, depth);
    return At(TColl(StructOf(names), types), off);
  }

  lemma OneMoreField(h: J.Host, b: seq<byte>, off: nat, names: seq<string>, want: nat, types: seq<Type>, depth: nat)
    requires want > 0 && forall i :: 0 <= i < |types| ==> WellFormed(types[i])
    ensures ReadTypes(h, b, off, names, want, true, types, depth) ==
              (var name := ReadName(h, b, off);
               if name.Bad? || name.next + 6 > |b| then Bad
               else
                 var inner := ReadNested(h, b, name.next + 6, b[name.next] as int, depth);
                 if inner.Bad? then Bad
                 else ReadTypes(h, b, inner.next, names + [name.value], want - 1, true, types + [inner.value], depth))
  {
  }

  lemma NoMoreFields(h: J.Host, b: seq<byte>, off: nat, names: seq<string>, types: seq<Type>, depth: nat)
    requires forall i :: 0 <= i < |types| ==> WellFormed(types[i])
    ensures ReadTypes(h, b, off, names, 0, true, types, depth) == At((names, types), off)
  {
  }

  // ---- payloads ----

  function Continue(out: seq<Val>, r: Option<seq<Val>>): Option<seq<Val>>
  {
    if r.None? then None else Some(out + r.value)
  }

  lemma ContinueStep(out: seq<Val>, v: Val, r: Option<seq<Val>>)
    ensures Continue(out, if r.None? then None else Some([v] + r.value)) == Continue(out + [v], r)
  {
    if r.Some? { assert out + ([v] + r.value) == (out + [v]) + r.value; }
  }

  lemma ContinueEnds(out: seq<Val>, r: Option<seq<Val>>)
    ensures Continue([], r) == r && Continue(out, Some([])) == Some(out) && Continue(out, None) == None
  {
    assert out + [] == out;
    if r.Some? { assert [] + r.value == r.value; }
  }

  /** decodePayload and decodeCollectionPayload: the member loop pushes a NULL or a decoded member. */
  method ReadPayload(h: J.Host, b: seq<byte>, off: nat, t: Type) returns (r: At<Val>)
    requires WellFormed(t)
    ensures r == DecodePayload(h, b, off, t)
    decreases t
  {
    hide GetLE, DecodeScalar, NullAt, Assemble, Continue;
    if t.TScalar? { return DecodeScalar(h, b, off, t.kind); }
    if off + 8 > |b| { return Bad; }
    var bodyLen, n := GetLE(b[off..off + 4]), GetLE(b[off + 4..off + 8]);
    if off + 4 + bodyLen > |b| || n > 2 * MAX_COLLECTION_LEN + 2 || n > bodyLen { return Bad; }
    var nulls: nat, p: nat, members: seq<Val>, i := off + 8, off + 8 + (n + 7) / 8, [], 0;
    ghost var all := DecodeMembers(h, b, nulls, p, t, 0, n);
    ContinueEnds([], all);
    while i < n
      invariant 0 <= i <= n && all == Continue(members, DecodeMembers(h, b, nulls, p, t, i, n))
    {
      ContinueEnds(members, None);
      if NullAt(b, nulls, i) {
        ContinueStep(members, VNull, DecodeMembers(h, b, nulls, p, t, i + 1, n));
        members := members + [VNull];
        i := i + 1;
        continue;
      }
      var mt := MemberType(t, i);
      if mt.None? { return Bad; }
      var got := ReadPayload(h, b, p, mt.value);
      if got.Bad? { return Bad; }
      ContinueStep(members, got.value, DecodeMembers(h, b, nulls, got.next, t, i + 1, n));
      p, members, i := got.next, members + [got.value], i + 1;
    }
    ContinueEnds(members, None);
    var value := Build(t, members);
    return At(value, off + 4 + bodyLen);
  }

  /** The object, list or map built from the members. */
  method Build(t: Type, members: seq<Val>) returns (v: Val)
    requires t.TColl?
    ensures v == Assemble(t, members)
  {
    hide NameIndex, PairIndex;
    match t.shape
    case Arr => return VColl(Arr, members);
    case MapOf =>
      var acc: seq<Val>, i := [], 0;
      assert members[0..] == members;
      while i + 1 < |members|
        invariant 0 <= i <= |members| && |acc| % 2 == 0 && SetPairs([], members) == SetPairs(acc, members[i..])
      {
        var rest := members[i..];
        assert rest[0] == members[i] && rest[1] == members[i + 1] && rest[2..] == members[i + 2..];
        assert rest[..2] == [members[i], members[i + 1]];
        var j := PairIndex(acc, members[i]);
        acc := if j < |acc| then acc[j + 1 := members[i + 1]] else acc + [members[i], members[i + 1]];
        i := i + 2;
      }
      return VColl(MapOf, acc);
    case StructOf(names) =>
      var gotNames: seq<string>, got: seq<Val>, i := [], [], 0;
      while i < |names|
        invariant 0 <= i <= |names| && |gotNames| == |got|
                  && SetFields(names, members, 0, [], []) == SetFields(names, members, i, gotNames, got)
      {
        var x := if i < |members| then members[i] else VNull;
        var j := NameIndex(gotNames, names[i]);
        if names[i] == J.PROTO {
        } else if j < |got| {
          got := got[j := x];
        } else {
          gotNames, got := gotNames + [names[i]], got + [x];
        }
        i := i + 1;
      }
      return VColl(StructOf(gotNames), got);
  }

  // ---- the null bitmap ----

  /** x | 1 << k on a byte. */
  function SetBit(x: byte, k: nat): (r: byte)
    requires k < 8
  {
    if Bits.BitOf(x, k) then x else Raised(x, k)
  }

  function Raised(x: byte, k: nat): (r: byte)
    requires k < 8 && !Bits.BitOf(x, k)
    ensures r as int == x as int + Bits.Pow2(k)
  {
    ClearBitRoom(x as int, k, 8);
    Bits.Pow2Eight();
    (x as int + Bits.Pow2(k)) as byte
  }

  lemma {:induction false} ClearBitRoom(x: nat, k: nat, w: nat)
    requires k < w && x < Bits.Pow2(w) && !Bits.Bit(x, k)
    ensures x + Bits.Pow2(k) < Bits.Pow2(w)
  {
    hide Bits.Pow2, Bits.Bit;
    Doubles(w);
    if k == 0 {
      LowBit(x);
    } else {
      Doubles(k);
      NextBit(x, k);
      ClearBitRoom(x / 2, k - 1, w - 1);
    }
  }

  lemma Doubles(w: nat)
    requires w > 0
    ensures Bits.Pow2(w) == 2 * Bits.Pow2(w - 1)
  {
  }

  lemma LowBit(x: nat)
    ensures Bits.Bit(x, 0) <==> x % 2 == 1
    ensures Bits.Pow2(0) == 1
  {
  }

  lemma NextBit(x: nat, k: nat)
    requires k > 0
    ensures Bits.Bit(x, k) == Bits.Bit(x / 2, k - 1)
  {
  }

  lemma {:induction false} BitsSnoc(bits: seq<bool>, b: bool)
    ensures BitsValue(bits + [b]) == BitsValue(bits) + if b then Bits.Pow2(|bits|) else 0
  {
    if bits == [] {
      assert [b][1..] == [];
    } else {
      assert (bits + [b])[1..] == bits[1..] + [b];
      BitsSnoc(bits[1..], b);
    }
  }

  lemma {:induction false} HighBitClear(n: nat, k: nat)
    requires n < Bits.Pow2(k)
    ensures !Bits.Bit(n, k)
  {
    if k > 0 { HighBitClear(n / 2, k - 1); }
  }

  /** The bits of byte j among the first i flags. */
  ghost function Window(flags: seq<bool>, j: nat, i: nat): seq<bool>
    requires i <= |flags|
  {
    flags[Min(8 * j, i)..Min(8 * j + 8, i)]
  }

  /** collectionPayload: one pass that sets a bit for each NULL and collects the other payloads. */
  method CollectionPayload(members: seq<Option<seq<byte>>>) returns (r: seq<byte>)
    ensures var flags := seq(|members|, i requires 0 <= i < |members| => members[i].None?);
            var body := Body(|members|, NullBitmap(flags), Present(members));
            r == U32(|body|) + body
  {
    hide Bits.BitOf, Bits.Bit, Bits.Pow2, BitsValue;
    var n := |members|;
    ghost var flags := seq(n, i requires 0 <= i < n => members[i].None?);
    var nulls := new byte[(n + 7) / 8](_ => 0);
    var chunks: seq<byte>, i := [], 0;
    forall j | 0 <= j < nulls.Length
        ensures nulls[j] as int == BitsValue(Window(flags, j, 0)) { EmptyWindow(flags, j); }
    while i < n
      invariant 0 <= i <= n && chunks == Present(members[..i])
      invariant forall j :: 0 <= j < nulls.Length ==> nulls[j] as int == BitsValue(Window(flags, j, i))
    {
      assert members[..i + 1][..i] == members[..i];
      var at := i / 8;
      forall j | 0 <= j < nulls.Length && j != at ensures Window(flags, j, i + 1) == Window(flags, j, i) {}
      NextWindow(flags, i, nulls[at]);
      if members[i].None? {
        nulls[at] := SetBit(nulls[at], i % 8);
      } else {
        chunks := chunks + members[i].value;
      }
      i := i + 1;
    }
    assert members[..n] == members;
    assert nulls[..] == NullBitmap(flags) by {
      forall j | 0 <= j < nulls.Length ensures nulls[j] == NullByte(flags, j) { LastWindow(flags, j); }
    }
    var body := U32(n) + nulls[..] + chunks;
    return U32(|body|) + body;
  }

  function Present(members: seq<Option<seq<byte>>>): seq<byte>
  {
    if members == [] then []
    else Present(members[..|members| - 1]) + (if members[|members| - 1].None? then [] else members[|members| - 1].value)
  }

  lemma EmptyWindow(flags: seq<bool>, j: nat)
    ensures BitsValue(Window(flags, j, 0)) == 0
  {
  }

  lemma LastWindow(flags: seq<bool>, j: nat)
    requires 8 * j < |flags|
    ensures NullByte(flags, j) as int == BitsValue(Window(flags, j, |flags|))
  {
  }

  lemma NextWindow(flags: seq<bool>, i: nat, x: byte)
    requires i < |flags| && x as int == BitsValue(Window(flags, i / 8, i))
    ensures !flags[i] ==> BitsValue(Window(flags, i / 8, i + 1)) == x as int
    ensures flags[i] ==> BitsValue(Window(flags, i / 8, i + 1)) == SetBit(x, i % 8) as int
  {
    hide BitsValue;
    var w := Window(flags, i / 8, i);
    assert Window(flags, i / 8, i + 1) == w + [flags[i]];
    assert |w| == i % 8;
    BitsSnoc(w, flags[i]);
    HighBitClear(x as int, i % 8);
  }
}
