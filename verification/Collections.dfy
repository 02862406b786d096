/** STRUCT, ARRAY and MAP parameters of the Node driver: inferred type descriptor, null bitmap, payload. */
module Collections {
  import opened Bytes
  import opened Reading
  import Bits
  import D = Decimal
  import J = Json
  import Utf8
  import F = FieldCrypt

  const MAX_PACKET := 0x10_0000
  const MAX_NEST_DEPTH := 8
  const MAX_STRUCT_FIELDS := 128
  const MAX_COLLECTION_LEN := 0x10_0000

  const STRUCT := 32
  const ARRAY := 33
  const MAP := 34

  // ---- values and types ----

  datatype Scalar =
    | SBool(b: bool)
    | SText(s: string)
    | SUuid(raw: seq<byte>)
    | SBlob(bytes: seq<byte>)
    | SDecimal(text: string)
    | SDate(ms: int)
    | SInt(kind: nat, n: int)

  /** A map's members are its keys and values in turn; a struct's are its field values. */
  datatype Shape = Arr | MapOf | StructOf(names: seq<string>)
  datatype Val = VNull | VScalar(s: Scalar) | VColl(shape: Shape, members: seq<Val>)
  datatype Type = TScalar(kind: nat) | TColl(shape: Shape, elems: seq<Type>)

  /** Keys and values in pairs, one value for each field name, and no more members than an array
      of the host language can hold. */
  predicate WellShaped(v: Val)
    decreases v
  {
    v.VColl? ==>
      && |v.members| < 0x1_0000_0000
      && (v.shape.MapOf? ==> |v.members| % 2 == 0)
      && (v.shape.StructOf? ==> |v.shape.names| == |v.members|)
      && forall i :: 0 <= i < |v.members| ==> WellShaped(v.members[i])
  }

  predicate WellFormed(t: Type)
    decreases t
  {
    t.TColl? ==>
      && |t.elems| == (match t.shape case Arr => 1 case MapOf => 2 case StructOf(names) => |names|)
      && forall i :: 0 <= i < |t.elems| ==> WellFormed(t.elems[i])
  }

  function KindOf(s: Scalar): nat
  {
    match s
    case SBool(_) => F.BOOL
    case SText(_) => F.STRING
    case SUuid(_) => F.UUID
    case SBlob(_) => F.BLOB
    case SDecimal(_) => F.DECIMAL
    case SDate(_) => F.TIMESTAMPTZ
    case SInt(k, _) => k
  }

  function ShapeKind(shape: Shape): nat
  {
    match shape case Arr => ARRAY case MapOf => MAP case StructOf(_) => STRUCT
  }

  /** The type of the first non-null value among members from, from + step, ...; STRING if none. */
  function FirstType(v: Val, from: nat, step: nat): Type
    requires v.VColl? && step >= 1
    decreases v, 0, if from < |v.members| then |v.members| - from else 0
  {
    if from >= |v.members| then TScalar(F.STRING)
    else if v.members[from].VNull? then FirstType(v, from + step, step)
    else TypeOf(v.members[from])
  }

  function TypeOf(v: Val): Type
    decreases v, 1, 0
  {
    match v
    case VNull => TScalar(F.STRING)
    case VScalar(s) => TScalar(KindOf(s))
    case VColl(shape, members) =>
      match shape
      case Arr => TColl(Arr, [FirstType(v, 0, 1)])
      case MapOf => TColl(MapOf, [FirstType(v, 0, 2), FirstType(v, 1, 2)])
      case StructOf(_) => TColl(shape, seq(|members|, i requires 0 <= i < |members| => TypeOf(members[i])))
  }

  function MemberType(t: Type, i: nat): Option<Type>
    requires t.TColl? && WellFormed(t)
  {
    match t.shape
    case Arr => Some(t.elems[0])
    case MapOf => Some(t.elems[i % 2])
    case StructOf(_) => if i < |t.elems| then Some(t.elems[i]) else None
  }

  /** A value a decoder of type t can produce: NULL anywhere, otherwise kind by kind. */
  predicate Conforms(v: Val, t: Type)
    requires WellFormed(t)
    decreases v
  {
    match v
    case VNull => true
    case VScalar(s) => t == TScalar(KindOf(s))
    case VColl(shape, members) =>
      && t.TColl? && t.shape == shape
      && (shape.StructOf? ==> |members| == |t.elems|)
      && forall i :: 0 <= i < |members| ==> MemberType(t, i).Some? && Conforms(members[i], MemberType(t, i).value)
  }

  // ---- encoding ----

  function U32Bytes(raw: seq<byte>): Option<seq<byte>>
  {
    if |raw| > MAX_PACKET then None else Some(U32(|raw|) + raw)
  }

  function ScalarPayload(h: J.Host, s: Scalar): (r: Option<seq<byte>>)
  {
    match s
    case SBool(b) => Some([if b then 1 else 0])
    case SText(t) => U32Bytes(h.utf8(t))
    case SUuid(raw) => if |raw| == 16 then Some(raw) else None
    case SBlob(bytes) => U32Bytes(bytes)
    case SDecimal(text) => D.EncodeDecimalString(text)
    case SDate(ms) => if FitsI64(ms * 1_000_000) then Some(I64(ms * 1_000_000)) else None
    case SInt(k, n) => if F.INT8 <= k <= F.UINT64 && F.InRange(k, n) then Some(F.PutInt(k, n)) else None
  }

  function BitsValue(bits: seq<bool>): (n: nat)
    ensures n < Bits.Pow2(|bits|)
  {
    if bits == [] then 0 else (if bits[0] then 1 else 0) + 2 * BitsValue(bits[1..])
  }

  lemma {:induction false} BitsValueBit(bits: seq<bool>, k: nat)
    requires k < |bits|
    ensures Bits.Bit(BitsValue(bits), k) == bits[k]
  {
    if k > 0 {
      BitsValueBit(bits[1..], k - 1);
    }
  }

  function Min(a: nat, b: nat): nat { if a < b then a else b }

  lemma {:induction false} Pow2Monotone(a: nat, b: nat)
    requires a <= b
    ensures Bits.Pow2(a) <= Bits.Pow2(b)
  {
    if a < b { Pow2Monotone(a, b - 1); }
  }

  /** One bit for each member, set for NULL, eight to a byte. */
  function NullBitmap(nulls: seq<bool>): (b: seq<byte>)
    ensures |b| == (|nulls| + 7) / 8
  {
    seq((|nulls| + 7) / 8, j requires 0 <= j < (|nulls| + 7) / 8 => NullByte(nulls, j))
  }

  function NullByte(nulls: seq<bool>, j: nat): byte
    requires 8 * j < |nulls|
  {
    Bits.Pow2Eight();
    Pow2Monotone(Min(8 * j + 8, |nulls|) - 8 * j, 8);
    BitsValue(nulls[8 * j..Min(8 * j + 8, |nulls|)]) as byte
  }

  lemma NullBit(nulls: seq<bool>, i: nat)
    requires i < |nulls|
    ensures i / 8 < |NullBitmap(nulls)| && Bits.BitOf(NullBitmap(nulls)[i / 8], i % 8) == nulls[i]
  {
    var j := i / 8;
    var bits := nulls[8 * j..Min(8 * j + 8, |nulls|)];
    BitsValueBit(bits, i % 8);
  }

  function Body(n: nat, nulls: seq<byte>, chunks: seq<byte>): seq<byte>
  {
    U32(n) + nulls + chunks
  }

  function NullFlags(members: seq<Val>): (f: seq<bool>)
    ensures |f| == |members|
  {
    seq(|members|, i requires 0 <= i < |members| => members[i].VNull?)
  }

  function Payload(h: J.Host, v: Val): (r: Option<seq<byte>>)
    requires !v.VNull?
    decreases v, 1, 0
  {
    match v
    case VScalar(s) => ScalarPayload(h, s)
    case VColl(_, members) =>
      var chunks := Chunks(h, v, 0);
      if chunks.None? then None
      else
        var body := Body(|members|, NullBitmap(NullFlags(members)), chunks.value);
        Some(U32(|body|) + body)
  }

  /** The payloads of the non-null members from index i on. */
  function Chunks(h: J.Host, v: Val, i: nat): (r: Option<seq<byte>>)
    requires v.VColl? && i <= |v.members|
    decreases v, 0, |v.members| - i
  {
    if i == |v.members| then Some([])
    else
      var rest := Chunks(h, v, i + 1);
      if v.members[i].VNull? then rest
      else
        var first := Payload(h, v.members[i]);
        if first.None? || rest.None? then None else Some(first.value + rest.value)
  }

  function FieldName(h: J.Host, name: string): Option<seq<byte>>
  {
    var raw := h.utf8(name);
    if |raw| > 255 then None else Some(U16(|raw|) + raw)
  }

  /** The nested part of a descriptor: nothing for a scalar, the element types for a collection. */
  function Nested(h: J.Host, t: Type): (r: Option<seq<byte>>)
    decreases t, 1, 0
  {
    if t.TScalar? then Some([])
    else if !t.shape.StructOf? then NestedFrom(h, t, 0)
    else
      var fields := NestedFrom(h, t, 0);
      if fields.None? || |t.elems| > 0xffff then None else Some(U16(|t.elems|) + fields.value)
  }

  function TypeByte(t: Type): nat { if t.TScalar? then t.kind else ShapeKind(t.shape) }

  function NestedFrom(h: J.Host, t: Type, i: nat): (r: Option<seq<byte>>)
    requires t.TColl? && i <= |t.elems|
    decreases t, 0, |t.elems| - i
  {
    if i == |t.elems| then Some([])
    else
      var name := if t.shape.StructOf? && i < |t.shape.names| then FieldName(h, t.shape.names[i]) else Some([]);
      var inner, rest := Nested(h, t.elems[i]), NestedFrom(h, t, i + 1);
      if name.None? || inner.None? || rest.None? || TypeByte(t.elems[i]) >= 256 then None
      else Some(name.value + ([TypeByte(t.elems[i]) as byte, 0, 0, 0, 0, 0] + inner.value) + rest.value)
  }

  function EncodeCollectionParam(h: J.Host, v: Val): Option<seq<byte>>
    requires v.VColl?
  {
    var nested, payload := Nested(h, TypeOf(v)), Payload(h, v);
    if nested.None? || payload.None? then None
    else Some([ShapeKind(v.shape) as byte, 0, 0, 0, 0, 0, 0] + nested.value + payload.value)
  }

  // ---- decoding ----

  function ReadU32Bytes(b: seq<byte>, off: nat): At<seq<byte>>
  {
    if off + 4 > |b| then Bad
    else
      var n := GetLE(b[off..off + 4]);
      if n > MAX_PACKET || off + 4 + n > |b| then Bad else At(b[off + 4..off + 4 + n], off + 4 + n)
  }

  /** Truncating division, as BigInt divides. */
  function Trunc(n: int, d: nat): int
    requires d > 0
  {
    if n < 0 then -((-n) / d) else n / d
  }

  function DecodeScalar(h: J.Host, b: seq<byte>, off: nat, kind: nat): At<Val>
  {
    if kind == F.UUID then
      if off + 16 > |b| then Bad else At(VScalar(SUuid(b[off..off + 16])), off + 16)
    else if kind == F.STRING || kind == F.BLOB || kind == F.DECIMAL then
      var got := ReadU32Bytes(b, off);
      if got.Bad? then Bad
      else if kind == F.STRING then At(VScalar(SText(h.text(got.value))), got.next)
      else if kind == F.BLOB then At(VScalar(SBlob(got.value)), got.next)
      else
        var d := D.DecodeDecimal(got.value);
        if d.None? then Bad else At(VScalar(SDecimal(d.value)), got.next)
    else if kind == F.TIMESTAMPTZ then
      if off + 8 > |b| then Bad else At(VScalar(SDate(Trunc(GetI64(b[off..off + 8]), 1_000_000))), off + 8)
    else if kind == F.BOOL then
      if off >= |b| then Bad else At(VScalar(SBool(b[off] != 0)), off + 1)
    else if F.INT8 <= kind <= F.UINT64 then
      var w := F.Width(kind);
      if off + w > |b| then Bad else At(VScalar(SInt(kind, F.GetInt(kind, b[off..off + w]).value)), off + w)
    else Bad
  }

  predicate NullAt(b: seq<byte>, at: nat, i: nat)
  {
    at + i / 8 < |b| && Bits.BitOf(b[at + i / 8], i % 8)
  }

  function DecodePayload(h: J.Host, b: seq<byte>, off: nat, t: Type): (r: At<Val>)
    requires WellFormed(t)
    decreases t, 1, 0
  {
    if t.TScalar? then DecodeScalar(h, b, off, t.kind)
    else if off + 8 > |b| then Bad
    else
      var bodyLen, n := GetLE(b[off..off + 4]), GetLE(b[off + 4..off + 8]);
      if off + 4 + bodyLen > |b| || n > 2 * MAX_COLLECTION_LEN + 2 || n > bodyLen then Bad
      else
        var got := DecodeMembers(h, b, off + 8, off + 8 + (n + 7) / 8, t, 0, n);
        if got.None? then Bad else At(Assemble(t, got.value), off + 4 + bodyLen)
  }

  /** Members i..n: a set bit in the bitmap at `nulls` is NULL, anything else is read at p. */
  function DecodeMembers(h: J.Host, b: seq<byte>, nulls: nat, p: nat, t: Type, i: nat, n: nat): (r: Option<seq<Val>>)
    requires t.TColl? && WellFormed(t) && i <= n
    ensures r.Some? ==> |r.value| == n - i
    decreases t, 0, n - i
  {
    if i == n then Some([])
    else if NullAt(b, nulls, i) then
      var rest := DecodeMembers(h, b, nulls, p, t, i + 1, n);
      if rest.None? then None else Some([VNull] + rest.value)
    else
      var mt := MemberType(t, i);
      if mt.None? then None
      else
        var got := DecodePayload(h, b, p, mt.value);
        if got.Bad? then None
        else
          var rest := DecodeMembers(h, b, nulls, got.next, t, i + 1, n);
          if rest.None? then None else Some([got.value] + rest.value)
  }

  /** Values a map compares by content; buffers, dates and collections are compared by identity. */
  predicate Primitive(v: Val) { v.VNull? || (v.VScalar? && !v.s.SBlob? && !v.s.SDate?) }

  /** Map.set over the pairs: an equal primitive key replaces its value, anything else is added. */
  function SetPairs(acc: seq<Val>, ms: seq<Val>): seq<Val>
    requires |acc| % 2 == 0
    decreases |ms|
  {
    if |ms| < 2 then acc
    else
      var j := PairIndex(acc, ms[0]);
      SetPairs(if j < |acc| then acc[j + 1 := ms[1]] else acc + ms[..2], ms[2..])
  }

  function PairIndex(acc: seq<Val>, k: Val): (j: nat)
    requires |acc| % 2 == 0
    ensures j <= |acc| && j % 2 == 0
    ensures j < |acc| ==> acc[j] == k && Primitive(k)
  {
    if acc == [] || (acc[0] == k && Primitive(k)) then 0 else 2 + PairIndex(acc[2..], k)
  }

  /** Property assignment by field name on a fresh object. */
  function SetFields(names: seq<string>, ms: seq<Val>, i: nat, gotNames: seq<string>, got: seq<Val>)
    : (seq<string>, seq<Val>)
    requires i <= |names| && |gotNames| == |got|
    decreases |names| - i
  {
    if i == |names| then (gotNames, got)
    else
      var v := if i < |ms| then ms[i] else VNull;
      var j := NameIndex(gotNames, names[i]);
      if names[i] == J.PROTO then SetFields(names, ms, i + 1, gotNames, got)
      else if j < |got| then SetFields(names, ms, i + 1, gotNames, got[j := v])
      else SetFields(names, ms, i + 1, gotNames + [names[i]], got + [v])
  }

  function NameIndex(names: seq<string>, n: string): (j: nat)
    ensures j <= |names| && (j < |names| ==> names[j] == n)
  {
    if names == [] || names[0] == n then 0 else 1 + NameIndex(names[1..], n)
  }

  function Assemble(t: Type, members: seq<Val>): Val
    requires t.TColl?
  {
    match t.shape
    case Arr => VColl(Arr, members)
    case MapOf => VColl(MapOf, SetPairs([], members))
    case StructOf(names) =>
      var (ns, vs) := SetFields(names, members, 0, [], []);
      VColl(StructOf(ns), vs)
  }

  /** readNestedDescriptor for the kind byte already read. ENUM carries labels the model leaves out. */
  function ReadNested(h: J.Host, b: seq<byte>, off: nat, kind: nat, depth: nat): (r: At<Type>)
    ensures r.At? ==> off <= r.next && WellFormed(r.value) && TypeByte(r.value) == kind
    decreases if off < |b| then |b| - off else 0, 1, 0
  {
    if depth > MAX_NEST_DEPTH + 1 then Bad
    else if kind == ARRAY || kind == MAP then
      var want := if kind == ARRAY then 1 else 2;
      var got := ReadTypes(h, b, off, [], want, false, [], depth + 1);
      if got.Bad? then Bad else At(TColl(if kind == ARRAY then Arr else MapOf, got.value.1), got.next)
    else if kind == STRUCT then
      if off + 2 > |b| then Bad
      else
        var n := GetLE(b[off..off + 2]);
        if n == 0 || n > MAX_STRUCT_FIELDS then Bad
        else
          var got := ReadTypes(h, b, off + 2, [], n, true, [], depth + 1);
          if got.Bad? then Bad else At(TColl(StructOf(got.value.0), got.value.1), got.next)
    else if kind == 30 then Bad
    else At(TScalar(kind), off)
  }

  /** `want` more full types, each behind its field name for a struct. */
  function ReadTypes(h: J.Host, b: seq<byte>, off: nat, names: seq<string>, want: nat, named: bool, types: seq<Type>,
                     depth: nat)
    : (r: At<(seq<string>, seq<Type>)>)
    requires forall i :: 0 <= i < |types| ==> WellFormed(types[i])
    ensures r.At? ==> off <= r.next && |r.value.1| == |types| + want
    ensures r.At? ==> |r.value.0| == if named then |names| + want else |names|
    ensures r.At? ==> forall i :: 0 <= i < |r.value.1| ==> WellFormed(r.value.1[i])
    decreases if off < |b| then |b| - off else 0, 0, want
  {
    if want == 0 then At((names, types), off)
    else
      var name := if named then ReadName(h, b, off) else At("", off);
      if name.Bad? || name.next + 6 > |b| then Bad
      else
        var inner := ReadNested(h, b, name.next + 6, b[name.next] as int, depth);
        if inner.Bad? then Bad
        else ReadTypes(h, b, inner.next, if named then names + [name.value] else names, want - 1, named,
                       types + [inner.value], depth)
  }

  function ReadName(h: J.Host, b: seq<byte>, off: nat): (r: At<string>)
    ensures r.At? ==> off < r.next
  {
    if off + 2 > |b| then Bad
    else
      var n := GetLE(b[off..off + 2]);
      if n > 255 || off + 2 + n > |b| then Bad else At(h.text(b[off + 2..off + 2 + n]), off + 2 + n)
  }

  /** decodeValue on a collection parameter: seven header bytes, descriptor, payload. */
  function DecodeValue(h: J.Host, b: seq<byte>, off: nat): At<Val>
  {
    if off + 7 > |b| then Bad
    else
      var kind := b[off] as int;
      if kind !in {STRUCT, ARRAY, MAP} then Bad
      else
        var t := ReadNested(h, b, off + 7, kind, 0);
        if t.Bad? then Bad
        else if b[off + 1] % 2 == 1 then At(VNull, t.next)
        else DecodePayload(h, b, t.next, t.value)
  }

  // ---- what a round trip needs ----

  predicate TidyDecimal(text: string) { D.Read(text).Some? && D.Render(D.Read(text).value) == text }

  predicate TidyScalar(s: Scalar) { s.SDecimal? ==> TidyDecimal(s.text) }

  predicate TidyNames(names: seq<string>)
  {
    && (forall i :: 0 <= i < |names| ==> names[i] != J.PROTO)
    && forall i, j :: 0 <= i < j < |names| ==> names[i] != names[j]
  }

  predicate TidyKeys(ms: seq<Val>)
  {
    forall i, j :: 0 <= i < j < |ms| && i % 2 == 0 && j % 2 == 0 && Primitive(ms[i]) ==> ms[i] != ms[j]
  }

  /** A value spelled as the decoder spells values: canonical decimals, no field called __proto__ or
      named twice, no map key of a primitive kind twice. */
  predicate Tidy(v: Val)
    decreases v
  {
    match v
    case VNull => true
    case VScalar(s) => TidyScalar(s)
    case VColl(shape, members) =>
      && (shape.StructOf? ==> TidyNames(shape.names))
      && (shape.MapOf? ==> TidyKeys(members))
      && forall i :: 0 <= i < |members| ==> Tidy(members[i])
  }

  /** The decoder's count check, at every level: no more members than body bytes, and a ceiling. */
  predicate CountsOK(h: J.Host, v: Val)
    decreases v, 1, 0
  {
    match v
    case VNull => true
    case VScalar(_) => true
    case VColl(_, members) =>
      && Payload(h, v).Some?
      && |members| <= 2 * MAX_COLLECTION_LEN + 2 && |members| <= |Payload(h, v).value| - 4
      && CountsFrom(h, v, 0)
  }

  predicate CountsFrom(h: J.Host, v: Val, i: nat)
    requires v.VColl? && i <= |v.members|
    decreases v, 0, |v.members| - i
  {
    i < |v.members| ==> CountsOK(h, v.members[i]) && CountsFrom(h, v, i + 1)
  }

  /** The descriptor checks: at most nine levels below the top, 1 to 128 fields in each struct. */
  predicate DepthOK(t: Type, depth: nat)
    decreases t, 1, 0
  {
    && depth <= MAX_NEST_DEPTH + 1
    && (t.TColl? ==>
          && (t.shape.StructOf? ==> 1 <= |t.elems| <= MAX_STRUCT_FIELDS)
          && DepthFrom(t, 0, depth + 1))
  }

  predicate DepthFrom(t: Type, i: nat, depth: nat)
    requires t.TColl? && i <= |t.elems|
    decreases t, 0, |t.elems| - i
  {
    i < |t.elems| ==> DepthOK(t.elems[i], depth) && DepthFrom(t, i + 1, depth)
  }

  /** A type the encoder writes: plain scalar kinds and names that survive UTF-8. */
  predicate Writable(h: J.Host, t: Type)
    decreases t
  {
    match t
    case TScalar(k) => k < 30
    case TColl(shape, elems) =>
      && (shape.StructOf?
         ==> |shape.names| == |elems| && forall i :: 0 <= i < |shape.names| ==> J.Survives(h, shape.names[i]))
      && forall i :: 0 <= i < |elems| ==> Writable(h, elems[i])
  }

  // ---- descriptors ----

  lemma {:induction false} ReadsNested(h: J.Host, t: Type, b: seq<byte>, off: nat, depth: nat)
    requires WellFormed(t) && Writable(h, t) && Nested(h, t).Some? && J.Holds(b, off, Nested(h, t).value)
    ensures ReadNested(h, b, off, TypeByte(t), depth)
         == if DepthOK(t, depth) then At(t, off + |Nested(h, t).value|) else Bad
    decreases t, 1, 0
  {
    hide J.Holds, NestedFrom, ReadTypes, DepthFrom, J.Survives;
    if t.TColl? && depth <= MAX_NEST_DEPTH + 1 {
      assert t.elems[..0] == [];
      if t.shape.StructOf? {
        FieldCount(b, off, |t.elems|, NestedFrom(h, t, 0).value);
        assert t.shape.names[..|t.elems|] == t.shape.names && t.shape.names[..0] == [];
        if 1 <= |t.elems| <= MAX_STRUCT_FIELDS {
          ReadsTypes(h, t, b, off + 2, 0, depth + 1);
        }
      } else {
        ReadsTypes(h, t, b, off, 0, depth + 1);
      }
    }
  }

  lemma FieldCount(b: seq<byte>, off: nat, n: nat, rest: seq<byte>)
    requires n <= 0xffff && J.Holds(b, off, U16(n) + rest)
    ensures off + 2 <= |b| && GetLE(b[off..off + 2]) == n && J.Holds(b, off + 2, rest)
  {
    J.HoldsSplit(b, off, U16(n), rest);
    Pow256Values();
    GetPut(n, 2);
  }

  function NamesUpTo(t: Type, i: nat): seq<string>
    requires t.TColl? && (t.shape.StructOf? ==> i <= |t.shape.names|)
  {
    if t.shape.StructOf? then t.shape.names[..i] else []
  }

  lemma {:induction false} ReadsTypes(h: J.Host, t: Type, b: seq<byte>, off: nat, i: nat, depth: nat)
    requires t.TColl? && WellFormed(t) && Writable(h, t) && i <= |t.elems|
    requires NestedFrom(h, t, i).Some? && J.Holds(b, off, NestedFrom(h, t, i).value)
    ensures ReadTypes(h, b, off, NamesUpTo(t, i), |t.elems| - i, t.shape.StructOf?, t.elems[..i], depth)
         == if DepthFrom(t, i, depth) then At((NamesUpTo(t, |t.elems|), t.elems), off + |NestedFrom(h, t, i).value|)
             else Bad
    decreases t, 0, |t.elems| - i
  {
    hide J.Holds, Nested, ReadNested, DepthOK, WellFormed, Writable, J.Survives, ReadName, FieldName, ReadTypes,
        NestedFrom, DepthFrom;
    if i == |t.elems| {
      NoMoreTypes(h, t, b, off, depth);
    } else {
      var e, named := t.elems[i], t.shape.StructOf?;
      ElementFacts(h, t, i);
      NestedStep(h, t, i, depth);
      var name := if named then FieldName(h, t.shape.names[i]).value else [];
      var inner, rest := Nested(h, e).value, NestedFrom(h, t, i + 1).value;
      ElementAt(b, off, name, TypeByte(e) as byte, inner, rest);
      if named { ReadsName(h, t.shape.names[i], b, off); }
      ReadsNested(h, e, b, off + |name| + 6, depth);
      NextType(h, t, b, off, off + |name|, i, depth);
      if DepthOK(e, depth) {
        ReadsTypes(h, t, b, off + |name| + 6 + |inner|, i + 1, depth);
      }
    }
  }

  lemma NoMoreTypes(h: J.Host, t: Type, b: seq<byte>, off: nat, depth: nat)
    requires t.TColl? && WellFormed(t)
    ensures ReadTypes(h, b, off, NamesUpTo(t, |t.elems|), 0, t.shape.StructOf?, t.elems[..|t.elems|], depth)
         == At((NamesUpTo(t, |t.elems|), t.elems), off)
    ensures NestedFrom(h, t, |t.elems|) == Some([]) && DepthFrom(t, |t.elems|, depth)
  {
    assert t.elems[..|t.elems|] == t.elems;
  }

  lemma NestedStep(h: J.Host, t: Type, i: nat, depth: nat)
    requires t.TColl? && i < |t.elems| && NestedFrom(h, t, i).Some?
    requires t.shape.StructOf? ==> |t.shape.names| == |t.elems|
    ensures t.shape.StructOf? ==> FieldName(h, t.shape.names[i]).Some?
    ensures Nested(h, t.elems[i]).Some? && NestedFrom(h, t, i + 1).Some?
    ensures NestedFrom(h, t, i).value == (if t.shape.StructOf? then FieldName(h, t.shape.names[i]).value else [])
              + ([TypeByte(t.elems[i]) as byte, 0, 0, 0, 0, 0] + Nested(h, t.elems[i]).value)
                  + NestedFrom(h, t, i + 1).value
    ensures DepthFrom(t, i, depth) <==> DepthOK(t.elems[i], depth) && DepthFrom(t, i + 1, depth)
  {
    hide Nested, DepthOK, FieldName;
  }

  lemma NextType(h: J.Host, t: Type, b: seq<byte>, off: nat, at: nat, i: nat, depth: nat)
    requires t.TColl? && i < |t.elems| && (forall k :: 0 <= k < |t.elems| ==> WellFormed(t.elems[k]))
    requires t.shape.StructOf? ==> |t.shape.names| == |t.elems| && ReadName(h, b, off) == At(t.shape.names[i], at)
    requires !t.shape.StructOf? ==> at == off
    requires at + 6 <= |b|
    ensures var inner := ReadNested(h, b, at + 6, b[at] as int, depth);
            ReadTypes(h, b, off, NamesUpTo(t, i), |t.elems| - i, t.shape.StructOf?, t.elems[..i], depth)
            == if inner.At? && inner.value == t.elems[i]
               then ReadTypes(h, b, inner.next, NamesUpTo(t, i + 1), |t.elems| - i - 1, t.shape.StructOf?,
                   t.elems[..i + 1], depth)
               else if inner.Bad? then Bad
               else ReadTypes(h, b, off, NamesUpTo(t, i), |t.elems| - i, t.shape.StructOf?, t.elems[..i], depth)
  {
    hide ReadNested, ReadName, WellFormed;
    assert t.elems[..i] + [t.elems[i]] == t.elems[..i + 1];
    assert t.shape.StructOf? ==> t.shape.names[..i] + [t.shape.names[i]] == t.shape.names[..i + 1];
  }

  lemma ElementFacts(h: J.Host, t: Type, i: nat)
    requires t.TColl? && WellFormed(t) && Writable(h, t) && i < |t.elems|
    ensures WellFormed(t.elems[i]) && Writable(h, t.elems[i])
    ensures forall k :: 0 <= k < |t.elems| ==> WellFormed(t.elems[k])
    ensures t.shape.StructOf? ==> |t.shape.names| == |t.elems| && J.Survives(h, t.shape.names[i])
  {
  }

  lemma ElementAt(b: seq<byte>, off: nat, name: seq<byte>, k: byte, inner: seq<byte>, rest: seq<byte>)
    requires J.Holds(b, off, name + ([k, 0, 0, 0, 0, 0] + inner) + rest)
    ensures off + |name| + 6 + |inner| <= |b| && b[off + |name|] == k
    ensures J.Holds(b, off, name) && J.Holds(b, off + |name| + 6, inner)
    ensures J.Holds(b, off + |name| + 6 + |inner|, rest)
  {
    var h: seq<byte> := [k, 0, 0, 0, 0, 0];
    J.HoldsSplit(b, off, name + (h + inner), rest);
    J.HoldsSplit(b, off, name, h + inner);
    J.HoldsSplit(b, off + |name|, h, inner);
    J.FirstByte(b, off + |name|, h);
  }

  lemma ReadsName(h: J.Host, name: string, b: seq<byte>, off: nat)
    requires FieldName(h, name).Some? && J.Survives(h, name) && J.Holds(b, off, FieldName(h, name).value)
    ensures ReadName(h, b, off) == At(name, off + |FieldName(h, name).value|)
  {
    var raw := h.utf8(name);
    J.HoldsSplit(b, off, U16(|raw|), raw);
    Pow256Values();
    GetPut(|raw|, 2);
  }

  // ---- scalars ----

  lemma ReadsScalar(h: J.Host, s: Scalar, b: seq<byte>, off: nat)
    requires J.Javascript(h) && TidyScalar(s) && ScalarPayload(h, s).Some? && J.Holds(b, off, ScalarPayload(h, s).value)
    ensures DecodeScalar(h, b, off, KindOf(s)) == At(VScalar(s), off + |ScalarPayload(h, s).value|)
  {
    hide D.Read, D.Render, D.EncodeDecimalString, D.DecodeDecimal, F.GetInt, F.PutInt, F.InRange, GetLE, GetI64, I64,
        ReadU32Bytes;
    var e := ScalarPayload(h, s).value;
    match s
    case SBool(_) => J.FirstByte(b, off, e);
    case SText(t) => ReadsU32Bytes(b, off, h.utf8(t)); J.AllSurvive(h, t);
    case SUuid(_) =>
    case SBlob(bytes) => ReadsU32Bytes(b, off, bytes);
    case SDecimal(text) => ReadsDecimal(h, text, b, off);
    case SDate(ms) => I64RoundTrip(ms * 1_000_000); WholeMillis(ms);
    case SInt(k, n) => F.IntRoundTrip(k, n); IntWidth(k, n);
  }

  lemma IntWidth(k: nat, n: int)
    requires F.INT8 <= k <= F.UINT64 && F.InRange(k, n)
    ensures |F.PutInt(k, n)| == F.Width(k)
  {
  }

  lemma WholeMillis(ms: int)
    ensures Trunc(ms * 1_000_000, 1_000_000) == ms
  {
  }

  lemma ReadsU32Bytes(b: seq<byte>, off: nat, raw: seq<byte>)
    requires |raw| <= MAX_PACKET && J.Holds(b, off, U32(|raw|) + raw)
    ensures ReadU32Bytes(b, off) == At(raw, off + 4 + |raw|)
  {
    J.HoldsSplit(b, off, U32(|raw|), raw);
    Pow256Values();
    GetPut(|raw|, 4);
  }

  lemma ReadsDecimal(h: J.Host, text: string, b: seq<byte>, off: nat)
    requires TidyDecimal(text) && D.EncodeDecimalString(text).Some?
             && J.Holds(b, off, D.EncodeDecimalString(text).value)
    ensures var raw := D.EncodeDecimalString(text).value;
            |raw| >= 4 && ReadU32Bytes(b, off) == At(raw[4..], off + |raw|) && D.DecodeDecimal(raw[4..]) == Some(text)
  {
    hide D.Read, D.Render, D.Body, D.Unpack;
    D.DecimalRoundTrip(text);
    var raw := D.EncodeDecimalString(text).value;
    var n := D.Read(text).value;
    var body := D.Body(n);
    assert raw == U32(|body|) + body && raw[4..] == body;
    ReadsU32Bytes(b, off, body);
    D.EncodedBody(n);
  }

  // ---- payloads ----

  lemma {:induction false} ReadsTidy(h: J.Host, v: Val, t: Type, b: seq<byte>, off: nat)
    requires J.Javascript(h) && !v.VNull? && WellShaped(v) && WellFormed(t) && Conforms(v, t) && Tidy(v)
    requires Payload(h, v).Some? && |Payload(h, v).value| < 0x1_0000_0000 && J.Holds(b, off, Payload(h, v).value)
    ensures DecodePayload(h, b, off, t) == if CountsOK(h, v) then At(v, off + |Payload(h, v).value|) else Bad
    decreases v, 1, 0
  {
    hide J.Holds, DecodeScalar, ScalarPayload, TidyScalar, Chunks, DecodeMembers, NullBitmap, NullFlags, Assemble,
         CountsFrom, TidyKeys, TidyNames, GetLE, MemberType, WellFormed, NullAt;
    if v.VScalar? {
      ReadsScalar(h, v.s, b, off);
    } else {
      var n, bits, chunks := |v.members|, NullBitmap(NullFlags(v.members)), Chunks(h, v, 0).value;
      var body := Body(n, bits, chunks);
      CollectionHeader(b, off, n, bits, chunks);
      if n <= 2 * MAX_COLLECTION_LEN + 2 && n <= |body| {
        BitmapAt(v.members, b, off + 8);
        ReadsMembers(h, v, t, b, off + 8, off + 8 + |bits|, 0);
        assert v.members[0..] == v.members;
        Reassembles(v, t);
      }
    }
  }

  lemma CollectionHeader(b: seq<byte>, off: nat, n: nat, bits: seq<byte>, chunks: seq<byte>)
    requires |Body(n, bits, chunks)| < 0x1_0000_0000 - 4 && |bits| == (n + 7) / 8 && n < 0x1_0000_0000
    requires J.Holds(b, off, U32(|Body(n, bits, chunks)|) + Body(n, bits, chunks))
    ensures off + 8 <= |b| && off + 4 + |Body(n, bits, chunks)| <= |b|
    ensures GetLE(b[off..off + 4]) == |Body(n, bits, chunks)| && GetLE(b[off + 4..off + 8]) == n
    ensures J.Holds(b, off + 8, bits) && J.Holds(b, off + 8 + |bits|, chunks)
  {
    hide GetLE, PutLE;
    var body := Body(n, bits, chunks);
    J.HoldsSplit(b, off, U32(|body|), body);
    J.HoldsSplit(b, off + 4, U32(n) + bits, chunks);
    J.HoldsSplit(b, off + 4, U32(n), bits);
    Pow256Values();
    GetPut(|body|, 4);
    GetPut(n, 4);
  }

  lemma BitmapAt(members: seq<Val>, b: seq<byte>, at: nat)
    requires J.Holds(b, at, NullBitmap(NullFlags(members)))
    ensures forall i :: 0 <= i < |members| ==> NullAt(b, at, i) == members[i].VNull?
  {
    hide NullBitmap, Bits.BitOf;
    var bits := NullBitmap(NullFlags(members));
    forall i | 0 <= i < |members| ensures NullAt(b, at, i) == members[i].VNull? {
      NullBit(NullFlags(members), i);
      assert b[at..at + |bits|][i / 8] == b[at + i / 8];
    }
  }

  lemma {:induction false} ReadsMembers(h: J.Host, v: Val, t: Type, b: seq<byte>, nulls: nat, p: nat, i: nat)
    requires J.Javascript(h) && v.VColl? && WellShaped(v) && WellFormed(t) && Conforms(v, t) && Tidy(v)
             && i <= |v.members|
    requires Chunks(h, v, i).Some? && |Chunks(h, v, i).value| < 0x1_0000_0000 && J.Holds(b, p, Chunks(h, v, i).value)
    requires forall k :: 0 <= k < |v.members| ==> NullAt(b, nulls, k) == v.members[k].VNull?
    ensures DecodeMembers(h, b, nulls, p, t, i, |v.members|)
            == if CountsFrom(h, v, i) then Some(v.members[i..]) else None
    decreases v, 0, |v.members| - i
  {
    hide J.Holds, Payload, DecodePayload, CountsOK, Tidy, WellShaped, WellFormed, Conforms, MemberType, NullAt;
    var n := |v.members|;
    assert v.members[n..] == [];
    if i < n {
      var m := v.members[i];
      MemberFacts(v, t, i);
      assert v.members[i..] == [m] + v.members[i + 1..];
      if m.VNull? {
        ReadsMembers(h, v, t, b, nulls, p, i + 1);
        NullCounts(h);
      } else {
        var first, rest := Payload(h, m).value, Chunks(h, v, i + 1).value;
        J.HoldsSplit(b, p, first, rest);
        ReadsTidy(h, m, MemberType(t, i).value, b, p);
        if CountsOK(h, m) {
          ReadsMembers(h, v, t, b, nulls, p + |first|, i + 1);
        }
      }
    }
  }

  lemma NullCounts(h: J.Host)
    ensures CountsOK(h, VNull)
  {
  }

  lemma MemberFacts(v: Val, t: Type, i: nat)
    requires v.VColl? && WellShaped(v) && WellFormed(t) && Conforms(v, t) && Tidy(v) && i < |v.members|
    ensures t.TColl? && MemberType(t, i).Some? && WellFormed(MemberType(t, i).value)
    ensures WellShaped(v.members[i]) && Tidy(v.members[i]) && Conforms(v.members[i], MemberType(t, i).value)
  {
  }

  // ---- assembling ----

  lemma Reassembles(v: Val, t: Type)
    requires v.VColl? && WellShaped(v) && WellFormed(t) && Conforms(v, t) && Tidy(v)
    ensures t.TColl? && Assemble(t, v.members) == v
  {
    hide J.Survives;
    match v.shape
    case Arr =>
    case MapOf =>
      assert [] + v.members == v.members;
      SetsPairs([], v.members);
    case StructOf(names) =>
      assert names[..0] == [] && v.members[..0] == [];
      SetsFields(names, v.members, 0);
  }

  lemma {:induction false} SetsPairs(acc: seq<Val>, ms: seq<Val>)
    requires |acc| % 2 == 0 && |ms| % 2 == 0 && TidyKeys(acc + ms)
    ensures SetPairs(acc, ms) == acc + ms
    decreases |ms|
  {
    if ms == [] {
      assert acc + [] == acc;
    } else {
      var all := acc + ms;
      forall k | 0 <= k < |acc| && k % 2 == 0 && Primitive(acc[k]) ensures acc[k] != ms[0] {
        assert all[k] == acc[k] && all[|acc|] == ms[0];
      }
      assert acc + ms[..2] + ms[2..] == all;
      SetsPairs(acc + ms[..2], ms[2..]);
    }
  }

  lemma {:induction false} SetsFields(names: seq<string>, ms: seq<Val>, i: nat)
    requires TidyNames(names) && |names| == |ms| && i <= |names|
    ensures SetFields(names, ms, i, names[..i], ms[..i]) == (names, ms)
    decreases |names| - i
  {
    if i == |names| {
      assert names[..i] == names && ms[..i] == ms;
    } else {
      assert forall k :: 0 <= k < i ==> names[..i][k] == names[k] != names[i];
      assert names[..i] + [names[i]] == names[..i + 1];
      assert ms[..i] + [ms[i]] == ms[..i + 1];
      SetsFields(names, ms, i + 1);
    }
  }

  // ---- the inferred type ----

  lemma {:induction false} InferredType(h: J.Host, v: Val)
    requires J.Javascript(h) && WellShaped(v) && Tidy(v) && (!v.VNull? ==> Payload(h, v).Some?)
    ensures WellFormed(TypeOf(v)) && Writable(h, TypeOf(v)) && NamesGood(TypeOf(v))
    decreases v, 1, 0
  {
    hide TidyKeys, TidyScalar, J.Survives, J.Javascript;
    if v.VColl? {
      match v.shape
      case Arr => InferredFirst(h, v, 0, 1);
      case MapOf => InferredFirst(h, v, 0, 2); InferredFirst(h, v, 1, 2);
      case StructOf(names) =>
        forall i | 0 <= i < |names| ensures J.Survives(h, names[i]) { J.AllSurvive(h, names[i]); }
        forall i | 0 <= i < |v.members|
          ensures WellFormed(TypeOf(v.members[i])) && Writable(h, TypeOf(v.members[i]))
                  && NamesGood(TypeOf(v.members[i])) {
          if !v.members[i].VNull? { ChunkPayload(h, v, 0, i); }
          InferredType(h, v.members[i]);
        }
    }
  }

  lemma {:induction false} ChunkPayload(h: J.Host, v: Val, i: nat, k: nat)
    requires v.VColl? && i <= k < |v.members| && Chunks(h, v, i).Some? && !v.members[k].VNull?
    ensures Payload(h, v.members[k]).Some?
    decreases k - i
  {
    hide Payload;
    if i < k { ChunkPayload(h, v, i + 1, k); }
  }

  lemma {:induction false} InferredFirst(h: J.Host, v: Val, from: nat, step: nat)
    requires J.Javascript(h) && v.VColl? && step >= 1 && WellShaped(v) && Tidy(v) && Payload(h, v).Some?
    ensures WellFormed(FirstType(v, from, step)) && Writable(h, FirstType(v, from, step))
            && NamesGood(FirstType(v, from, step))
    decreases v, 0, if from < |v.members| then |v.members| - from else 0
  {
    hide TypeOf, TidyKeys, TidyNames;
    if from < |v.members| {
      if v.members[from].VNull? {
        InferredFirst(h, v, from + step, step);
      } else {
        ChunkPayload(h, v, 0, from);
        InferredType(h, v.members[from]);
      }
    }
  }

  /** A payload reads back as the value it was written for, NULLs in place, consuming exactly its bytes,
      if and only if the value is tidy and the count limits hold. */
  lemma ReadsPayload(h: J.Host, v: Val, t: Type, b: seq<byte>, off: nat)
    requires J.Javascript(h) && !v.VNull? && WellShaped(v) && WellFormed(t) && Conforms(v, t)
    requires Payload(h, v).Some? && |Payload(h, v).value| < 0x1_0000_0000 && J.Holds(b, off, Payload(h, v).value)
    ensures DecodePayload(h, b, off, t) == At(v, off + |Payload(h, v).value|) <==> Tidy(v) && CountsOK(h, v)
  {
    hide Payload, DecodePayload, WellShaped, WellFormed, Conforms, Tidy, CountsOK, J.Holds, J.Javascript;
    if DecodePayload(h, b, off, t).At? { DecodedTidy(h, b, off, t); }
    if Tidy(v) { ReadsTidy(h, v, t, b, off); }
  }

  lemma TidyRoundTrip(h: J.Host, v: Val)
    requires J.Javascript(h) && v.VColl? && WellShaped(v) && Tidy(v)
    requires EncodeCollectionParam(h, v).Some? && |EncodeCollectionParam(h, v).value| < 0x1_0000_0000
    ensures WellFormed(TypeOf(v))
    ensures DecodeValue(h, EncodeCollectionParam(h, v).value, 0) == At(v, |EncodeCollectionParam(h, v).value|)
            <==> Conforms(v, TypeOf(v)) && DepthOK(TypeOf(v), 0) && CountsOK(h, v)
    ensures Conforms(v, TypeOf(v)) && !CountsOK(h, v) ==> DecodeValue(h, EncodeCollectionParam(h, v).value, 0) == Bad
  {
    hide Nested, Payload, TypeOf, WellShaped, WellFormed, Tidy, ReadNested, DecodePayload, DepthOK, CountsOK, Conforms,
        J.Holds, NamesGood, TidyType;
    InferredType(h, v);
    var t := TypeOf(v);
    var nested, payload := Nested(h, t).value, Payload(h, v).value;
    var b := EncodeCollectionParam(h, v).value;
    TypeShape(v);
    ParamLayout(b, ShapeKind(v.shape) as byte, nested, payload);
    ReadsNested(h, t, b, 7, 0);
    TidySame(t);
    if Conforms(v, t) {
      ReadsTidy(h, v, t, b, 7 + |nested|);
    } else if DecodePayload(h, b, 7 + |nested|, t).At? {
      DecodedConforms(h, b, 7 + |nested|, t);
    }
  }

  /** For every collection: decoding its encoding returns the same tree, NULLs in place, and consumes
      exactly the encoded bytes, if and only if the value is tidy, its members conform to the inferred
      type, and the descriptor and count limits hold at every level. */
  lemma CollectionRoundTrip(h: J.Host, v: Val)
    requires J.Javascript(h) && v.VColl? && WellShaped(v)
    requires EncodeCollectionParam(h, v).Some? && |EncodeCollectionParam(h, v).value| < 0x1_0000_0000
    ensures WellFormed(TypeOf(v))
    ensures DecodeValue(h, EncodeCollectionParam(h, v).value, 0) == At(v, |EncodeCollectionParam(h, v).value|)
            <==> Tidy(v) && Conforms(v, TypeOf(v)) && DepthOK(TypeOf(v), 0) && CountsOK(h, v)
  {
    hide EncodeCollectionParam, WellShaped, WellFormed, Tidy, Conforms, DepthOK, CountsOK, TypeOf, J.Javascript,
        ReadNested, DecodePayload;
    TypeWellFormed(v);
    if Tidy(v) { TidyRoundTrip(h, v); }
    var b := EncodeCollectionParam(h, v).value;
    if DecodeValue(h, b, 0) == At(v, |b|) {
      var t := ReadNested(h, b, 7, b[0] as int, 0);
      DecodedTidy(h, b, t.next, t.value);
    }
  }

  lemma {:induction false} TypeWellFormed(v: Val)
    requires WellShaped(v)
    ensures WellFormed(TypeOf(v))
    decreases v, 1, 0
  {
    if v.VColl? {
      match v.shape
      case Arr => FirstWellFormed(v, 0, 1);
      case MapOf => FirstWellFormed(v, 0, 2); FirstWellFormed(v, 1, 2);
      case StructOf(names) =>
        forall i | 0 <= i < |v.members| ensures WellFormed(TypeOf(v.members[i])) { TypeWellFormed(v.members[i]); }
    }
  }

  lemma {:induction false} FirstWellFormed(v: Val, from: nat, step: nat)
    requires v.VColl? && step >= 1 && WellShaped(v)
    ensures WellFormed(FirstType(v, from, step))
    decreases v, 0, if from < |v.members| then |v.members| - from else 0
  {
    hide TypeOf;
    if from < |v.members| {
      if v.members[from].VNull? {
        FirstWellFormed(v, from + step, step);
      } else {
        TypeWellFormed(v.members[from]);
      }
    }
  }

  // ---- whatever the decoder returns is tidy ----

  lemma {:induction false} DecodedTidy(h: J.Host, b: seq<byte>, off: nat, t: Type)
    requires WellFormed(t) && DecodePayload(h, b, off, t).At?
    ensures Tidy(DecodePayload(h, b, off, t).value)
    decreases t, 1, 0
  {
    hide D.DecodeDecimal, GetLE, GetI64, F.GetInt, NullAt, SetPairs, SetFields, TidyDecimal, TidyKeys, TidyNames;
    if t.TColl? {
      var n := GetLE(b[off + 4..off + 8]);
      var p := off + 8 + (n + 7) / 8;
      MembersTidy(h, b, off + 8, p, t, 0, n);
      AssembledTidy(t, DecodeMembers(h, b, off + 8, p, t, 0, n).value);
    } else {
      ScalarTidy(h, b, off, t.kind);
    }
  }

  lemma ScalarTidy(h: J.Host, b: seq<byte>, off: nat, kind: nat)
    requires DecodeScalar(h, b, off, kind).At?
    ensures Tidy(DecodeScalar(h, b, off, kind).value)
  {
    hide D.DecodeDecimal, GetLE, GetI64, F.GetInt, TidyDecimal, ReadU32Bytes;
    if kind == F.DECIMAL {
      var got := ReadU32Bytes(b, off);
      DecimalTidy(got.value);
    }
  }

  lemma DecimalTidy(raw: seq<byte>)
    requires D.DecodeDecimal(raw).Some?
    ensures TidyDecimal(D.DecodeDecimal(raw).value)
  {
    D.DecodedDecimal(raw);
  }

  lemma {:induction false} MembersTidy(h: J.Host, b: seq<byte>, nulls: nat, p: nat, t: Type, i: nat, n: nat)
    requires t.TColl? && WellFormed(t) && i <= n && DecodeMembers(h, b, nulls, p, t, i, n).Some?
    ensures forall k :: 0 <= k < n - i ==> Tidy(DecodeMembers(h, b, nulls, p, t, i, n).value[k])
    decreases t, 0, n - i
  {
    hide DecodePayload, Tidy, NullAt;
    if i < n {
      var r := DecodeMembers(h, b, nulls, p, t, i, n).value;
      if NullAt(b, nulls, i) {
        MembersTidy(h, b, nulls, p, t, i + 1, n);
        NullTidy();
      } else {
        var mt := MemberType(t, i).value;
        assert mt in t.elems;
        DecodedTidy(h, b, p, mt);
        MembersTidy(h, b, nulls, DecodePayload(h, b, p, mt).next, t, i + 1, n);
      }
      forall k | 0 <= k < n - i ensures Tidy(r[k]) {
        if k > 0 { assert r[k] == r[1..][k - 1]; }
      }
    }
  }

  lemma NullTidy()
    ensures Tidy(VNull)
  {
  }

  predicate AllTidy(vs: seq<Val>) { forall i :: 0 <= i < |vs| ==> Tidy(vs[i]) }

  lemma AssembledTidy(t: Type, ms: seq<Val>)
    requires t.TColl? && AllTidy(ms)
    ensures Tidy(Assemble(t, ms))
  {
    hide SetPairs, SetFields, TidyKeys, TidyNames;
    match t.shape
    case Arr =>
    case MapOf =>
      NoKeys();
      SetPairsTidy([], ms);
    case StructOf(names) =>
      NoKeys();
      SetFieldsTidy(names, ms, 0, [], []);
  }

  lemma NoKeys()
    ensures TidyKeys([]) && TidyNames([])
  {
  }

  lemma {:induction false} SetPairsTidy(acc: seq<Val>, ms: seq<Val>)
    requires |acc| % 2 == 0 && TidyKeys(acc) && AllTidy(acc) && AllTidy(ms)
    ensures TidyKeys(SetPairs(acc, ms)) && AllTidy(SetPairs(acc, ms))
    decreases |ms|
  {
    hide Tidy;
    if |ms| >= 2 {
      var j := PairIndex(acc, ms[0]);
      if j < |acc| {
        SetPairsTidy(acc[j + 1 := ms[1]], ms[2..]);
      } else {
        PairIndexMisses(acc, ms[0]);
        SetPairsTidy(acc + ms[..2], ms[2..]);
      }
    }
  }

  lemma {:induction false} PairIndexMisses(acc: seq<Val>, k: Val)
    requires |acc| % 2 == 0 && PairIndex(acc, k) == |acc|
    ensures forall i :: 0 <= i < |acc| && i % 2 == 0 && Primitive(k) ==> acc[i] != k
  {
    if acc != [] {
      PairIndexMisses(acc[2..], k);
      forall i | 0 <= i < |acc| && i % 2 == 0 && Primitive(k) ensures acc[i] != k {
        if i >= 2 { assert acc[i] == acc[2..][i - 2]; }
      }
    }
  }

  lemma {:induction false} SetFieldsTidy(names: seq<string>, ms: seq<Val>, i: nat, gotNames: seq<string>, got: seq<Val>)
    requires i <= |names| && |gotNames| == |got| && TidyNames(gotNames) && AllTidy(got) && AllTidy(ms)
    ensures var r := SetFields(names, ms, i, gotNames, got); TidyNames(r.0) && AllTidy(r.1)
    decreases |names| - i
  {
    hide Tidy;
    if i < |names| {
      var v := if i < |ms| then ms[i] else VNull;
      NullTidy();
      var j := NameIndex(gotNames, names[i]);
      if names[i] == J.PROTO {
        SetFieldsTidy(names, ms, i + 1, gotNames, got);
      } else if j < |got| {
        SetFieldsTidy(names, ms, i + 1, gotNames, got[j := v]);
      } else {
        NameIndexMisses(gotNames, names[i]);
        SetFieldsTidy(names, ms, i + 1, gotNames + [names[i]], got + [v]);
      }
    }
  }

  lemma {:induction false} NameIndexMisses(names: seq<string>, n: string)
    requires NameIndex(names, n) == |names|
    ensures n !in names
  {
    if names != [] { NameIndexMisses(names[1..], n); }
  }

  // ---- inputs that do not come back ----

  function Nulls(n: nat): (v: Val)
  {
    VColl(Arr, seq(n, _ => VNull))
  }

  lemma {:induction false} NullChunks(h: J.Host, n: nat, i: nat)
    requires i <= n
    ensures Chunks(h, Nulls(n), i) == Some([])
    decreases n - i
  {
    if i < n { NullChunks(h, n, i + 1); }
  }

  lemma {:induction false} NullType(n: nat, i: nat)
    ensures FirstType(Nulls(n), i, 1) == TScalar(F.STRING)
    decreases n - i
  {
    if i < n { NullType(n, i + 1); }
  }

  lemma NullDescriptor(h: J.Host, t: Type)
    requires t == TColl(Arr, [TScalar(F.STRING)])
    ensures Nested(h, t) == Some([F.STRING as byte, 0, 0, 0, 0, 0]) && DepthOK(t, 0)
  {
    assert NestedFrom(h, t, 1) == Some([]);
    assert Nested(h, t.elems[0]) == Some([]);
    var e: seq<byte> := [F.STRING as byte, 0, 0, 0, 0, 0];
    assert [] + (e + []) + [] == e;
    assert NestedFrom(h, t, 0) == Some([] + (e + []) + []);
    assert DepthFrom(t, 1, 1);
    assert DepthFrom(t, 0, 1);
  }

  lemma {:induction false} NullCountsFrom(h: J.Host, n: nat, i: nat)
    requires i <= n
    ensures CountsFrom(h, Nulls(n), i)
    decreases n - i
  {
    if i < n { NullCountsFrom(h, n, i + 1); }
  }

  lemma NullPayload(h: J.Host, n: nat)
    requires n < 0x1_0000_0000
    ensures Payload(h, Nulls(n)).Some? && |Payload(h, Nulls(n)).value| == 8 + (n + 7) / 8
  {
    hide NullBitmap, PutLE, Chunks;
    NullChunks(h, n, 0);
  }

  lemma NullsCount(h: J.Host, n: nat)
    requires n < 0x1_0000_0000
    ensures CountsOK(h, Nulls(n)) <==> n <= 5
  {
    hide Payload, CountsFrom;
    NullPayload(h, n);
    NullCountsFrom(h, n, 0);
  }

  lemma NullsShape(h: J.Host, n: nat)
    requires n < 0x1_0000_0000
    ensures WellShaped(Nulls(n)) && Tidy(Nulls(n)) && TypeOf(Nulls(n)) == TColl(Arr, [TScalar(F.STRING)])
    ensures WellFormed(TypeOf(Nulls(n))) && Conforms(Nulls(n), TypeOf(Nulls(n)))
  {
    hide FirstType;
    NullType(n, 0);
  }

  /** An array of n NULLs has four bytes of count and one bit for each: it comes back up to five NULLs,
      and from six on the decoder's count check refuses it. */
  lemma NullArrays(h: J.Host, n: nat)
    requires J.Javascript(h) && n < 0x1_0000_0000
    ensures EncodeCollectionParam(h, Nulls(n)).Some?
    ensures DecodeValue(h, EncodeCollectionParam(h, Nulls(n)).value, 0)
            == if n <= 5 then At(Nulls(n), |EncodeCollectionParam(h, Nulls(n)).value|) else Bad
  {
    hide Payload, Nulls, Nested, DepthOK, CountsOK, Conforms, WellShaped, Tidy, WellFormed, TypeOf, DecodeValue,
        J.Javascript;
    NullsAre(n);
    NullPayload(h, n);
    NullsCount(h, n);
    NullsShape(h, n);
    NullDescriptor(h, TypeOf(Nulls(n)));
    TidyRoundTrip(h, Nulls(n));
  }

  lemma NullsAre(n: nat)
    ensures Nulls(n).VColl?
  {
  }

  /** A struct with two fields of one name does not come back, whatever the fields hold. */
  lemma RepeatedField(h: J.Host, name: string, ms: seq<Val>)
    requires J.Javascript(h) && |ms| == 2 && (forall i :: 0 <= i < 2 ==> WellShaped(ms[i]))
    requires var v := VColl(StructOf([name, name]), ms);
             EncodeCollectionParam(h, v).Some? && |EncodeCollectionParam(h, v).value| < 0x1_0000_0000
    ensures var v := VColl(StructOf([name, name]), ms);
            DecodeValue(h, EncodeCollectionParam(h, v).value, 0) != At(v, |EncodeCollectionParam(h, v).value|)
  {
    hide EncodeCollectionParam, DecodeValue, J.Javascript, Tidy, Conforms, DepthOK, CountsOK;
    var v := VColl(StructOf([name, name]), ms);
    CollectionRoundTrip(h, v);
    NotTidy(v);
  }

  lemma NotTidy(v: Val)
    requires v.VColl? && v.shape.StructOf? && |v.shape.names| == 2 && v.shape.names[0] == v.shape.names[1]
    ensures !Tidy(v)
  {
  }

  lemma TypeShape(v: Val)
    requires v.VColl?
    ensures TypeOf(v).TColl? && TypeOf(v).shape == v.shape && TypeByte(TypeOf(v)) == ShapeKind(v.shape)
  {
  }

  lemma ParamLayout(b: seq<byte>, k: byte, nested: seq<byte>, payload: seq<byte>)
    requires b == [k, 0, 0, 0, 0, 0, 0] + nested + payload
    ensures b[0] == k && b[1] == 0 && J.Holds(b, 7, nested) && J.Holds(b, 7 + |nested|, payload)
  {
  }

  predicate NamesGood(t: Type)
    decreases t
  {
    t.TColl? ==>
      (t.shape.StructOf? ==> TidyNames(t.shape.names)) && forall i :: 0 <= i < |t.elems| ==> NamesGood(t.elems[i])
  }

  /** The types of the fields an object ends up with: the last of a repeated name, none for __proto__. */
  function SetTypes(names: seq<string>, ts: seq<Type>, i: nat, gotNames: seq<string>, got: seq<Type>)
    : (r: (seq<string>, seq<Type>))
    requires i <= |names| == |ts| && |gotNames| == |got|
    ensures |r.0| == |r.1|
    decreases |names| - i
  {
    if i == |names| then (gotNames, got)
    else
      var j := NameIndex(gotNames, names[i]);
      if names[i] == J.PROTO then SetTypes(names, ts, i + 1, gotNames, got)
      else if j < |got| then SetTypes(names, ts, i + 1, gotNames, got[j := ts[i]])
      else SetTypes(names, ts, i + 1, gotNames + [names[i]], got + [ts[i]])
  }

  /** The descriptor as its values can show it. */
  function TidyType(t: Type): Type
    requires WellFormed(t)
    decreases t
  {
    if t.TScalar? then t
    else
      var es := seq(|t.elems|, i requires 0 <= i < |t.elems| => TidyType(t.elems[i]));
      match t.shape
      case StructOf(names) => var r := SetTypes(names, es, 0, [], []); TColl(StructOf(r.0), r.1)
      case _ => TColl(t.shape, es)
  }

  predicate AllWellFormed(ts: seq<Type>) { forall i :: 0 <= i < |ts| ==> WellFormed(ts[i]) }

  lemma {:induction false} SetTypesWellFormed(names: seq<string>, ts: seq<Type>, i: nat, gotNames: seq<string>,
      got: seq<Type>)
    requires i <= |names| == |ts| && |gotNames| == |got| && AllWellFormed(ts) && AllWellFormed(got)
    ensures AllWellFormed(SetTypes(names, ts, i, gotNames, got).1)
    decreases |names| - i
  {
    hide WellFormed;
    if i < |names| {
      var j := NameIndex(gotNames, names[i]);
      if names[i] == J.PROTO { SetTypesWellFormed(names, ts, i + 1, gotNames, got); }
      else if j < |got| { SetTypesWellFormed(names, ts, i + 1, gotNames, got[j := ts[i]]); }
      else { SetTypesWellFormed(names, ts, i + 1, gotNames + [names[i]], got + [ts[i]]); }
    }
  }

  lemma {:induction false} TidyWellFormed(t: Type)
    requires WellFormed(t)
    ensures WellFormed(TidyType(t))
    decreases t
  {
    if t.TColl? {
      forall i | 0 <= i < |t.elems| ensures WellFormed(TidyType(t.elems[i])) { TidyWellFormed(t.elems[i]); }
      if t.shape.StructOf? {
        var es := seq(|t.elems|, i requires 0 <= i < |t.elems| => TidyType(t.elems[i]));
        SetTypesWellFormed(t.shape.names, es, 0, [], []);
      }
    }
  }

  lemma {:induction false} TidySame(t: Type)
    requires WellFormed(t) && NamesGood(t)
    ensures TidyType(t) == t
    decreases t
  {
    if t.TColl? {
      var es := seq(|t.elems|, i requires 0 <= i < |t.elems| => TidyType(t.elems[i]));
      forall i | 0 <= i < |t.elems| ensures es[i] == t.elems[i] { TidySame(t.elems[i]); }
      assert es == t.elems;
      if t.shape.StructOf? {
        var names := t.shape.names;
        assert names[..0] == [] && es[..0] == [];
        SetTypesSame(names, es, 0);
      }
    }
  }

  lemma {:induction false} SetTypesSame(names: seq<string>, ts: seq<Type>, i: nat)
    requires TidyNames(names) && i <= |names| == |ts|
    ensures SetTypes(names, ts, i, names[..i], ts[..i]) == (names, ts)
    decreases |names| - i
  {
    if i == |names| {
      assert names[..i] == names && ts[..i] == ts;
    } else {
      assert forall k :: 0 <= k < i ==> names[..i][k] == names[k] != names[i];
      assert names[..i] + [names[i]] == names[..i + 1];
      assert ts[..i] + [ts[i]] == ts[..i + 1];
      SetTypesSame(names, ts, i + 1);
    }
  }

  /** What the decoder returns always conforms to the descriptor it read, whatever the bytes, field names
      counted once and __proto__ not at all. */
  lemma {:induction false} DecodedConforms(h: J.Host, b: seq<byte>, off: nat, t: Type)
    requires WellFormed(t) && DecodePayload(h, b, off, t).At?
    ensures WellFormed(TidyType(t)) && Conforms(DecodePayload(h, b, off, t).value, TidyType(t))
    decreases t, 1, 0
  {
    hide D.DecodeDecimal, GetLE, GetI64, F.GetInt, NullAt, SetPairs, SetFields, SetTypes;
    TidyWellFormed(t);
    if t.TColl? {
      var n := GetLE(b[off + 4..off + 8]);
      var p := off + 8 + (n + 7) / 8;
      MembersConform(h, b, off + 8, p, t, 0, n);
      AssembledConforms(t, DecodeMembers(h, b, off + 8, p, t, 0, n).value);
    }
  }

  /** NULL, or a value of the member's type. */
  ghost predicate MemberConforms(m: Val, t: Type, i: nat)
    requires t.TColl? && WellFormed(t)
  {
    m.VNull? || (MemberType(t, i).Some? && ConformsTidy(m, MemberType(t, i).value))
  }

  ghost predicate ConformsTidy(m: Val, t: Type)
  {
    WellFormed(t) && WellFormed(TidyType(t)) && Conforms(m, TidyType(t))
  }

  lemma {:induction false} MembersConform(h: J.Host, b: seq<byte>, nulls: nat, p: nat, t: Type, i: nat, n: nat)
    requires t.TColl? && WellFormed(t) && i <= n && DecodeMembers(h, b, nulls, p, t, i, n).Some?
    ensures forall k :: 0 <= k < n - i ==> MemberConforms(DecodeMembers(h, b, nulls, p, t, i, n).value[k], t, i + k)
    decreases t, 0, n - i
  {
    hide DecodePayload, Conforms, NullAt, TidyType;
    if i < n {
      var r := DecodeMembers(h, b, nulls, p, t, i, n).value;
      if NullAt(b, nulls, i) {
        MembersConform(h, b, nulls, p, t, i + 1, n);
      } else {
        var mt := MemberType(t, i).value;
        assert mt in t.elems;
        DecodedConforms(h, b, p, mt);
        MembersConform(h, b, nulls, DecodePayload(h, b, p, mt).next, t, i + 1, n);
      }
      forall k | 0 <= k < n - i ensures MemberConforms(r[k], t, i + k) {
        if k > 0 { assert r[k] == r[1..][k - 1]; }
      }
    }
  }

  lemma AssembledConforms(t: Type, ms: seq<Val>)
    requires t.TColl? && WellFormed(t) && WellFormed(TidyType(t))
    requires forall k :: 0 <= k < |ms| ==> MemberConforms(ms[k], t, k)
    ensures Conforms(Assemble(t, ms), TidyType(t))
  {
    hide SetPairs, SetFields, SetTypes;
    forall k | 0 <= k < |t.elems| ensures WellFormed(TidyType(t.elems[k])) { TidyWellFormed(t.elems[k]); }
    match t.shape
    case Arr =>
      forall k | 0 <= k < |ms| ensures Conforms(ms[k], TidyType(t.elems[0])) { assert MemberConforms(ms[k], t, k); }
    case MapOf =>
      SetPairsConform(t, [], ms);
      var r := SetPairs([], ms);
      forall k | 0 <= k < |r| ensures Conforms(r[k], TidyType(t.elems[k % 2])) { assert MemberConforms(r[k], t, k); }
    case StructOf(names) =>
      var es := seq(|t.elems|, i requires 0 <= i < |t.elems| => TidyType(t.elems[i]));
      SetFieldsConform(t, es, ms, 0, [], [], []);
  }

  lemma {:induction false} SetPairsConform(t: Type, acc: seq<Val>, ms: seq<Val>)
    requires t.TColl? && t.shape.MapOf? && WellFormed(t) && |acc| % 2 == 0
    requires forall k :: 0 <= k < |acc| ==> MemberConforms(acc[k], t, k)
    requires forall k :: 0 <= k < |ms| ==> MemberConforms(ms[k], t, k)
    ensures forall k :: 0 <= k < |SetPairs(acc, ms)| ==> MemberConforms(SetPairs(acc, ms)[k], t, k)
    decreases |ms|
  {
    hide Conforms, TidyType;
    if |ms| >= 2 {
      var j := PairIndex(acc, ms[0]);
      var acc' := if j < |acc| then acc[j + 1 := ms[1]] else acc + ms[..2];
      assert MemberConforms(ms[0], t, 0) && MemberConforms(ms[1], t, 1);
      forall k | 0 <= k < |ms[2..]| ensures MemberConforms(ms[2..][k], t, k) {
        assert MemberConforms(ms[k + 2], t, k + 2);
      }
      SetPairsConform(t, acc', ms[2..]);
    }
  }

  ghost predicate Match(v: Val, t: Type) { WellFormed(t) && Conforms(v, t) }

  /** Values and types are assigned to the same names in step. */
  lemma {:induction false} SetFieldsConform(t: Type, es: seq<Type>, ms: seq<Val>, i: nat, gotNames: seq<string>,
      got: seq<Val>, gotTypes: seq<Type>)
    requires t.TColl? && t.shape.StructOf? && WellFormed(t) && i <= |t.shape.names| == |es|
             && |gotNames| == |got| == |gotTypes|
    requires forall k :: 0 <= k < |es| ==> es[k] == TidyType(t.elems[k]) && WellFormed(es[k])
    requires forall k :: 0 <= k < |ms| ==> MemberConforms(ms[k], t, k)
    requires forall k :: 0 <= k < |got| ==> Match(got[k], gotTypes[k])
    ensures var r, q := SetFields(t.shape.names, ms, i, gotNames, got),
            SetTypes(t.shape.names, es, i, gotNames, gotTypes);
            r.0 == q.0 && |r.1| == |r.0| && forall k :: 0 <= k < |r.1| ==> Match(r.1[k], q.1[k])
    decreases |t.shape.names| - i
  {
    hide Conforms, TidyType;
    var names := t.shape.names;
    if i < |names| {
      var v := if i < |ms| then ms[i] else VNull;
      assert i < |ms| ==> MemberConforms(ms[i], t, i);
      NullMatches(es[i]);
      assert Match(v, es[i]);
      var j := NameIndex(gotNames, names[i]);
      if names[i] == J.PROTO { SetFieldsConform(t, es, ms, i + 1, gotNames, got, gotTypes); }
      else if j < |got| { SetFieldsConform(t, es, ms, i + 1, gotNames, got[j := v], gotTypes[j := es[i]]); }
      else { SetFieldsConform(t, es, ms, i + 1, gotNames + [names[i]], got + [v], gotTypes + [es[i]]); }
    }
  }

  lemma NullMatches(t: Type)
    requires WellFormed(t)
    ensures Match(VNull, t)
  {
  }
}
