/** NSJB binary JSON: the printer of the client-encryption module and the parser of the driver. */
module Json {
  import opened Bytes
  import opened Reading
  import Utf8

  const MAX_PLAINTEXT := 0x10_0000
  const MAX_DEPTH := 32

  /** Object members are listed in insertion order; an integer is a safe number or a bigint, any other number the
      digits it prints as. */
  datatype Json =
    | JNull
    | JBool(b: bool)
    | JInt(n: int)
    | JNum(digits: seq<byte>)
    | JStr(s: string)
    | JArr(items: seq<Json>)
    | JObj(fields: seq<Field>)
  datatype Field = Field(key: string, value: Json)

  /** The host functions the codec calls: UTF-8 both ways, the BigInt to number conversion, the number
      (or, if it is not finite, the string) that printed digits stand for, and the names under which
      assignment to a fresh object makes no own property. Nothing is assumed of them; the printer itself
      checks that a string survives UTF-8. */
  datatype Host = Host(utf8: string -> seq<byte>, text: seq<byte> -> string, number: int -> int,
                       decimal: seq<byte> -> Json, swallows: string -> bool)

  const PROTO := "__proto__"

  /** JavaScript: UTF-8 loses nothing, numbers keep safe integers, and __proto__ is the swallowed name. */
  ghost predicate Javascript(h: Host)
  {
    && (forall s :: h.utf8(s) == Utf8.Encode(s) && h.text(Utf8.Encode(s)) == s)
    && (forall n :: -0x20_0000_0000_0000 < n < 0x20_0000_0000_0000 ==> h.number(n) == n)
    && (forall k :: h.swallows(k) <==> k == PROTO)
  }

  predicate Survives(h: Host, s: string) { h.text(h.utf8(s)) == s }

  lemma AllSurvive(h: Host, s: string)
    requires Javascript(h)
    ensures Survives(h, s)
  {
  }

  // ---- byte-wise key order ----

  predicate LexLess(a: seq<byte>, b: seq<byte>)
  {
    b != [] && (a == [] || a[0] < b[0] || (a[0] == b[0] && LexLess(a[1..], b[1..])))
  }

  lemma {:induction false} LexTotal(a: seq<byte>, b: seq<byte>)
    ensures a == b || LexLess(a, b) || LexLess(b, a)
    ensures !(LexLess(a, b) && LexLess(b, a))
    ensures a == b ==> !LexLess(a, b)
  {
    if a != [] && b != [] {
      LexTotal(a[1..], b[1..]);
      if a[0] == b[0] && a[1..] == b[1..] {
        assert a == [a[0]] + a[1..];
        assert b == [b[0]] + b[1..];
      }
    }
  }

  lemma {:induction false} LexTransitive(a: seq<byte>, b: seq<byte>, c: seq<byte>)
    requires LexLess(a, b) && LexLess(b, c)
    ensures LexLess(a, c)
  {
    if a != [] && a[0] == b[0] == c[0] {
      LexTransitive(a[1..], b[1..], c[1..]);
    }
  }

  predicate Before(h: Host, f: Field, g: Field) { LexLess(h.utf8(f.key), h.utf8(g.key)) }

  function Insert(h: Host, f: Field, fs: seq<Field>): (r: seq<Field>)
    ensures |r| == |fs| + 1
    ensures forall x :: x in r <==> x == f || x in fs
  {
    if fs == [] then [f]
    else if Before(h, f, fs[0]) then [f] + fs
    else
      var r := [fs[0]] + Insert(h, f, fs[1..]);
      assert forall x :: x in fs <==> x == fs[0] || x in fs[1..];
      r
  }

  function Sort(h: Host, fs: seq<Field>): (r: seq<Field>)
    ensures |r| == |fs|
    ensures forall x :: x in r <==> x in fs
  {
    if fs == [] then []
    else
      assert forall x :: x in fs <==> x == fs[0] || x in fs[1..];
      Insert(h, fs[0], Sort(h, fs[1..]))
  }

  predicate Ascending(h: Host, fs: seq<Field>)
  {
    forall i, j :: 0 <= i < j < |fs| ==> Before(h, fs[i], fs[j])
  }

  predicate DistinctKeys(h: Host, fs: seq<Field>)
  {
    forall i, j :: 0 <= i < j < |fs| ==> h.utf8(fs[i].key) != h.utf8(fs[j].key)
  }

  lemma {:induction false} InsertAscending(h: Host, f: Field, fs: seq<Field>)
    requires Ascending(h, fs)
    requires forall g :: g in fs ==> h.utf8(g.key) != h.utf8(f.key)
    ensures Ascending(h, Insert(h, f, fs))
  {
    if fs == [] {
    } else if Before(h, f, fs[0]) {
      forall j | 0 <= j < |fs| ensures Before(h, f, fs[j]) {
        if j > 0 { LexTransitive(h.utf8(f.key), h.utf8(fs[0].key), h.utf8(fs[j].key)); }
      }
    } else {
      InsertAscending(h, f, fs[1..]);
      LexTotal(h.utf8(f.key), h.utf8(fs[0].key));
      var r := Insert(h, f, fs[1..]);
      forall g | g in r ensures Before(h, fs[0], g) {
        if g != f {
          var k :| 0 <= k < |fs[1..]| && fs[1..][k] == g;
          assert Before(h, fs[0], fs[k + 1]);
        }
      }
    }
  }

  lemma {:induction false} SortAscending(h: Host, fs: seq<Field>)
    requires DistinctKeys(h, fs)
    ensures Ascending(h, Sort(h, fs))
  {
    if fs != [] {
      SortAscending(h, fs[1..]);
      InsertAscending(h, fs[0], Sort(h, fs[1..]));
    }
  }

  /** An ascending list is determined by what it holds. */
  lemma {:induction false} AscendingUnique(h: Host, xs: seq<Field>, ys: seq<Field>)
    requires Ascending(h, xs) && Ascending(h, ys)
    requires forall x :: x in xs <==> x in ys
    ensures xs == ys
  {
    assert ys != [] ==> ys[0] in ys;
    if xs == [] {
      assert ys == [];
    } else {
      assert xs[0] in ys && ys != [];
      HeadsAgree(h, xs, ys);
      TailsHold(h, xs, ys);
      AscendingUnique(h, xs[1..], ys[1..]);
      assert xs == [xs[0]] + xs[1..];
      assert ys == [ys[0]] + ys[1..];
    }
  }

  lemma HeadsAgree(h: Host, xs: seq<Field>, ys: seq<Field>)
    requires xs != [] && ys != [] && Ascending(h, xs) && Ascending(h, ys)
    requires forall x :: x in xs <==> x in ys
    ensures xs[0] == ys[0]
  {
    if xs[0] != ys[0] {
      assert xs[0] in ys && ys[0] in xs;
      var j :| 0 <= j < |ys| && ys[j] == xs[0];
      var i :| 0 <= i < |xs| && xs[i] == ys[0];
      assert Before(h, ys[0], xs[0]) && Before(h, xs[0], ys[0]);
      LexTotal(h.utf8(xs[0].key), h.utf8(ys[0].key));
    }
  }

  lemma TailsHold(h: Host, xs: seq<Field>, ys: seq<Field>)
    requires xs != [] && ys != [] && xs[0] == ys[0] && Ascending(h, xs) && Ascending(h, ys)
    requires forall x :: x in xs <==> x in ys
    ensures forall x :: x in xs[1..] <==> x in ys[1..]
  {
    NotInTail(h, xs);
    NotInTail(h, ys);
    forall x ensures x in xs[1..] <==> x in ys[1..] {
      assert x in xs <==> x == xs[0] || x in xs[1..];
      assert x in ys <==> x == ys[0] || x in ys[1..];
    }
  }

  lemma NotInTail(h: Host, xs: seq<Field>)
    requires xs != [] && Ascending(h, xs)
    ensures xs[0] !in xs[1..]
  {
    if xs[0] in xs[1..] {
      var i :| 0 <= i < |xs[1..]| && xs[1..][i] == xs[0];
      assert Before(h, xs[0], xs[i + 1]);
      LexTotal(h.utf8(xs[0].key), h.utf8(xs[0].key));
    }
  }

  // ---- printer ----

  function Tagged(tag: byte, raw: seq<byte>): Option<seq<byte>>
  {
    if |raw| > MAX_PLAINTEXT then None else Some([tag] + U32(|raw|) + raw)
  }

  function Print(h: Host, v: Json, depth: nat): (r: Option<seq<byte>>)
    decreases v, 1, 0
  {
    if depth > MAX_DEPTH then None
    else match v
      case JNull => Some([0])
      case JBool(b) => Some([if b then 2 else 1])
      case JInt(n) => if FitsI64(n) then Some([3] + I64(n)) else None
      case JNum(digits) => Tagged(5, digits)
      case JStr(s) => if Survives(h, s) then Tagged(4, h.utf8(s)) else None
      case JArr(items) =>
        if |items| > 0x10_0000 then None else
        var vals := PrintItems(h, items, depth + 1);
        if vals.None? || 4 + |vals.value| > MAX_PLAINTEXT then None
        else
          var body := U32(|items|) + vals.value;
          Some([6] + U32(|body|) + body)
      case JObj(fields) =>
        if (exists f :: f in fields && !Survives(h, f.key)) || |fields| > 0xffff then None else
        var entries := PrintFields(h, v, Sort(h, fields), depth + 1);
        if entries.None? || 2 + |entries.value| > MAX_PLAINTEXT then None
        else
          var body := U16(|fields|) + entries.value;
          Some([7] + U32(|body|) + body)
  }

  function PrintItems(h: Host, items: seq<Json>, depth: nat): (r: Option<seq<byte>>)
    decreases items, 0, 0
  {
    if items == [] then Some([])
    else
      var first, rest := Print(h, items[0], depth), PrintItems(h, items[1..], depth);
      if first.None? || rest.None? then None else Some(first.value + rest.value)
  }

  /** The members of v in the order given, each with its length-prefixed key. */
  function PrintFields(h: Host, v: Json, fs: seq<Field>, depth: nat): (r: Option<seq<byte>>)
    requires v.JObj? && forall f :: f in fs ==> f in v.fields
    decreases v, 0, |fs|
  {
    if fs == [] then Some([])
    else
      assert fs[0] in v.fields;
      var k := h.utf8(fs[0].key);
      var first, rest := Print(h, fs[0].value, depth), PrintFields(h, v, fs[1..], depth);
      if |k| > 0xffff || first.None? || rest.None? then None
      else Some(U16(|k|) + k + first.value + rest.value)
  }

  const MAGIC: seq<byte> := [0x4e, 0x53, 0x4a, 0x42, 1]

  function EncodeNSJB(h: Host, v: Json): Option<seq<byte>>
  {
    var body := Print(h, v, 0);
    if body.None? || |MAGIC + body.value| > MAX_PLAINTEXT then None else Some(MAGIC + body.value)
  }

  // ---- parser ----

  function KeyIndex(obj: seq<Field>, key: string): (i: nat)
    ensures i <= |obj| && (i < |obj| ==> obj[i].key == key)
    ensures forall j :: 0 <= j < i ==> obj[j].key != key
  {
    if obj == [] || obj[0].key == key then 0 else 1 + KeyIndex(obj[1..], key)
  }

  /** Property assignment on a fresh object: a swallowed name never makes an own property. */
  function Assign(h: Host, obj: seq<Field>, key: string, value: Json): seq<Field>
  {
    var i := KeyIndex(obj, key);
    if h.swallows(key) then obj
    else if i < |obj| then obj[i := Field(key, value)]
    else obj + [Field(key, value)]
  }

  function Left(b: seq<byte>, off: nat): nat { if off < |b| then |b| - off else 0 }

  function Uint(b: seq<byte>, off: nat, w: nat): (r: Option<nat>)
    ensures r.Some? <==> off + w <= |b|
  {
    if off + w <= |b| then Some(GetLE(b[off..off + w])) else None
  }

  function Read(h: Host, b: seq<byte>, off: nat): (r: At<Json>)
    ensures r.At? ==> off < r.next <= |b|
    decreases Left(b, off), 0, 0
  {
    if off >= |b| then Bad
    else match b[off]
      case 0 => At(JNull, off + 1)
      case 1 => At(JBool(false), off + 1)
      case 2 => At(JBool(true), off + 1)
      case 3 => if off + 9 > |b| then Bad else At(JInt(h.number(GetI64(b[off + 1..off + 9]))), off + 9)
      case 4 =>
        var n := Uint(b, off + 1, 4);
        if n.None? || off + 5 + n.value > |b| then Bad
        else At(JStr(h.text(b[off + 5..off + 5 + n.value])), off + 5 + n.value)
      case 5 =>
        var n := Uint(b, off + 1, 4);
        if n.None? || off + 5 + n.value > |b| then Bad
        else At(h.decimal(b[off + 5..off + 5 + n.value]), off + 5 + n.value)
      case 6 =>
        var size, count := Uint(b, off + 1, 4), Uint(b, off + 5, 4);
        if size.None? || count.None? then Bad
        else
          var got := ReadItems(h, b, off + 9, count.value, []);
          if got.Bad? || got.next != off + 5 + size.value then Bad else At(JArr(got.value), got.next)
      case 7 =>
        var size, count := Uint(b, off + 1, 4), Uint(b, off + 5, 2);
        if size.None? || count.None? then Bad
        else
          var got := ReadFields(h, b, off + 7, count.value, []);
          if got.Bad? || got.next != off + 5 + size.value then Bad else At(JObj(got.value), got.next)
      case _ => Bad
  }

  function ReadItems(h: Host, b: seq<byte>, cur: nat, count: nat, arr: seq<Json>): (r: At<seq<Json>>)
    requires cur <= |b|
    ensures r.At? ==> cur <= r.next <= |b|
    decreases Left(b, cur), 1, count
  {
    if count == 0 then At(arr, cur)
    else
      var got := Read(h, b, cur);
      if got.Bad? then Bad else ReadItems(h, b, got.next, count - 1, arr + [got.value])
  }

  function ReadFields(h: Host, b: seq<byte>, cur: nat, count: nat, obj: seq<Field>): (r: At<seq<Field>>)
    requires cur <= |b|
    ensures r.At? ==> cur <= r.next <= |b|
    decreases Left(b, cur), 1, count
  {
    if count == 0 then At(obj, cur)
    else
      var klen := Uint(b, cur, 2);
      if klen.None? || cur + 2 + klen.value > |b| then Bad
      else
        var key, at := h.text(b[cur + 2..cur + 2 + klen.value]), cur + 2 + klen.value;
        var got := Read(h, b, at);
        if got.Bad? then Bad else ReadFields(h, b, got.next, count - 1, Assign(h, obj, key, got.value))
  }

  function DecodeNSJB(h: Host, doc: seq<byte>): Option<Json>
  {
    if |doc| < 5 || doc[..5] != MAGIC then None
    else
      var got := Read(h, doc, 5);
      if got.Bad? || got.next != |doc| then None else Some(got.value)
  }

  /** The parser as written: an offset that advances, arrays that grow. */
  method ReadNSJB(h: Host, b: seq<byte>, off: nat) returns (r: At<Json>)
    ensures r == Read(h, b, off)
    decreases Left(b, off), 1
  {
    if off < |b| && b[off] == 6 {
      r := ReadArray(h, b, off);
    } else if off < |b| && b[off] == 7 {
      r := ReadObject(h, b, off);
    } else {
      r := Read(h, b, off);
    }
  }

  method ReadArray(h: Host, b: seq<byte>, off: nat) returns (r: At<Json>)
    requires off < |b| && b[off] == 6
    ensures r == Read(h, b, off)
    decreases Left(b, off), 0
  {
    hide GetLE;
    if off + 9 > |b| { return Bad; }
    var size, count := GetLE(b[off + 1..off + 5]), GetLE(b[off + 5..off + 9]);
    var cur, arr, i := off + 9, [], 0;
    while i < count
      invariant 0 <= i <= count && off + 9 <= cur <= |b|
      invariant ReadItems(h, b, cur, count - i, arr) == ReadItems(h, b, off + 9, count, [])
    {
      var got := ReadNSJB(h, b, cur);
      if got.Bad? { return Bad; }
      arr, cur, i := arr + [got.value], got.next, i + 1;
    }
    r := if cur != off + 5 + size then Bad else At(JArr(arr), cur);
  }

  method ReadObject(h: Host, b: seq<byte>, off: nat) returns (r: At<Json>)
    requires off < |b| && b[off] == 7
    ensures r == Read(h, b, off)
    decreases Left(b, off), 0
  {
    hide GetLE, Assign, Read, ReadFields;
    ObjectSpec(h, b, off);
    if off + 7 > |b| { return Bad; }
    var size, count := GetLE(b[off + 1..off + 5]), GetLE(b[off + 5..off + 7]);
    var cur, obj, i := off + 7, [], 0;
    while i < count
      invariant 0 <= i <= count && off + 7 <= cur <= |b|
      invariant ReadFields(h, b, cur, count - i, obj) == ReadFields(h, b, off + 7, count, [])
    {
      FieldStep(h, b, cur, count - i, obj);
      if cur + 2 > |b| { return Bad; }
      var klen := GetLE(b[cur..cur + 2]);
      if cur + 2 + klen > |b| { return Bad; }
      var key := h.text(b[cur + 2..cur + 2 + klen]);
      var got := ReadNSJB(h, b, cur + 2 + klen);
      if got.Bad? { return Bad; }
      obj, cur, i := Assign(h, obj, key, got.value), got.next, i + 1;
    }
    FieldStep(h, b, cur, 0, obj);
    r := if cur != off + 5 + size then Bad else At(JObj(obj), cur);
  }

  lemma FieldStep(h: Host, b: seq<byte>, cur: nat, count: nat, obj: seq<Field>)
    requires cur <= |b|
    ensures count == 0 ==> ReadFields(h, b, cur, count, obj) == At(obj, cur)
    ensures count > 0 && cur + 2 > |b| ==> ReadFields(h, b, cur, count, obj) == Bad
    ensures count > 0 && cur + 2 <= |b| ==>
              var at := cur + 2 + GetLE(b[cur..cur + 2]);
              if at > |b| then ReadFields(h, b, cur, count, obj) == Bad
              else
                var got := Read(h, b, at);
                ReadFields(h, b, cur, count, obj)
                == if got.Bad? then Bad
                    else ReadFields(h, b, got.next, count - 1, Assign(h, obj, h.text(b[cur + 2..at]), got.value))
  {
    hide GetLE, Assign, Read;
  }

  lemma ObjectSpec(h: Host, b: seq<byte>, off: nat)
    requires off < |b| && b[off] == 7
    ensures off + 7 > |b| ==> Read(h, b, off) == Bad
    ensures off + 7 <= |b| ==>
              var size, count := GetLE(b[off + 1..off + 5]), GetLE(b[off + 5..off + 7]);
              var got := ReadFields(h, b, off + 7, count, []);
              Read(h, b, off) == if got.Bad? || got.next != off + 5 + size then Bad else At(JObj(got.value), got.next)
  {
    hide ReadFields, GetLE;
  }

  // ---- documents ----

  /** Members sorted by key bytes, at every level. */
  function Canon(h: Host, v: Json): Json
    decreases v, 0
  {
    match v
    case JArr(items) => JArr(CanonItems(h, items))
    case JObj(fields) => JObj(Sort(h, CanonFields(h, fields)))
    case _ => v
  }

  function CanonItems(h: Host, items: seq<Json>): (r: seq<Json>)
    ensures |r| == |items|
    ensures forall i :: 0 <= i < |items| ==> r[i] == Canon(h, items[i])
    decreases items, 0
  {
    if items == [] then [] else [Canon(h, items[0])] + CanonItems(h, items[1..])
  }

  function CanonFields(h: Host, fs: seq<Field>): (r: seq<Field>)
    ensures |r| == |fs|
    ensures forall i :: 0 <= i < |fs| ==> r[i] == Field(fs[i].key, Canon(h, fs[i].value))
    decreases fs, 0
  {
    if fs == [] then [] else [Field(fs[0].key, Canon(h, fs[0].value))] + CanonFields(h, fs[1..])
  }

  /** What the parser can hold of a document: every member but the swallowed ones, numbers as read. */
  function Clean(h: Host, v: Json): Json
    decreases v, 0
  {
    match v
    case JInt(n) => JInt(h.number(n))
    case JNum(digits) => h.decimal(digits)
    case JArr(items) => JArr(CleanItems(h, items))
    case JObj(fields) => JObj(CleanFields(h, fields))
    case _ => v
  }

  function CleanItems(h: Host, items: seq<Json>): (r: seq<Json>)
    decreases items, 0
  {
    if items == [] then [] else [Clean(h, items[0])] + CleanItems(h, items[1..])
  }

  function CleanFields(h: Host, fs: seq<Field>): (r: seq<Field>)
    decreases fs, 0
  {
    if fs == [] then []
    else (if h.swallows(fs[0].key) then [] else [Field(fs[0].key, Clean(h, fs[0].value))]) + CleanFields(h, fs[1..])
  }

  /** Distinct keys in every object: a value the host language can hold. */
  predicate Proper(v: Json)
    decreases v, 0
  {
    match v
    case JArr(items) => forall i :: 0 <= i < |items| ==> Proper(items[i])
    case JObj(fields) =>
      && (forall i, j :: 0 <= i < j < |fields| ==> fields[i].key != fields[j].key)
      && forall i :: 0 <= i < |fields| ==> Proper(fields[i].value)
    case _ => true
  }

  lemma {:induction false} InsertCommutes(h: Host, f: Field, fs: seq<Field>)
    ensures Insert(h, Field(f.key, Canon(h, f.value)), CanonFields(h, fs)) == CanonFields(h, Insert(h, f, fs))
  {
    var g := Field(f.key, Canon(h, f.value));
    if fs == [] {
    } else if Before(h, f, fs[0]) {
      assert ([f] + fs)[1..] == fs;
    } else {
      InsertCommutes(h, f, fs[1..]);
      var r := Insert(h, f, fs[1..]);
      assert ([fs[0]] + r)[1..] == r;
      assert CanonFields(h, fs)[1..] == CanonFields(h, fs[1..]);
    }
  }

  lemma {:induction false} SortCommutes(h: Host, fs: seq<Field>)
    ensures Sort(h, CanonFields(h, fs)) == CanonFields(h, Sort(h, fs))
  {
    if fs != [] {
      SortCommutes(h, fs[1..]);
      InsertCommutes(h, fs[0], Sort(h, fs[1..]));
      assert CanonFields(h, fs)[1..] == CanonFields(h, fs[1..]);
    }
  }

  // ---- parsing undoes printing ----

  predicate Holds(b: seq<byte>, off: nat, e: seq<byte>)
  {
    off + |e| <= |b| && b[off..off + |e|] == e
  }

  lemma HoldsSplit(b: seq<byte>, off: nat, x: seq<byte>, y: seq<byte>)
    requires Holds(b, off, x + y)
    ensures Holds(b, off, x) && Holds(b, off + |x|, y)
  {
    assert b[off..off + |x|] == (x + y)[..|x|] == x;
    assert b[off + |x|..off + |x| + |y|] == (x + y)[|x|..] == y;
  }

  lemma UintAt(b: seq<byte>, off: nat, n: nat, w: nat)
    requires Holds(b, off, PutLE(n, w)) && n < Pow256(w)
    ensures Uint(b, off, w) == Some(n)
  {
    hide GetLE, PutLE, Pow256;
    GetPut(n, w);
  }

  lemma {:induction false} ReadPrint(h: Host, v: Json, depth: nat, b: seq<byte>, off: nat)
    requires Print(h, v, depth).Some? && Proper(v) && Holds(b, off, Print(h, v, depth).value)
    ensures Read(h, b, off) == At(Clean(h, Canon(h, v)), off + |Print(h, v, depth).value|)
    decreases v, 2, 0
  {
    hide Print, Read, Holds, Canon, Clean;
    if v.JArr? {
      ReadPrintArray(h, v, depth, b, off);
    } else if v.JObj? {
      ReadPrintObject(h, v, depth, b, off);
    } else {
      ReadPrintScalar(h, v, depth, b, off);
    }
  }

  lemma ReadPrintScalar(h: Host, v: Json, depth: nat, b: seq<byte>, off: nat)
    requires !v.JArr? && !v.JObj?
    requires Print(h, v, depth).Some? && Proper(v) && Holds(b, off, Print(h, v, depth).value)
    ensures Read(h, b, off) == At(Clean(h, Canon(h, v)), off + |Print(h, v, depth).value|)
  {
    hide GetLE, PutLE, Holds, Uint, ReadItems, ReadFields, GetI64, I64;
    var e := Print(h, v, depth).value;
    FirstByte(b, off, e);
    if v.JInt? {
      ReadsInt(h, v.n, b, off);
    } else if v.JStr? {
      ReadsTagged(4, h.utf8(v.s), b, off);
    } else if v.JNum? {
      ReadsTagged(5, v.digits, b, off);
    }
  }

  lemma {:induction false} ReadPrintArray(h: Host, v: Json, depth: nat, b: seq<byte>, off: nat)
    requires v.JArr?
    requires Print(h, v, depth).Some? && Proper(v) && Holds(b, off, Print(h, v, depth).value)
    ensures Read(h, b, off) == At(Clean(h, Canon(h, v)), off + |Print(h, v, depth).value|)
    decreases v, 1, 0
  {
    hide GetLE, PutLE, Holds, Uint, ReadItems, ReadFields, PrintItems, CanonItems, CleanItems;
    var vals := PrintItems(h, v.items, depth + 1).value;
    ArrayHeader(b, off, |v.items|, vals);
    ReadPrintItems(h, v.items, depth + 1, b, off + 9, []);
    var cs := CleanItems(h, CanonItems(h, v.items));
    assert [] + cs == cs;
  }

  lemma {:induction false} ReadPrintObject(h: Host, v: Json, depth: nat, b: seq<byte>, off: nat)
    requires v.JObj?
    requires Print(h, v, depth).Some? && Proper(v) && Holds(b, off, Print(h, v, depth).value)
    ensures Read(h, b, off) == At(Clean(h, Canon(h, v)), off + |Print(h, v, depth).value|)
    decreases v, 1, 0
  {
    hide GetLE, PutLE, Holds, Uint, ReadItems, ReadFields, PrintFields, CanonFields, CleanFields, Sort, Survives;
    var fs := Sort(h, v.fields);
    SortedMembers(h, v.fields);
    var entries := PrintFields(h, v, fs, depth + 1).value;
    ObjectHeader(b, off, |v.fields|, entries);
    ReadPrintFields(h, v, fs, depth + 1, b, off + 7, []);
    var cs := CleanFields(h, CanonFields(h, fs));
    assert [] + cs == cs;
    SortCommutes(h, v.fields);
  }

  lemma FirstByte(b: seq<byte>, off: nat, e: seq<byte>)
    requires Holds(b, off, e) && e != []
    ensures off < |b| && b[off] == e[0] && off + |e| <= |b|
  {
    assert b[off..off + |e|][0] == b[off];
  }

  lemma ReadsInt(h: Host, n: int, b: seq<byte>, off: nat)
    requires FitsI64(n) && Holds(b, off, [3] + I64(n))
    ensures off + 9 <= |b| && GetI64(b[off + 1..off + 9]) == n
  {
    HoldsSplit(b, off, [3], I64(n));
    I64RoundTrip(n);
  }

  lemma ReadsTagged(tag: byte, raw: seq<byte>, b: seq<byte>, off: nat)
    requires |raw| <= MAX_PLAINTEXT && Holds(b, off, [tag] + U32(|raw|) + raw)
    ensures Uint(b, off + 1, 4) == Some(|raw|) && off + 5 + |raw| <= |b|
    ensures b[off + 5..off + 5 + |raw|] == raw
  {
    HoldsSplit(b, off, [tag] + U32(|raw|), raw);
    HoldsSplit(b, off, [tag], U32(|raw|));
    Pow256Values();
    UintAt(b, off + 1, |raw|, 4);
  }

  lemma ArrayHeader(b: seq<byte>, off: nat, count: nat, vals: seq<byte>)
    requires count <= 0x10_0000 && 4 + |vals| <= MAX_PLAINTEXT
    requires Holds(b, off, [6] + U32(|U32(count) + vals|) + (U32(count) + vals))
    ensures off + 9 + |vals| <= |b| && b[off] == 6
    ensures Uint(b, off + 1, 4) == Some(4 + |vals|) && Uint(b, off + 5, 4) == Some(count)
    ensures Holds(b, off + 9, vals)
  {
    hide PutLE, GetLE, Uint;
    var body := U32(count) + vals;
    HoldsSplit(b, off, [6] + U32(|body|), body);
    HoldsSplit(b, off, [6], U32(|body|));
    HoldsSplit(b, off + 5, U32(count), vals);
    FirstByte(b, off, [6]);
    Pow256Values();
    UintAt(b, off + 1, |body|, 4);
    UintAt(b, off + 5, count, 4);
  }

  lemma ObjectHeader(b: seq<byte>, off: nat, count: nat, entries: seq<byte>)
    requires count <= 0xffff && 2 + |entries| <= MAX_PLAINTEXT
    requires Holds(b, off, [7] + U32(|U16(count) + entries|) + (U16(count) + entries))
    ensures off + 7 + |entries| <= |b| && b[off] == 7
    ensures Uint(b, off + 1, 4) == Some(2 + |entries|) && Uint(b, off + 5, 2) == Some(count)
    ensures Holds(b, off + 7, entries)
  {
    hide PutLE, GetLE, Uint;
    var body := U16(count) + entries;
    HoldsSplit(b, off, [7] + U32(|body|), body);
    HoldsSplit(b, off, [7], U32(|body|));
    HoldsSplit(b, off + 5, U16(count), entries);
    FirstByte(b, off, [7]);
    Pow256Values();
    UintAt(b, off + 1, |body|, 4);
    UintAt(b, off + 5, count, 2);
  }

  lemma {:induction false} ReadPrintItems(h: Host, items: seq<Json>, depth: nat, b: seq<byte>, cur: nat, arr: seq<Json>)
    requires PrintItems(h, items, depth).Some? && Holds(b, cur, PrintItems(h, items, depth).value)
    requires forall i :: 0 <= i < |items| ==> Proper(items[i])
    ensures cur <= |b|
    ensures ReadItems(h, b, cur, |items|, arr)
         == At(arr + CleanItems(h, CanonItems(h, items)), cur + |PrintItems(h, items, depth).value|)
    decreases items, 0, 0
  {
    hide Print, Read, Canon, Clean;
    if items == [] {
      assert arr + [] == arr;
    } else {
      var first, rest := Print(h, items[0], depth).value, PrintItems(h, items[1..], depth).value;
      HoldsSplit(b, cur, first, rest);
      ReadPrint(h, items[0], depth, b, cur);
      var w := Clean(h, Canon(h, items[0]));
      ReadPrintItems(h, items[1..], depth, b, cur + |first|, arr + [w]);
      var cs := CanonItems(h, items);
      assert cs[1..] == CanonItems(h, items[1..]);
      assert arr + ([w] + CleanItems(h, cs[1..])) == arr + [w] + CleanItems(h, cs[1..]);
    }
  }

  /** Sorted members: distinct keys stay distinct as bytes because they survive UTF-8. */
  lemma SortedMembers(h: Host, fields: seq<Field>)
    requires forall i, j :: 0 <= i < j < |fields| ==> fields[i].key != fields[j].key
    requires forall f :: f in fields ==> Survives(h, f.key)
    ensures Ascending(h, Sort(h, fields)) && |Sort(h, fields)| == |fields|
    ensures forall f :: f in Sort(h, fields) ==> f in fields
  {
    forall i, j | 0 <= i < j < |fields| ensures h.utf8(fields[i].key) != h.utf8(fields[j].key) {
      assert Survives(h, fields[i].key) && Survives(h, fields[j].key);
    }
    SortAscending(h, fields);
  }

  lemma {:induction false} ReadPrintFields(h: Host, v: Json, fs: seq<Field>, depth: nat, b: seq<byte>, cur: nat,
      obj: seq<Field>)
    requires v.JObj? && forall f :: f in fs ==> f in v.fields
    requires PrintFields(h, v, fs, depth).Some? && Holds(b, cur, PrintFields(h, v, fs, depth).value)
    requires Ascending(h, fs)
    requires Ready(h, fs) && Apart(fs, obj)
    ensures cur <= |b|
    ensures ReadFields(h, b, cur, |fs|, obj)
         == At(obj + CleanFields(h, CanonFields(h, fs)), cur + |PrintFields(h, v, fs, depth).value|)
    decreases v, 0, |fs|
  {
    hide Print, Read, Canon, Clean, Uint, PutLE, Proper, Survives, Holds, Ascending, Assign, ReadFields, Apart,
        CanonFields, CleanFields;
    if fs == [] {
      NoMembers(h, b, cur, obj);
    } else {
      var f, tail := fs[0], fs[1..];
      assert f in fs && f in v.fields;
      var k := h.utf8(f.key);
      var first, rest := Print(h, f.value, depth).value, PrintFields(h, v, tail, depth).value;
      MemberAt(b, cur, k, first, rest);
      ReadPrint(h, f.value, depth, b, cur + 2 + |k|);
      var w := Clean(h, Canon(h, f.value));
      var obj' := Assign(h, obj, f.key, w);
      NextMember(h, b, cur, |fs|, obj, f.key, w, cur + 2 + |k| + |first|);
      AssignFresh(h, fs, obj, w);
      KeysStayApart(h, fs, obj, obj');
      ReadPrintFields(h, v, tail, depth, b, cur + 2 + |k| + |first|, obj');
      CleanStep(h, fs, obj);
    }
  }

  lemma CleanStep(h: Host, fs: seq<Field>, obj: seq<Field>)
    requires fs != []
    ensures obj + CleanFields(h, CanonFields(h, fs))
            == (if h.swallows(fs[0].key) then obj else obj + [Field(fs[0].key, Clean(h, Canon(h, fs[0].value)))])
                + CleanFields(h, CanonFields(h, fs[1..]))
  {
    hide Clean, Canon;
    var cs := CanonFields(h, fs);
    assert cs[1..] == CanonFields(h, fs[1..]);
  }

  lemma NoMembers(h: Host, b: seq<byte>, cur: nat, obj: seq<Field>)
    requires Holds(b, cur, [])
    ensures cur <= |b| && ReadFields(h, b, cur, 0, obj) == At(obj + CleanFields(h, CanonFields(h, [])), cur)
  {
    assert obj + [] == obj;
  }

  lemma NextMember(h: Host, b: seq<byte>, cur: nat, count: nat, obj: seq<Field>, key: string, w: Json, next: nat)
    requires count > 0 && Survives(h, key) && Uint(b, cur, 2) == Some(|h.utf8(key)|)
    requires cur + 2 + |h.utf8(key)| <= |b| && b[cur + 2..cur + 2 + |h.utf8(key)|] == h.utf8(key)
    requires Read(h, b, cur + 2 + |h.utf8(key)|) == At(w, next)
    ensures ReadFields(h, b, cur, count, obj) == ReadFields(h, b, next, count - 1, Assign(h, obj, key, w))
  {
    hide Read, Assign, Uint;
  }

  predicate Apart(fs: seq<Field>, obj: seq<Field>)
  {
    forall f, o :: f in fs && o in obj ==> f.key != o.key
  }

  predicate Ready(h: Host, fs: seq<Field>)
  {
    forall f :: f in fs ==> Survives(h, f.key) && Proper(f.value)
  }

  lemma AssignFresh(h: Host, fs: seq<Field>, obj: seq<Field>, w: Json)
    requires fs != [] && Apart(fs, obj)
    ensures Assign(h, obj, fs[0].key, w) == if h.swallows(fs[0].key) then obj else obj + [Field(fs[0].key, w)]
  {
    var i := KeyIndex(obj, fs[0].key);
    assert fs[0] in fs;
    assert forall j :: 0 <= j < |obj| ==> obj[j] in obj && obj[j].key != fs[0].key;
  }

  lemma MemberAt(b: seq<byte>, cur: nat, k: seq<byte>, first: seq<byte>, rest: seq<byte>)
    requires |k| <= 0xffff && Holds(b, cur, U16(|k|) + k + first + rest)
    ensures Uint(b, cur, 2) == Some(|k|) && cur + 2 + |k| + |first| + |rest| <= |b|
    ensures b[cur + 2..cur + 2 + |k|] == k
    ensures Holds(b, cur + 2 + |k|, first) && Holds(b, cur + 2 + |k| + |first|, rest)
  {
    hide PutLE, Uint;
    HoldsSplit(b, cur, U16(|k|) + k + first, rest);
    HoldsSplit(b, cur, U16(|k|) + k, first);
    HoldsSplit(b, cur, U16(|k|), k);
    Pow256Values();
    UintAt(b, cur, |k|, 2);
  }

  lemma KeysStayApart(h: Host, fs: seq<Field>, obj: seq<Field>, obj': seq<Field>)
    requires fs != [] && Ascending(h, fs) && Apart(fs, obj)
    requires forall o :: o in obj' ==> o in obj || o.key == fs[0].key
    ensures Ascending(h, fs[1..]) && Apart(fs[1..], obj')
  {
    forall f, o | f in fs[1..] && o in obj' ensures f.key != o.key {
      var i :| 0 <= i < |fs[1..]| && fs[1..][i] == f;
      assert f == fs[i + 1] && f in fs;
      if o !in obj {
        assert Before(h, fs[0], fs[i + 1]);
        LexTotal(h.utf8(fs[0].key), h.utf8(f.key));
      }
    }
  }

  /** For every proper document the printer accepts: the parser consumes exactly the printed bytes
      and returns the document, members in key order, without the swallowed ones, numbers as read. */
  lemma NSJBRoundTrip(h: Host, v: Json)
    requires EncodeNSJB(h, v).Some? && Proper(v)
    ensures DecodeNSJB(h, EncodeNSJB(h, v).value) == Some(Clean(h, Canon(h, v)))
  {
    hide Print, Read, Canon, Clean;
    var e, doc := Print(h, v, 0).value, EncodeNSJB(h, v).value;
    assert doc[..5] == MAGIC;
    assert doc[5..5 + |e|] == e;
    ReadPrint(h, v, 0, doc, 5);
  }

  /** No swallowed name at any level, and every number is what its printed form stands for. */
  predicate Whole(h: Host, v: Json)
    decreases v, 0
  {
    match v
    case JInt(n) => h.number(n) == n
    case JNum(digits) => h.decimal(digits) == v
    case JArr(items) => forall i :: 0 <= i < |items| ==> Whole(h, items[i])
    case JObj(fields) => forall i :: 0 <= i < |fields| ==> !h.swallows(fields[i].key) && Whole(h, fields[i].value)
    case _ => true
  }

  lemma {:induction false} CleanKeeps(h: Host, v: Json)
    ensures Clean(h, v) == v <==> Whole(h, v)
    decreases v, 0
  {
    match v
    case JArr(items) => CleanItemsKeeps(h, items);
    case JObj(fields) => CleanFieldsKeeps(h, fields);
    case _ =>
  }

  lemma {:induction false} CleanItemsKeeps(h: Host, items: seq<Json>)
    ensures |CleanItems(h, items)| == |items|
    ensures CleanItems(h, items) == items <==> forall i :: 0 <= i < |items| ==> Whole(h, items[i])
    decreases items, 0
  {
    if items != [] {
      CleanKeeps(h, items[0]);
      CleanItemsKeeps(h, items[1..]);
      var r := CleanItems(h, items);
      assert r[1..] == CleanItems(h, items[1..]);
      assert items == [items[0]] + items[1..];
      assert r == [r[0]] + r[1..];
    }
  }

  lemma {:induction false} CleanFieldsKeeps(h: Host, fs: seq<Field>)
    ensures |CleanFields(h, fs)| <= |fs|
    ensures CleanFields(h, fs) == fs <==> forall i :: 0 <= i < |fs| ==> !h.swallows(fs[i].key) && Whole(h, fs[i].value)
    decreases fs, 0
  {
    if fs != [] {
      CleanKeeps(h, fs[0].value);
      CleanFieldsKeeps(h, fs[1..]);
      var r := CleanFields(h, fs);
      assert fs == [fs[0]] + fs[1..];
      if h.swallows(fs[0].key) {
        assert |r| < |fs|;
      } else {
        assert r[1..] == CleanFields(h, fs[1..]);
        assert r == [r[0]] + r[1..];
      }
    }
  }

  lemma {:induction false} CanonWhole(h: Host, v: Json)
    ensures Whole(h, Canon(h, v)) <==> Whole(h, v)
    decreases v
  {
    hide Sort;
    match v
    case JArr(items) =>
      forall i | 0 <= i < |items| ensures Whole(h, Canon(h, items[i])) <==> Whole(h, items[i]) {
        CanonWhole(h, items[i]);
      }
    case JObj(fields) =>
      var cs := CanonFields(h, fields);
      forall i | 0 <= i < |fields| ensures Whole(h, cs[i].value) <==> Whole(h, fields[i].value) {
        CanonWhole(h, fields[i].value);
      }
      SortKeepsClean(h, cs);
      assert AllClean(h, cs)
        <==> forall i :: 0 <= i < |fields| ==> !h.swallows(fields[i].key) && Whole(h, fields[i].value);
    case _ =>
  }

  predicate CleanMember(h: Host, f: Field) { !h.swallows(f.key) && Whole(h, f.value) }

  predicate AllClean(h: Host, fs: seq<Field>) { forall i :: 0 <= i < |fs| ==> CleanMember(h, fs[i]) }

  lemma SortKeepsClean(h: Host, cs: seq<Field>)
    ensures AllClean(h, Sort(h, cs)) <==> AllClean(h, cs)
  {
    hide CleanMember, Sort;
    var s := Sort(h, cs);
    if AllClean(h, cs) {
      forall i | 0 <= i < |s| ensures CleanMember(h, s[i]) { assert s[i] in cs; }
    }
    if AllClean(h, s) {
      forall i | 0 <= i < |cs| ensures CleanMember(h, cs[i]) { assert cs[i] in s; }
    }
  }

  /** The parser returns the document unchanged exactly when no member at any level has a swallowed name
      and every number is what its printed form stands for. */
  lemma WholeDocument(h: Host, v: Json)
    requires EncodeNSJB(h, v).Some? && Proper(v)
    ensures DecodeNSJB(h, EncodeNSJB(h, v).value) == Some(Canon(h, v)) <==> Whole(h, v)
  {
    NSJBRoundTrip(h, v);
    CleanKeeps(h, Canon(h, v));
    CanonWhole(h, v);
  }

  // ---- printing depends on the document only ----

  /** The same document whatever the insertion order of its members. */
  ghost predicate Same(v: Json, w: Json)
    decreases v, 1
  {
    match v
    case JArr(xs) => w.JArr? && |xs| == |w.items| && forall i :: 0 <= i < |xs| ==> Same(xs[i], w.items[i])
    case JObj(fs) =>
      && w.JObj? && |fs| == |w.fields|
      && (forall i :: 0 <= i < |fs| ==> Found(v, fs[i], w.fields))
      && (forall j :: 0 <= j < |w.fields| ==> Comes(v, w.fields[j]))
    case _ => v == w
  }

  ghost predicate Found(v: Json, f: Field, gs: seq<Field>)
    requires v.JObj? && f in v.fields
    decreases v, 0
  {
    exists j :: 0 <= j < |gs| && f.key == gs[j].key && Same(f.value, gs[j].value)
  }

  ghost predicate Comes(v: Json, g: Field)
    requires v.JObj?
    decreases v, 0
  {
    exists i :: 0 <= i < |v.fields| && v.fields[i].key == g.key && Same(v.fields[i].value, g.value)
  }

  function KeyOnly(fs: seq<Field>): (r: seq<Field>)
    ensures |r| == |fs|
  {
    seq(|fs|, i requires 0 <= i < |fs| => Field(fs[i].key, JNull))
  }

  lemma KeyIn(f: Field, fs: seq<Field>)
    requires f in fs
    ensures Field(f.key, JNull) in KeyOnly(fs)
  {
    var i :| 0 <= i < |fs| && fs[i] == f;
    assert KeyOnly(fs)[i] == Field(f.key, JNull);
  }

  /** Sorted members of the same object carry the same keys. */
  lemma SortedKeys(h: Host, v: Json, w: Json)
    requires v.JObj? && Same(v, w)
    ensures forall x :: x in KeyOnly(Sort(h, v.fields)) <==> x in KeyOnly(Sort(h, w.fields))
  {
    hide Found, Comes, Sort, KeyOnly;
    var s, t := Sort(h, v.fields), Sort(h, w.fields);
    forall x ensures x in KeyOnly(s) <==> x in KeyOnly(t) {
      if x in KeyOnly(s) {
        var i := KeyAt(s, x);
        assert s[i] in v.fields;
        var k :| 0 <= k < |v.fields| && v.fields[k] == s[i];
        assert Found(v, v.fields[k], w.fields);
        var g := FoundAt(v, s[i], w.fields);
        KeyIn(g, t);
      }
      if x in KeyOnly(t) {
        var j := KeyAt(t, x);
        assert t[j] in w.fields;
        var k :| 0 <= k < |w.fields| && w.fields[k] == t[j];
        assert Comes(v, w.fields[k]);
        var f := ComesFrom(v, t[j]);
        KeyIn(f, s);
      }
    }
  }

  lemma KeyAt(fs: seq<Field>, x: Field) returns (i: nat)
    requires x in KeyOnly(fs)
    ensures i < |fs| && x == Field(fs[i].key, JNull)
  {
    i :| i < |fs| && KeyOnly(fs)[i] == x;
  }

  lemma FoundAt(v: Json, f: Field, gs: seq<Field>) returns (g: Field)
    requires v.JObj? && f in v.fields && Found(v, f, gs)
    ensures g in gs && f.key == g.key && Same(f.value, g.value)
  {
    hide Same;
    var j :| 0 <= j < |gs| && f.key == gs[j].key && Same(f.value, gs[j].value);
    g := gs[j];
  }

  lemma ComesFrom(v: Json, g: Field) returns (f: Field)
    requires v.JObj? && Comes(v, g)
    ensures f in v.fields && f.key == g.key
  {
    hide Same;
    var i :| 0 <= i < |v.fields| && v.fields[i].key == g.key && Same(v.fields[i].value, g.value);
    f := v.fields[i];
  }

  /** Sorted members of the same object agree place by place. */
  lemma MatchedPlaces(h: Host, v: Json, w: Json)
    requires v.JObj? && Same(v, w)
    requires Ascending(h, Sort(h, v.fields)) && Ascending(h, Sort(h, w.fields))
    ensures var s, t := Sort(h, v.fields), Sort(h, w.fields);
            |s| == |t| && forall i :: 0 <= i < |s| ==> s[i].key == t[i].key && Same(s[i].value, t[i].value)
  {
    hide Found, Comes, Sort;
    var s, t := Sort(h, v.fields), Sort(h, w.fields);
    SortedKeys(h, v, w);
    assert Ascending(h, KeyOnly(s)) && Ascending(h, KeyOnly(t));
    AscendingUnique(h, KeyOnly(s), KeyOnly(t));
    forall i | 0 <= i < |s| ensures s[i].key == t[i].key && Same(s[i].value, t[i].value) {
      assert KeyOnly(s)[i].key == KeyOnly(t)[i].key;
      assert s[i] in v.fields;
      var k :| 0 <= k < |v.fields| && v.fields[k] == s[i];
      assert Found(v, v.fields[k], w.fields);
      var g := FoundAt(v, s[i], w.fields);
      assert g in t;
      var j :| 0 <= j < |t| && t[j] == g;
      PlaceUnique(h, t, i, j);
    }
  }

  lemma SameSurvival(h: Host, v: Json, w: Json)
    requires v.JObj? && Same(v, w)
    ensures (forall f :: f in v.fields ==> Survives(h, f.key)) <==> (forall g :: g in w.fields ==> Survives(h, g.key))
  {
    hide Found, Comes, Survives;
    forall f | f in v.fields ensures exists g :: g in w.fields && g.key == f.key {
      var k :| 0 <= k < |v.fields| && v.fields[k] == f;
      assert Found(v, v.fields[k], w.fields);
      var g := FoundAt(v, f, w.fields);
    }
    forall g | g in w.fields ensures exists f :: f in v.fields && f.key == g.key {
      var k :| 0 <= k < |w.fields| && w.fields[k] == g;
      assert Comes(v, w.fields[k]);
      var f := ComesFrom(v, g);
    }
  }

  lemma PlaceUnique(h: Host, gs: seq<Field>, i: nat, j: nat)
    requires Ascending(h, gs) && i < |gs| && j < |gs| && gs[i].key == gs[j].key
    ensures i == j
  {
    LexTotal(h.utf8(gs[i].key), h.utf8(gs[i].key));
    assert i < j ==> Before(h, gs[i], gs[j]);
    assert j < i ==> Before(h, gs[j], gs[i]);
  }

  /** Insertion order cannot be seen in the bytes. */
  lemma {:induction false} SamePrint(h: Host, v: Json, w: Json, depth: nat)
    requires Same(v, w) && Proper(v) && Proper(w)
    ensures Print(h, v, depth) == Print(h, w, depth)
    decreases v, 1
  {
    hide Sort, PrintItems, PrintFields;
    match v
    case JArr(items) => SamePrintItems(h, items, w.items, depth + 1);
    case JObj(fields) => SamePrintObject(h, v, w, depth);
    case _ =>
  }

  lemma {:induction false} SamePrintItems(h: Host, xs: seq<Json>, ys: seq<Json>, depth: nat)
    requires |xs| == |ys| && forall i :: 0 <= i < |xs| ==> Same(xs[i], ys[i]) && Proper(xs[i]) && Proper(ys[i])
    ensures PrintItems(h, xs, depth) == PrintItems(h, ys, depth)
    decreases xs, 0
  {
    hide Print;
    if xs != [] {
      SamePrint(h, xs[0], ys[0], depth);
      SamePrintItems(h, xs[1..], ys[1..], depth);
    }
  }

  lemma {:induction false} SamePrintObject(h: Host, v: Json, w: Json, depth: nat)
    requires v.JObj? && w.JObj? && |v.fields| == |w.fields| && Same(v, w) && Proper(v) && Proper(w)
    ensures Print(h, v, depth) == Print(h, w, depth)
    decreases v, 0, |v.fields| + 1
  {
    hide Sort, PrintItems, PrintFields, Survives, Same, Ascending;
    var fs, gs := v.fields, w.fields;
    SameSurvival(h, v, w);
    if forall f :: f in fs ==> Survives(h, f.key) {
      SortedMembers(h, fs);
      SortedMembers(h, gs);
      var s, t := Sort(h, fs), Sort(h, gs);
      MatchedPlaces(h, v, w);
      SamePrintFields(h, v, w, s, t, depth + 1);
    }
  }

  lemma {:induction false} SamePrintFields(h: Host, v: Json, w: Json, fs: seq<Field>, gs: seq<Field>, depth: nat)
    requires v.JObj? && w.JObj? && |fs| == |gs|
    requires (forall f :: f in fs ==> f in v.fields && Proper(f.value))
             && forall g :: g in gs ==> g in w.fields && Proper(g.value)
    requires forall i :: 0 <= i < |fs| ==> fs[i].key == gs[i].key && Same(fs[i].value, gs[i].value)
    ensures PrintFields(h, v, fs, depth) == PrintFields(h, w, gs, depth)
    decreases v, 0, |fs|
  {
    hide Print, Proper, Same;
    if fs != [] {
      assert fs[0] in fs && gs[0] in gs;
      SamePrint(h, fs[0].value, gs[0].value, depth);
      SamePrintFields(h, v, w, fs[1..], gs[1..], depth);
    }
  }

  // ---- printing is injective ----

  /** Documents with the same canonical form are the same. */
  lemma {:induction false} CanonSame(h: Host, v: Json, w: Json)
    requires Canon(h, v) == Canon(h, w)
    ensures Same(v, w)
    decreases v, 1
  {
    hide Sort;
    match v
    case JArr(items) =>
      assert w.JArr? && |CanonItems(h, items)| == |CanonItems(h, w.items)|;
      forall i | 0 <= i < |items| ensures Same(items[i], w.items[i]) {
        assert CanonItems(h, items)[i] == CanonItems(h, w.items)[i];
        CanonSame(h, items[i], w.items[i]);
      }
    case JObj(fields) => CanonSameObject(h, v, w);
    case _ =>
  }

  lemma {:induction false} CanonSameObject(h: Host, v: Json, w: Json)
    requires v.JObj? && Canon(h, v) == Canon(h, w)
    ensures Same(v, w)
    decreases v, 0
  {
    hide Sort, Same;
    var fs, gs := v.fields, w.fields;
    var cs, ds := CanonFields(h, fs), CanonFields(h, gs);
    assert Sort(h, cs) == Sort(h, ds);
    forall i | 0 <= i < |fs| ensures Found(v, fs[i], gs) {
      assert cs[i] in Sort(h, ds);
      var j :| 0 <= j < |ds| && ds[j] == cs[i];
      CanonSame(h, fs[i].value, gs[j].value);
      assert gs[j].key == fs[i].key;
    }
    forall j | 0 <= j < |gs| ensures Comes(v, gs[j]) {
      assert ds[j] in Sort(h, cs);
      var i :| 0 <= i < |cs| && cs[i] == ds[j];
      CanonSame(h, fs[i].value, gs[j].value);
      assert fs[i].key == gs[j].key;
    }
    SameObject(v, w);
  }

  lemma SameObject(v: Json, w: Json)
    requires v.JObj? && w.JObj? && |v.fields| == |w.fields|
    requires (forall i :: 0 <= i < |v.fields| ==> Found(v, v.fields[i], w.fields))
             && forall j :: 0 <= j < |w.fields| ==> Comes(v, w.fields[j])
    ensures Same(v, w)
  {
  }

  /** The same host, if every name made an own property and every number were kept. */
  function Lossless(h: Host): Host { h.(number := n => n, decimal := digits => JNum(digits), swallows := k => false) }

  lemma {:induction false} LosslessWhole(h: Host, v: Json)
    ensures Whole(Lossless(h), v)
    decreases v
  {
    match v
    case JArr(items) => forall i | 0 <= i < |items| ensures Whole(Lossless(h), items[i]) { LosslessWhole(h, items[i]); }
    case JObj(fields) =>
        forall i | 0 <= i < |fields| ensures Whole(Lossless(h), fields[i].value) { LosslessWhole(h, fields[i].value); }
    case _ =>
  }

  /** Printing and sorting look only at the UTF-8 functions. */
  lemma {:induction false} PrintLossless(h: Host, v: Json, depth: nat)
    ensures Print(Lossless(h), v, depth) == Print(h, v, depth)
    decreases v, 1, 0
  {
    hide Sort, PrintItems, PrintFields, PutLE;
    match v
    case JArr(items) => PrintItemsLossless(h, items, depth + 1);
    case JObj(fields) =>
      SortLossless(h, fields);
      PrintFieldsLossless(h, v, Sort(h, fields), depth + 1);
    case _ =>
  }

  lemma {:induction false} PrintItemsLossless(h: Host, items: seq<Json>, depth: nat)
    ensures PrintItems(Lossless(h), items, depth) == PrintItems(h, items, depth)
    decreases items, 0, 0
  {
    hide Print;
    if items != [] {
      PrintLossless(h, items[0], depth);
      PrintItemsLossless(h, items[1..], depth);
    }
  }

  lemma {:induction false} PrintFieldsLossless(h: Host, v: Json, fs: seq<Field>, depth: nat)
    requires v.JObj? && forall f :: f in fs ==> f in v.fields
    ensures PrintFields(Lossless(h), v, fs, depth) == PrintFields(h, v, fs, depth)
    decreases v, 0, |fs|
  {
    hide Print;
    if fs != [] {
      assert fs[0] in v.fields;
      PrintLossless(h, fs[0].value, depth);
      PrintFieldsLossless(h, v, fs[1..], depth);
    }
  }

  lemma {:induction false} SortLossless(h: Host, fs: seq<Field>)
    ensures Sort(Lossless(h), fs) == Sort(h, fs)
  {
    if fs != [] {
      SortLossless(h, fs[1..]);
      InsertLossless(h, fs[0], Sort(h, fs[1..]));
    }
  }

  lemma {:induction false} InsertLossless(h: Host, f: Field, fs: seq<Field>)
    ensures Insert(Lossless(h), f, fs) == Insert(h, f, fs)
  {
    if fs != [] { InsertLossless(h, f, fs[1..]); }
  }

  /** Printed bytes determine the document, and nothing but the document: two documents that the host
      language can hold print alike if and only if they are the same up to member order. */
  lemma PrintedDocuments(h: Host, v: Json, w: Json)
    requires Proper(v) && Proper(w) && EncodeNSJB(h, v).Some?
    ensures EncodeNSJB(h, v) == EncodeNSJB(h, w) <==> Same(v, w)
  {
    hide Print, Canon, Whole, Same, Proper, DecodeNSJB;
    if Same(v, w) {
      SamePrint(h, v, w, 0);
    }
    if EncodeNSJB(h, v) == EncodeNSJB(h, w) {
      var l := Lossless(h);
      PrintLossless(h, v, 0);
      PrintLossless(h, w, 0);
      WholeDocument(l, v);
      WholeDocument(l, w);
      LosslessWhole(h, v);
      LosslessWhole(h, w);
      CanonSame(l, v, w);
    }
  }

  /** The document {"__proto__": null}: printed, and read back without its member. */
  lemma ProtoMemberLost(h: Host)
    requires Javascript(h)
    ensures var v := JObj([Field(PROTO, JNull)]);
            EncodeNSJB(h, v).Some? && DecodeNSJB(h, EncodeNSJB(h, v).value) == Some(JObj([]))
  {
    hide Print, DecodeNSJB, Utf8.Encode;
    var f := Field(PROTO, JNull);
    var v := JObj([f]);
    ProtoPrints(h, f);
    NSJBRoundTrip(h, v);
    OneSorted(h, f);
    assert CanonFields(h, [f]) == [f];
    assert Canon(h, v) == v;
    assert [f][1..] == [];
    assert CleanFields(h, []) == [];
    assert CleanFields(h, [f]) == [];
  }

  lemma OneSorted(h: Host, f: Field)
    ensures Sort(h, [f]) == [f]
  {
    assert [f][1..] == [];
  }

  lemma ProtoPrints(h: Host, f: Field)
    requires Javascript(h) && f == Field(PROTO, JNull)
    ensures Print(h, JObj([f]), 0).Some? && |Print(h, JObj([f]), 0).value| <= 100
  {
    hide Utf8.Encode, PutLE, Sort;
    var v := JObj([f]);
    ShortName(PROTO);
    OneSorted(h, f);
    assert Survives(h, PROTO);
    assert [f][1..] == [];
    assert PrintFields(h, v, [], 1) == Some([]);
    var k := Utf8.Encode(PROTO);
    assert |k| <= 36;
    assert PrintFields(h, v, [f], 1) == Some(U16(|k|) + k + [0] + []);
  }

  lemma {:induction false} ShortName(s: string)
    ensures |Utf8.Encode(s)| <= 4 * |s|
  {
    if s != "" { ShortName(s[1..]); }
  }
}
