/** The archive's index file: one entry per archived segment behind a header, a checksum at the end. */
module ArchiveIndex {
  import opened Bytes

  const MAGIC := 0x4157534E
  const VERSION := 1
  const MAX_ENTRIES := 0x10_0000
  const MAX_NAME := 255
  const TWO16 := 0x1_0000

  datatype Entry = Entry(id: nat, first: nat, last: nat, archivedAt: int, size: nat, name: seq<byte>, sum: seq<byte>)

  /** What the fields of an entry can hold: 64-bit numbers and a 32-byte sum. */
  predicate Typed(e: Entry)
  {
    e.id < TWO64 && e.first < TWO64 && e.last < TWO64 && FitsI64(e.archivedAt) && e.size < TWO64 && |e.sum| == 32
  }

  predicate Named(e: Entry) { 1 <= |e.name| <= MAX_NAME }

  predicate AllNamed(es: seq<Entry>) { forall i :: 0 <= i < |es| ==> Named(es[i]) }

  predicate Good(es: seq<Entry>) { forall i :: 0 <= i < |es| ==> Typed(es[i]) && Named(es[i]) }

  // ---- writing ----

  function EntryBytes(e: Entry): seq<byte>
  {
    U64(e.id) + U64(e.first) + U64(e.last) + U64(e.archivedAt % TWO64) + U64(e.size) + U16(|e.name|) + e.name + e.sum
  }

  function EntriesBytes(es: seq<Entry>): seq<byte>
  {
    if es == [] then [] else EntryBytes(es[0]) + EntriesBytes(es[1..])
  }

  /** The lengths of the wrapped key and of the list are written in sixteen bits each. */
  function HeaderBytes(wrap: seq<byte>, n: nat): (h: seq<byte>)
    ensures |h| == 12 + |wrap|
  {
    U32(MAGIC) + U16(VERSION) + [0, 0] + U16(|wrap|) + U16(n) + wrap
  }

  function IndexBytes(crc: seq<byte> -> nat, wrap: seq<byte>, es: seq<Entry>): seq<byte>
  {
    var body := HeaderBytes(wrap, |es|) + EntriesBytes(es);
    body + U32(crc(body))
  }

  /** writeArchiveIndex: refuses a list above 2^20 entries and a name outside 1 to 255 bytes. */
  function WriteIndex(crc: seq<byte> -> nat, wrap: seq<byte>, es: seq<Entry>): Option<seq<byte>>
  {
    if |es| > MAX_ENTRIES || !AllNamed(es) then None else Some(IndexBytes(crc, wrap, es))
  }

  lemma {:induction false} EntriesSnoc(es: seq<Entry>, e: Entry)
    ensures EntriesBytes(es + [e]) == EntriesBytes(es) + EntryBytes(e)
  {
    hide EntryBytes;
    if es == [] {
      assert [] + [e] == [e] && [e][1..] == [];
      assert EntryBytes(e) + [] == [] + EntryBytes(e);
    } else {
      EntriesSnoc(es[1..], e);
      assert (es + [e])[1..] == es[1..] + [e];
      assert EntryBytes(es[0]) + (EntriesBytes(es[1..]) + EntryBytes(e))
        == EntryBytes(es[0]) + EntriesBytes(es[1..]) + EntryBytes(e);
    }
  }

  /** The loop that checks the names and the one that fills the buffer. */
  method WriteArchiveIndex(crc: seq<byte> -> nat, wrap: seq<byte>, es: seq<Entry>) returns (r: Option<seq<byte>>)
    ensures r == WriteIndex(crc, wrap, es)
  {
    hide EntryBytes, HeaderBytes;
    if |es| > MAX_ENTRIES { return None; }
    for i := 0 to |es|
      invariant AllNamed(es[..i])
    {
      if |es[i].name| == 0 || |es[i].name| > MAX_NAME {
        assert !Named(es[i]);
        return None;
      }
    }
    var buf := HeaderBytes(wrap, |es|);
    assert buf + [] == buf;
    for i := 0 to |es|
      invariant buf == HeaderBytes(wrap, |es|) + EntriesBytes(es[..i])
    {
      EntriesSnoc(es[..i], es[i]);
      assert es[..i] + [es[i]] == es[..i + 1];
      buf := buf + EntryBytes(es[i]);
    }
    assert es[..|es|] == es;
    return Some(buf + U32(crc(buf)));
  }

  // ---- reading ----

  function Prefixed(e: Entry, o: Option<seq<Entry>>): Option<seq<Entry>>
  {
    if o.None? then None else Some([e] + o.value)
  }

  /** Thirty-four bytes are asked for and forty-two read, so a cut entry fails either way. */
  predicate EntryFits(rest: seq<byte>)
  {
    |rest| >= 42 && 1 <= GetLE(rest[40..42]) <= MAX_NAME && |rest| >= 42 + GetLE(rest[40..42]) + 36
  }

  function EntryAt(rest: seq<byte>): Entry
    requires EntryFits(rest)
  {
    var n := GetLE(rest[40..42]);
    Entry(GetLE(rest[..8]), GetLE(rest[8..16]), GetLE(rest[16..24]), GetI64(rest[24..32]), GetLE(rest[32..40]),
          rest[42..42 + n], rest[42 + n..74 + n])
  }

  /** `n` entries and then nothing but the four bytes of the checksum. */
  function ReadEntries(rest: seq<byte>, n: nat): Option<seq<Entry>>
    decreases n
  {
    if n == 0 then (if |rest| == 4 then Some([]) else None)
    else if !EntryFits(rest) then None
    else Prefixed(EntryAt(rest), ReadEntries(rest[74 + GetLE(rest[40..42])..], n - 1))
  }

  /** readArchiveIndex on the bytes of the file. */
  function ReadIndex(crc: seq<byte> -> nat, raw: seq<byte>): Option<(seq<byte>, seq<Entry>)>
  {
    if |raw| < 16 || GetLE(raw[..4]) != MAGIC || GetLE(raw[4..6]) != VERSION then None
    else if raw[|raw| - 4..] != U32(crc(raw[..|raw| - 4])) then None
    else
      var w, n := GetLE(raw[8..10]), GetLE(raw[10..12]);
      if w == 0 || 12 + w > |raw| - 4 then None
      else
        match ReadEntries(raw[12 + w..], n)
        case None => None
        case Some(es) => Some((raw[12..12 + w], es))
  }

  ghost function Joined(done: seq<Entry>, o: Option<seq<Entry>>): Option<seq<Entry>>
  {
    if o.None? then None else Some(done + o.value)
  }

  lemma JoinedStep(done: seq<Entry>, e: Entry, o: Option<seq<Entry>>)
    ensures Joined(done, Prefixed(e, o)) == Joined(done + [e], o)
  {
    if o.Some? { assert done + ([e] + o.value) == done + [e] + o.value; }
  }

  lemma JoinedNone(o: Option<seq<Entry>>)
    ensures Joined([], o) == o
  {
    if o.Some? { assert [] + o.value == o.value; }
  }

  /** The reading loop. */
  method ReadArchiveIndex(crc: seq<byte> -> nat, raw: seq<byte>) returns (r: Option<(seq<byte>, seq<Entry>)>)
    ensures r == ReadIndex(crc, raw)
  {
    hide GetLE, EntryAt, EntryFits, Joined;
    if |raw| < 16 { return None; }
    if GetLE(raw[..4]) != MAGIC { return None; }
    if GetLE(raw[4..6]) != VERSION { return None; }
    if raw[|raw| - 4..] != U32(crc(raw[..|raw| - 4])) { return None; }
    var w, n := GetLE(raw[8..10]), GetLE(raw[10..12]);
    if w == 0 || 12 + w > |raw| - 4 { return None; }
    var rest, es := raw[12 + w..], [];
    JoinedNone(ReadEntries(rest, n));
    for i := 0 to n
      invariant ReadEntries(raw[12 + w..], n) == Joined(es, ReadEntries(rest, n - i))
    {
      JoinedFails(es);
      if !EntryFits(rest) { return None; }
      JoinedStep(es, EntryAt(rest), ReadEntries(Tail(rest), n - i - 1));
      es, rest := es + [EntryAt(rest)], Tail(rest);
    }
    JoinedFails(es);
    if |rest| != 4 { return None; }
    return Some((raw[12..12 + w], es));
  }

  function Tail(rest: seq<byte>): seq<byte>
    requires EntryFits(rest)
  {
    rest[74 + GetLE(rest[40..42])..]
  }

  lemma JoinedFails(done: seq<Entry>)
    ensures Joined(done, None) == None && Joined(done, Some([])) == Some(done)
  {
    assert done + [] == done;
  }

  // ---- what is written is read ----

  lemma EntryReads(e: Entry, tail: seq<byte>)
    requires Typed(e) && Named(e) && |tail| >= 4
    ensures var rest := EntryBytes(e) + tail; EntryFits(rest) && EntryAt(rest) == e && Tail(rest) == tail
  {
    hide GetLE, PutLE;
    var rest := EntryBytes(e) + tail;
    Pow256Values();
    GetPut(e.id, 8);
    GetPut(e.first, 8);
    GetPut(e.last, 8);
    GetPut(e.size, 8);
    GetPut(|e.name|, 2);
    assert rest[..8] == U64(e.id) && rest[8..16] == U64(e.first) && rest[16..24] == U64(e.last);
    assert rest[32..40] == U64(e.size) && rest[40..42] == U16(|e.name|);
    StampReads(e.archivedAt);
    assert rest[24..32] == U64(e.archivedAt % TWO64);
    var n := |e.name|;
    assert rest[42..42 + n] == e.name && rest[42 + n..74 + n] == e.sum && rest[74 + n..] == tail;
  }

  lemma StampReads(n: int)
    requires FitsI64(n)
    ensures GetI64(U64(n % TWO64)) == n
  {
    hide PutLE, GetLE;
    I64RoundTrip(n);
    assert n % TWO64 == if n < 0 then n + TWO64 else n;
  }

  /** Reading a count of entries off a list: all of it, or not at all. */
  lemma {:induction false} EntriesRead(es: seq<Entry>, sum: seq<byte>, n: nat)
    requires Good(es) && |sum| == 4 && n <= |es|
    ensures ReadEntries(EntriesBytes(es) + sum, n) == if n == |es| then Some(es) else None
    decreases n
  {
    hide EntryBytes, EntryAt, EntryFits, GetLE;
    if n == 0 {
      if es == [] {
        assert EntriesBytes(es) + sum == sum;
      } else {
        SomeBytes(es[0]);
      }
    } else {
      var tail := EntriesBytes(es[1..]) + sum;
      assert EntriesBytes(es) + sum == EntryBytes(es[0]) + tail;
      EntryReads(es[0], tail);
      EntriesRead(es[1..], sum, n - 1);
      assert [es[0]] + es[1..] == es;
    }
  }

  lemma SomeBytes(e: Entry)
    ensures |EntryBytes(e)| > 0
  {
  }

  /** The written index reads back if and only if the list has fewer than 65,536 entries: at that many the count in
      the header wraps and entries are left over. */
  lemma WriteRead(crc: seq<byte> -> nat, wrap: seq<byte>, es: seq<Entry>)
    requires Good(es) && 1 <= |wrap| < TWO16
    ensures ReadIndex(crc, IndexBytes(crc, wrap, es)) == if |es| < TWO16 then Some((wrap, es)) else None
  {
    hide GetLE, PutLE, EntriesBytes, ReadEntries, Good;
    var body := HeaderBytes(wrap, |es|) + EntriesBytes(es);
    var sum := U32(crc(body));
    var raw := body + sum;
    Pow256Values();
    GetPut(MAGIC, 4);
    GetPut(VERSION, 2);
    GetPut(|wrap|, 2);
    GetPut(|es|, 2);
    assert raw[..4] == U32(MAGIC) && raw[4..6] == U16(VERSION) && raw[8..10] == U16(|wrap|) && raw[10..12] == U16(|es|);
    assert raw[12..12 + |wrap|] == wrap && raw[12 + |wrap|..] == EntriesBytes(es) + sum;
    assert raw[..|raw| - 4] == body && raw[|raw| - 4..] == sum;
    EntriesRead(es, sum, |es| % TWO16);
  }
}
