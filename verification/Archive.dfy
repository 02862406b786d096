/** The write-ahead-log archive: LSN ranges of segments, runs of archivers over one directory, and restoring up to a
    point in time. */
module Archive {
  import opened Bytes
  import opened ArchiveIndex

  const SEGMENT_HEADER := 64
  const RECORD_HEADER := 40

  // ---- the range of a segment ----

  /** The LSNs of the record headers a scan reaches from `off`. */
  function Scan(raw: seq<byte>, off: nat): seq<nat>
    decreases |raw| - off
  {
    if off + RECORD_HEADER > |raw| then []
    else
      var lsn, body := GetLE(raw[off + 12..off + 20]), GetLE(raw[off + 20..off + 24]);
      if off + RECORD_HEADER + body > |raw| then [lsn] else [lsn] + Scan(raw, off + RECORD_HEADER + body)
  }

  /** The header's start LSN and the LSNs of the records. */
  function Lsns(raw: seq<byte>): seq<nat>
    requires |raw| >= SEGMENT_HEADER
  {
    [GetLE(raw[16..24])] + Scan(raw, SEGMENT_HEADER)
  }

  /** The least nonzero and the greatest of a list; both zero when all are. */
  function FirstOf(ls: seq<nat>): nat
    requires ls != []
  {
    if |ls| == 1 then ls[0]
    else
      var f, l := FirstOf(ls[..|ls| - 1]), ls[|ls| - 1];
      if l != 0 && (f == 0 || l < f) then l else f
  }

  function LastOf(ls: seq<nat>): nat
    requires ls != []
  {
    if |ls| == 1 then ls[0]
    else
      var m, l := LastOf(ls[..|ls| - 1]), ls[|ls| - 1];
      if l > m then l else m
  }

  ghost predicate IsRange(ls: seq<nat>, first: nat, last: nat)
  {
    && first in ls && last in ls && first <= last && (first == 0 ==> last == 0)
    && forall l :: l in ls ==> l <= last && (l != 0 ==> first <= l)
  }

  lemma {:induction false} RangeOf(ls: seq<nat>)
    requires ls != []
    ensures IsRange(ls, FirstOf(ls), LastOf(ls))
  {
    if |ls| > 1 {
      var init, l := ls[..|ls| - 1], ls[|ls| - 1];
      RangeOf(init);
      assert forall x :: x in ls <==> x in init || x == l;
    }
  }

  lemma RangeSnoc(ls: seq<nat>, l: nat)
    requires ls != []
    ensures FirstOf(ls + [l]) == if l != 0 && (FirstOf(ls) == 0 || l < FirstOf(ls)) then l else FirstOf(ls)
    ensures LastOf(ls + [l]) == if l > LastOf(ls) then l else LastOf(ls)
  {
    assert (ls + [l])[..|ls|] == ls;
  }

  method SegmentLSNRange(raw: seq<byte>) returns (r: Option<(nat, nat)>)
    ensures r == if |raw| < SEGMENT_HEADER then None else Some((FirstOf(Lsns(raw)), LastOf(Lsns(raw))))
    ensures r.Some? ==> IsRange(Lsns(raw), r.value.0, r.value.1)
  {
    hide GetLE, IsRange, FirstOf, LastOf;
    if |raw| < SEGMENT_HEADER { return None; }
    RangeOf(Lsns(raw));
    var first: nat := GetLE(raw[16..24]);
    var last: nat, off: nat := first, SEGMENT_HEADER;
    ghost var seen: seq<nat> := [first];
    OneLsn(first);
    while off + RECORD_HEADER <= |raw|
      invariant SEGMENT_HEADER <= off && seen != [] && first == FirstOf(seen) && last == LastOf(seen)
      invariant seen + Scan(raw, off) == Lsns(raw)
      decreases |raw| - off
    {
      var lsn, body := GetLE(raw[off + 12..off + 20]), GetLE(raw[off + 20..off + 24]);
      RangeSnoc(seen, lsn);
      ghost var was := seen;
      seen := seen + [lsn];
      if lsn != 0 {
        if first == 0 || lsn < first { first := lsn; }
        if lsn > last { last := lsn; }
      }
      var need := RECORD_HEADER + body;
      if off + need > |raw| {
        assert was + [lsn] == Lsns(raw);
        return Some((first, last));
      }
      assert (was + [lsn]) + Scan(raw, off + need) == was + ([lsn] + Scan(raw, off + need));
      off := off + need;
    }
    assert seen + [] == seen;
    return Some((first, last));
  }

  lemma OneLsn(l: nat)
    ensures FirstOf([l]) == l && LastOf([l]) == l
  {
  }

  // ---- the index ----

  /** The first entry with this id. */
  function Find(es: seq<Entry>, id: nat): (r: Option<nat>)
    ensures r.Some? ==> r.value < |es| && es[r.value].id == id && forall k :: 0 <= k < r.value ==> es[k].id != id
    ensures r.None? ==> forall k :: 0 <= k < |es| ==> es[k].id != id
  {
    if es == [] then None
    else if es[0].id == id then Some(0)
    else match Find(es[1..], id) case None => None case Some(i) => Some(i + 1)
  }

  function Indexed(es: seq<Entry>, e: Entry): seq<Entry>
  {
    match Find(es, e.id) case None => es + [e] case Some(i) => es[i := e]
  }

  ghost predicate DistinctIds(es: seq<Entry>) { forall i, j :: 0 <= i < j < |es| ==> es[i].id != es[j].id }

  function IndexOf(es: seq<Entry>): seq<Entry>
  {
    if es == [] then [] else Indexed(IndexOf(es[..|es| - 1]), es[|es| - 1])
  }

  function Ids(es: seq<Entry>): set<nat> { set e | e in es :: e.id }

  /** Whatever was archived and re-archived: one entry per segment, every segment once, as it was archived last. */
  lemma {:induction false} IndexKeeps(es: seq<Entry>)
    ensures DistinctIds(IndexOf(es)) && Ids(IndexOf(es)) == Ids(es) && |IndexOf(es)| == |Ids(es)|
    ensures forall e :: e in IndexOf(es) ==> e in es
    ensures es != [] ==> es[|es| - 1] in IndexOf(es)
  {
    hide Indexed, Ids, DistinctIds;
    if es == [] {
      NoIds();
    } else {
      var init, e := es[..|es| - 1], es[|es| - 1];
      IndexKeeps(init);
      IndexedKeeps(IndexOf(init), e);
      assert es == init + [e];
      IdsSnoc(init, e);
    }
  }

  lemma NoIds()
    ensures Ids([]) == {} && DistinctIds([])
  {
  }

  lemma IdsSnoc(es: seq<Entry>, e: Entry)
    ensures Ids(es + [e]) == Ids(es) + {e.id}
  {
  }

  lemma IndexedMembers(es: seq<Entry>, e: Entry)
    requires DistinctIds(es)
    ensures forall x :: x in Indexed(es, e) <==> x == e || (x in es && x.id != e.id)
  {
    var r := Indexed(es, e);
    if Find(es, e.id).Some? {
      var i := Find(es, e.id).value;
      assert r[i] == e;
      forall x | x in es && x.id != e.id ensures x in r {
        var k :| 0 <= k < |es| && es[k] == x;
        assert r[k] == x;
      }
      forall x | x in r && x != e ensures x in es && x.id != e.id {
        var k :| 0 <= k < |r| && r[k] == x;
        assert k != i && x == es[k];
      }
    }
  }

  lemma IndexedKeeps(es: seq<Entry>, e: Entry)
    requires DistinctIds(es) && |es| == |Ids(es)|
    ensures var r := Indexed(es, e); DistinctIds(r) && Ids(r) == Ids(es) + {e.id} && |r| == |Ids(r)| && e in r
    ensures forall x :: x in Indexed(es, e) <==> x == e || (x in es && x.id != e.id)
  {
    IndexedMembers(es, e);
    IndexedIds(es, e);
    IndexedDistinct(es, e);
  }

  lemma IndexedIds(es: seq<Entry>, e: Entry)
    requires DistinctIds(es) && |es| == |Ids(es)|
    ensures Ids(Indexed(es, e)) == Ids(es) + {e.id} && |Indexed(es, e)| == |Ids(Indexed(es, e))|
  {
    hide Indexed, DistinctIds;
    IndexedMembers(es, e);
    IndexedLength(es, e);
    var r := Indexed(es, e);
    forall x | x in Ids(es) ensures x in Ids(r) {
      var y :| y in es && y.id == x;
      if x == e.id { assert e in r; } else { assert y in r; }
    }
    assert e in r;
    if e.id in Ids(es) { assert Ids(r) == Ids(es); }
  }

  lemma IndexedLength(es: seq<Entry>, e: Entry)
    ensures |Indexed(es, e)| == if e.id in Ids(es) then |es| else |es| + 1
  {
    if Find(es, e.id).Some? { assert es[Find(es, e.id).value] in es; }
  }

  lemma IndexedDistinct(es: seq<Entry>, e: Entry)
    requires DistinctIds(es)
    ensures DistinctIds(Indexed(es, e))
  {
  }

  // ---- archivers over one directory ----

  function Hex(n: nat, w: nat): (s: seq<byte>)
    ensures |s| == w
  {
    if w == 0 then [] else Hex(n / 16, w - 1) + [if n % 16 < 10 then (48 + n % 16) as byte else (87 + n % 16) as byte]
  }

  /** "wal-", the id in sixteen hexadecimal digits, ".seg". */
  function SegmentName(id: nat): (s: seq<byte>)
    ensures |s| == 24
  {
    [119, 97, 108, 45] + Hex(id, 16) + [46, 115, 101, 103]
  }

  function Pow16(w: nat): nat { if w == 0 then 1 else 16 * Pow16(w - 1) }

  lemma {:induction false} HexInjective(n: nat, m: nat, w: nat)
    requires n < Pow16(w) && m < Pow16(w) && Hex(n, w) == Hex(m, w)
    ensures n == m
  {
    if w > 0 {
      var a, b := Hex(n, w), Hex(m, w);
      assert a[..w - 1] == Hex(n / 16, w - 1) && b[..w - 1] == Hex(m / 16, w - 1) && a[w - 1] == b[w - 1];
      HexInjective(n / 16, m / 16, w - 1);
    }
  }

  lemma NamesDiffer(i: nat, j: nat)
    requires i < TWO64 && j < TWO64 && SegmentName(i) == SegmentName(j)
    ensures i == j
  {
    hide Hex;
    var a, b := SegmentName(i), SegmentName(j);
    assert a[4..20] == Hex(i, 16) && b[4..20] == Hex(j, 16);
    assert Pow16(4) == 65536 && Pow16(8) == 65536 * Pow16(4) && Pow16(12) == 65536 * Pow16(8)
      && Pow16(16) == 65536 * Pow16(12);
    HexInjective(i, j, 16);
  }

  /** A sealed segment: the wrapped form of the data key that sealed it, its size and its sum. */
  datatype File = File(key: seq<byte>, size: nat, sum: seq<byte>)

  datatype Dir = Dir(index: Option<seq<byte>>, files: map<seq<byte>, File>)

  /** One call of Archive: the archiver's wrapped data key, the segment, the caller's bounds, the time, and what
      sealing the segment gave, if it worked. */
  datatype Call = Call(wrap: seq<byte>, id: nat, raw: seq<byte>, first: nat, last: nat, now: int,
                       copy: Option<(nat, seq<byte>)>)

  /** The call gets as far as listing the segment. */
  predicate Lists(c: Call) { |c.raw| >= SEGMENT_HEADER && c.copy.Some? }

  /** Bounds the caller leaves at zero come from scanning the segment. */
  function EntryOf(c: Call): Entry
    requires Lists(c)
  {
    Entry(c.id,
          if c.first == 0 then FirstOf(Lsns(c.raw)) else c.first,
          if c.last == 0 then LastOf(Lsns(c.raw)) else c.last,
          c.now, c.copy.value.0, SegmentName(c.id), c.copy.value.1)
  }

  /** appendIndex: reads the index, replaces or appends, writes it back under the wrapped key it already holds. */
  function Appended(crc: seq<byte> -> nat, index: Option<seq<byte>>, wrap: seq<byte>, e: Entry): Option<seq<byte>>
  {
    if index.None? then WriteIndex(crc, wrap, Indexed([], e))
    else
      match ReadIndex(crc, index.value)
      case None => None
      case Some((w, es)) => WriteIndex(crc, w, Indexed(es, e))
  }

  /** The directory after a call, and whether the call succeeded. */
  function Step(crc: seq<byte> -> nat, d: Dir, c: Call): (Dir, bool)
  {
    if |c.raw| < SEGMENT_HEADER then (d, false)
    else if c.copy.None? then (d.(files := d.files - {SegmentName(c.id)}), false)
    else
      var files := d.files[SegmentName(c.id) := File(c.wrap, c.copy.value.0, c.copy.value.1)];
      match Appended(crc, d.index, c.wrap, EntryOf(c))
      case None => (Dir(d.index, files), false)
      case Some(raw) => (Dir(Some(raw), files), true)
  }

  class Directory {
    var index: Option<seq<byte>>
    var files: map<seq<byte>, File>

    ghost function Contents(): Dir
      reads this
    {
      Dir(index, files)
    }

    constructor ()
      ensures Contents() == Dir(None, map[])
    {
      index, files := None, map[];
    }
  }

  class DirArchiver {
    const dir: Directory
    const wrap: seq<byte>
    const crc: seq<byte> -> nat

    constructor (dir: Directory, wrap: seq<byte>, crc: seq<byte> -> nat)
      ensures this.dir == dir && this.wrap == wrap && this.crc == crc
    {
      this.dir, this.wrap, this.crc := dir, wrap, crc;
    }

    /** Archive: seals the segment over the old copy, then lists it. */
    method Archive(c: Call) returns (ok: bool)
      requires c.wrap == wrap
      modifies dir
      ensures (dir.Contents(), ok) == Step(crc, old(dir.Contents()), c)
    {
      hide FirstOf, LastOf, Lsns, SegmentName, WriteIndex, ReadIndex, IsRange;
      var range := SegmentLSNRange(c.raw);
      if range.None? { return false; }
      var first := if c.first == 0 then range.value.0 else c.first;
      var last := if c.last == 0 then range.value.1 else c.last;
      var name := SegmentName(c.id);
      dir.files := dir.files - {name};
      if c.copy.None? { return false; }
      dir.files := dir.files[name := File(wrap, c.copy.value.0, c.copy.value.1)];
      assert dir.files == old(dir.files)[name := File(wrap, c.copy.value.0, c.copy.value.1)];
      ok := AppendIndex(Entry(c.id, first, last, c.now, c.copy.value.0, name, c.copy.value.1));
    }

    method AppendIndex(e: Entry) returns (ok: bool)
      modifies dir
      ensures var r := Appended(crc, old(dir.index), wrap, e);
              dir.Contents() == Dir(if r.Some? then r else old(dir.index), old(dir.files)) && ok == r.Some?
    {
      var es: seq<Entry>, w := [], wrap;
      if dir.index.Some? {
        var read := ReadArchiveIndex(crc, dir.index.value);
        if read.None? { return false; }
        w, es := read.value.0, read.value.1;
      }
      var next := Replace(es, e);
      var raw := WriteArchiveIndex(crc, w, next);
      if raw.None? { return false; }
      dir.index := raw;
      return true;
    }

    /** The loop that replaces the entry with this id or appends. */
    method Replace(es: seq<Entry>, e: Entry) returns (r: seq<Entry>)
      ensures r == Indexed(es, e)
    {
      for i := 0 to |es|
        invariant forall k :: 0 <= k < i ==> es[k].id != e.id
      {
        if es[i].id == e.id {
          assert Find(es, e.id) == Some(i);
          return es[i := e];
        }
      }
      return es + [e];
    }
  }

  // ---- every run ----

  function Run(crc: seq<byte> -> nat, calls: seq<Call>): Dir
  {
    if calls == [] then Dir(None, map[]) else Step(crc, Run(crc, calls[..|calls| - 1]), calls[|calls| - 1]).0
  }

  /** The objects: one directory, and for every call an archiver with its key. */
  method ArchiveAll(crc: seq<byte> -> nat, calls: seq<Call>) returns (dir: Directory)
    ensures dir.Contents() == Run(crc, calls)
  {
    hide Step;
    dir := new Directory();
    for i := 0 to |calls|
      invariant fresh(dir) && dir.Contents() == Run(crc, calls[..i])
    {
      assert calls[..i + 1][..i] == calls[..i];
      var archiver := new DirArchiver(dir, calls[i].wrap, crc);
      var _ := archiver.Archive(calls[i]);
    }
    assert calls[..|calls|] == calls;
  }

  /** What the calls hand to appendIndex, in order. */
  function Listed(calls: seq<Call>): seq<Entry>
  {
    if calls == [] then []
    else Listed(calls[..|calls| - 1]) + (if Lists(calls[|calls| - 1]) then [EntryOf(calls[|calls| - 1])] else [])
  }

  /** The wrapped key of the archiver that wrote the index first. */
  function FirstWrap(calls: seq<Call>): Option<seq<byte>>
  {
    if calls == [] then None
    else if FirstWrap(calls[..|calls| - 1]).Some? then FirstWrap(calls[..|calls| - 1])
    else if Lists(calls[|calls| - 1]) then Some(calls[|calls| - 1].wrap)
    else None
  }

  /** The wrapped key the copy of this segment is sealed under, if there is a copy. */
  function KeyOf(calls: seq<Call>, id: nat): Option<seq<byte>>
  {
    if calls == [] then None
    else
      var c := calls[|calls| - 1];
      if c.id != id || |c.raw| < SEGMENT_HEADER then KeyOf(calls[..|calls| - 1], id)
      else if c.copy.Some? then Some(c.wrap)
      else None
  }

  /** One more call. */
  lemma LastCall(crc: seq<byte> -> nat, calls: seq<Call>, id: nat)
    requires calls != []
    ensures var before, c := calls[..|calls| - 1], calls[|calls| - 1];
            && Run(crc, calls) == Step(crc, Run(crc, before), c).0
            && Listed(calls) == (if Lists(c) then Listed(before) + [EntryOf(c)] else Listed(before))
            && FirstWrap(calls)
               == (if FirstWrap(before).Some? then FirstWrap(before) else if Lists(c) then Some(c.wrap) else None)
            && KeyOf(calls, id) == (if c.id != id || |c.raw| < SEGMENT_HEADER then KeyOf(before, id)
                                    else if c.copy.Some? then Some(c.wrap) else None)
  {
    hide Step, EntryOf;
    assert Listed(calls[..|calls| - 1]) + [] == Listed(calls[..|calls| - 1]);
  }

  lemma NoCalls(crc: seq<byte> -> nat, id: nat)
    ensures Run(crc, []) == Dir(None, map[]) && Listed([]) == [] && FirstWrap([]) == None && KeyOf([], id) == None
            && IndexOf([]) == []
  {
  }

  lemma IndexOfSnoc(es: seq<Entry>, e: Entry)
    ensures IndexOf(es + [e]) == Indexed(IndexOf(es), e)
  {
    assert (es + [e])[..|es|] == es;
  }

  /** The widths of a call's fields; a wrapped key is short and not empty. */
  predicate GoodCall(c: Call)
  {
    && 1 <= |c.wrap| < TWO16 && c.id < TWO64 && c.first < TWO64 && c.last < TWO64 && FitsI64(c.now)
    && (c.copy.Some? ==> c.copy.value.0 < TWO64 && |c.copy.value.1| == 32)
  }

  predicate GoodCalls(calls: seq<Call>) { forall i :: 0 <= i < |calls| ==> GoodCall(calls[i]) }

  lemma {:induction false} ScanTyped(raw: seq<byte>, off: nat)
    ensures forall l :: l in Scan(raw, off) ==> l < TWO64
    decreases |raw| - off
  {
    hide GetLE, PutLE;
    if off + RECORD_HEADER <= |raw| {
      Pow256Values();
      PutGet(raw[off + 12..off + 20]);
      ScanTyped(raw, off + RECORD_HEADER + GetLE(raw[off + 20..off + 24]));
    }
  }

  lemma EntryGood(c: Call)
    requires GoodCall(c) && Lists(c)
    ensures Typed(EntryOf(c)) && Named(EntryOf(c))
  {
    hide GetLE, PutLE, Scan, FirstOf, LastOf;
    var ls := Lsns(c.raw);
    RangeOf(ls);
    ScanTyped(c.raw, SEGMENT_HEADER);
    Pow256Values();
    PutGet(c.raw[16..24]);
    assert forall l :: l in ls ==> l < TWO64;
  }

  lemma IndexedGood(es: seq<Entry>, e: Entry)
    requires Good(es) && Typed(e) && Named(e)
    ensures Good(Indexed(es, e))
  {
    hide Typed, Named;
  }

  ghost predicate HoldsIndex(crc: seq<byte> -> nat, d: Dir, wrap: Option<seq<byte>>, es: seq<Entry>)
  {
    if es == [] then d.index.None? && wrap.None?
    else
      && d.index.Some? && wrap.Some? && 1 <= |wrap.value| < TWO16
      && ReadIndex(crc, d.index.value) == if |es| < TWO16 then Some((wrap.value, es)) else None
  }

  /** Over every run of calls, by one archiver after another: the index file reads back as one entry per segment, as
      archived last, under the first archiver's key, if and only if fewer than 65,536 segments were ever listed;
      from the 65,536th segment on it is unreadable for good. */
  lemma {:induction false} IndexRun(crc: seq<byte> -> nat, calls: seq<Call>)
    requires GoodCalls(calls)
    ensures Good(IndexOf(Listed(calls))) && HoldsIndex(crc, Run(crc, calls), FirstWrap(calls), IndexOf(Listed(calls)))
    ensures |IndexOf(Listed(calls))| == |Ids(Listed(calls))|
  {
    hide *;
    IndexKeeps(Listed(calls));
    if calls == [] {
      NoCalls(crc, 0);
      NothingListed(crc);
    } else {
      var before, c := calls[..|calls| - 1], calls[|calls| - 1];
      CallsBefore(calls);
      LastCall(crc, calls, 0);
      IndexRun(crc, before);
      var es := IndexOf(Listed(before));
      if Lists(c) {
        IndexKeeps(Listed(before));
        IndexOfSnoc(Listed(before), EntryOf(c));
        EntryGood(c);
        IndexedGood(es, EntryOf(c));
        StepLists(crc, Run(crc, before), FirstWrap(before), es, c);
      } else {
        StepSkips(crc, Run(crc, before), c);
        SameIndex(crc, Run(crc, before), Run(crc, calls), FirstWrap(before), es);
      }
    }
  }

  lemma CallsBefore(calls: seq<Call>)
    requires GoodCalls(calls) && calls != []
    ensures GoodCalls(calls[..|calls| - 1]) && GoodCall(calls[|calls| - 1])
  {
    hide GoodCall;
  }

  lemma NothingListed(crc: seq<byte> -> nat)
    ensures HoldsIndex(crc, Dir(None, map[]), None, []) && Good([]) && IndexOf([]) == []
  {
  }

  lemma StepSkips(crc: seq<byte> -> nat, d: Dir, c: Call)
    requires !Lists(c)
    ensures Step(crc, d, c).0.index == d.index
  {
  }

  lemma SameIndex(crc: seq<byte> -> nat, d: Dir, d': Dir, wrap: Option<seq<byte>>, es: seq<Entry>)
    requires HoldsIndex(crc, d, wrap, es) && d'.index == d.index
    ensures HoldsIndex(crc, d', wrap, es)
  {
  }

  lemma StepLists(crc: seq<byte> -> nat, d: Dir, wrap: Option<seq<byte>>, es: seq<Entry>, c: Call)
    requires GoodCall(c) && Lists(c) && HoldsIndex(crc, d, wrap, es)
    requires Good(Indexed(es, EntryOf(c)))
    ensures HoldsIndex(crc, Step(crc, d, c).0, if wrap.Some? then wrap else Some(c.wrap), Indexed(es, EntryOf(c)))
  {
    hide EntryOf, ReadIndex, IndexBytes, Typed, Named;
    var next := Indexed(es, EntryOf(c));
    assert |es| <= |next| <= |es| + 1 && next != [];
    var w := if wrap.Some? then wrap.value else c.wrap;
    WriteRead(crc, w, next);
  }

  // ---- restoring ----

  datatype Header = Header(created: int, durable: nat)

  function Best(h: Header, es: seq<Entry>, target: int): nat
  {
    if es == [] then (if h.created <= target then h.durable else 0)
    else
      var b, e := Best(h, es[..|es| - 1], target), es[|es| - 1];
      if e.archivedAt <= target && e.last > b then e.last else b
  }

  /** ResolveUntilTime: no index is an empty one, an unreadable index is an error, and so is the answer zero. */
  function Resolved(crc: seq<byte> -> nat, h: Header, index: Option<seq<byte>>, target: int): Option<nat>
  {
    var read := if index.None? then Some(([], [])) else ReadIndex(crc, index.value);
    if read.None? || Best(h, read.value.1, target) == 0 then None else Some(Best(h, read.value.1, target))
  }

  method ResolveUntilTime(crc: seq<byte> -> nat, h: Header, index: Option<seq<byte>>, target: int)
      returns (r: Option<nat>)
    ensures r == Resolved(crc, h, index, target)
  {
    hide ReadIndex;
    var best: nat := 0;
    if h.created <= target { best := h.durable; }
    var es: seq<Entry> := [];
    if index.Some? {
      var read := ReadArchiveIndex(crc, index.value);
      if read.None? { return None; }
      es := read.value.1;
    }
    for i := 0 to |es|
      invariant best == Best(h, es[..i], target)
    {
      assert es[..i + 1][..i] == es[..i];
      if es[i].archivedAt <= target && es[i].last > best { best := es[i].last; }
    }
    assert es[..|es|] == es;
    if best == 0 { return None; }
    return Some(best);
  }

  /** An LSN the base backup or a segment archived by then covers. */
  ghost predicate Eligible(h: Header, es: seq<Entry>, target: int, lsn: nat)
  {
    (h.created <= target && lsn == h.durable)
        || exists i :: 0 <= i < |es| && es[i].archivedAt <= target && es[i].last == lsn
  }

  /** The resolved LSN is the greatest eligible one; zero when none is. */
  lemma {:induction false} BestIsGreatest(h: Header, es: seq<Entry>, target: int)
    ensures Best(h, es, target) == 0 || Eligible(h, es, target, Best(h, es, target))
    ensures forall lsn: nat :: Eligible(h, es, target, lsn) ==> lsn <= Best(h, es, target)
  {
    if es != [] {
      var init, e := es[..|es| - 1], es[|es| - 1];
      BestIsGreatest(h, init, target);
      var b := Best(h, es, target);
      if b == Best(h, init, target) {
        if b != 0 && !(h.created <= target && b == h.durable) {
          var i :| 0 <= i < |init| && init[i].archivedAt <= target && init[i].last == b;
          assert es[i].last == b;
        }
      } else {
        assert es[|es| - 1].last == b;
      }
      forall lsn: nat | Eligible(h, es, target, lsn) ensures lsn <= b {
        if !(h.created <= target && lsn == h.durable) {
          var i :| 0 <= i < |es| && es[i].archivedAt <= target && es[i].last == lsn;
          if i < |init| {
            assert init[i].last == lsn;
            assert Eligible(h, init, target, lsn);
          }
        } else {
          assert Eligible(h, init, target, lsn);
        }
      }
    }
  }

  /** A later target never resolves to an earlier LSN. */
  lemma BestMonotone(h: Header, es: seq<Entry>, t1: int, t2: int)
    requires t1 <= t2
    ensures Best(h, es, t1) <= Best(h, es, t2)
  {
    hide Best;
    BestIsGreatest(h, es, t1);
    BestIsGreatest(h, es, t2);
    var b := Best(h, es, t1);
    if b != 0 {
      assert Eligible(h, es, t1, b);
      if !(h.created <= t1 && b == h.durable) {
        var i :| 0 <= i < |es| && es[i].archivedAt <= t1 && es[i].last == b;
        assert es[i].archivedAt <= t2 && es[i].last == b;
      }
      assert Eligible(h, es, t2, b);
    }
  }

  predicate Skipped(e: Entry, until: nat) { until != 0 && e.first > until }

  function Applied(es: seq<Entry>, until: nat): seq<Entry>
  {
    if es == [] then []
    else Applied(es[..|es| - 1], until) + (if Skipped(es[|es| - 1], until) then [] else [es[|es| - 1]])
  }

  /** The copy is there, it is the one listed, and the key in the index opens it. */
  predicate Opens(files: map<seq<byte>, File>, wrap: seq<byte>, e: Entry)
  {
    e.name in files && files[e.name] == File(wrap, e.size, e.sum)
  }

  function Restored(files: map<seq<byte>, File>, wrap: seq<byte>, es: seq<Entry>, until: nat): Option<seq<Entry>>
  {
    if es == [] then Some([])
    else
      match Restored(files, wrap, es[..|es| - 1], until)
      case None => None
      case Some(done) =>
        var e := es[|es| - 1];
        if Skipped(e, until) then Some(done)
        else if Opens(files, wrap, e) then Some(done + [e])
        else None
  }

  /** applyArchive. */
  function AppliedFrom(crc: seq<byte> -> nat, d: Dir, until: nat): Option<seq<Entry>>
  {
    if d.index.None? then Some([])
    else
      match ReadIndex(crc, d.index.value)
      case None => None
      case Some((wrap, es)) => Restored(d.files, wrap, es, until)
  }

  method ApplyArchive(crc: seq<byte> -> nat, d: Dir, until: nat) returns (restored: Option<seq<Entry>>)
    ensures restored == AppliedFrom(crc, d, until)
  {
    hide ReadIndex;
    if d.index.None? { return Some([]); }
    var read := ReadArchiveIndex(crc, d.index.value);
    if read.None? { return None; }
    var wrap, es := read.value.0, read.value.1;
    var done: seq<Entry> := [];
    for i := 0 to |es|
      invariant Restored(d.files, wrap, es[..i], until) == Some(done)
    {
      var e := es[i];
      assert es[..i + 1][..i] == es[..i];
      if until != 0 && e.first > until { continue; }
      if e.name !in d.files {
        RestoredFails(d.files, wrap, es, until, i);
        return None;
      }
      var f := d.files[e.name];
      if f.sum != e.sum || f.size != e.size || f.key != wrap {
        RestoredFails(d.files, wrap, es, until, i);
        return None;
      }
      done := done + [e];
    }
    assert es[..|es|] == es;
    return Some(done);
  }

  ghost predicate AllOpen(files: map<seq<byte>, File>, wrap: seq<byte>, es: seq<Entry>, until: nat)
  {
    forall e :: e in es && !Skipped(e, until) ==> Opens(files, wrap, e)
  }

  /** One segment that does not open fails the whole restore; otherwise every segment not skipped is restored. */
  lemma {:induction false} RestoredExactly(files: map<seq<byte>, File>, wrap: seq<byte>, es: seq<Entry>, until: nat)
    ensures Restored(files, wrap, es, until)
            == if AllOpen(files, wrap, es, until) then Some(Applied(es, until)) else None
  {
    hide Skipped, Opens;
    if es != [] {
      var init, e := es[..|es| - 1], es[|es| - 1];
      RestoredExactly(files, wrap, init, until);
      assert es == init + [e];
      assert AllOpen(files, wrap, es, until)
        <==> AllOpen(files, wrap, init, until) && (Skipped(e, until) || Opens(files, wrap, e));
      assert Applied(init, until) + [] == Applied(init, until);
    }
  }

  lemma RestoredFails(files: map<seq<byte>, File>, wrap: seq<byte>, es: seq<Entry>, until: nat, i: nat)
    requires i < |es| && !Skipped(es[i], until) && !Opens(files, wrap, es[i])
    ensures Restored(files, wrap, es, until) == None
  {
    RestoredExactly(files, wrap, es, until);
  }

  lemma {:induction false} AppliedExactly(es: seq<Entry>, until: nat, e: Entry)
    ensures e in Applied(es, until) <==> e in es && !Skipped(e, until)
  {
    if es != [] {
      AppliedExactly(es[..|es| - 1], until, e);
      assert es == es[..|es| - 1] + [es[|es| - 1]];
    }
  }

  ghost predicate InOrder(es: seq<Entry>) { forall e :: e in es ==> e.first <= e.last }

  /** A segment archived by the target time is left out of the restore to the resolved LSN if and only if some nonzero
      LSN is eligible and all eligible ones are below the segment's first; this cannot happen to a range in order. */
  lemma ResolvedSegmentsApplied(h: Header, es: seq<Entry>, target: int, i: nat)
    requires i < |es| && es[i].archivedAt <= target
    ensures es[i] !in Applied(es, Best(h, es, target)) <==>
            (exists l: nat :: l != 0 && Eligible(h, es, target, l))
                && forall l: nat :: Eligible(h, es, target, l) ==> l < es[i].first
    ensures es[i].first <= es[i].last ==> es[i] in Applied(es, Best(h, es, target))
  {
    hide Best, Applied;
    var b := Best(h, es, target);
    BestIsGreatest(h, es, target);
    assert Eligible(h, es, target, es[i].last);
    AppliedExactly(es, b, es[i]);
    if b != 0 { assert Eligible(h, es, target, b); }
  }

  /** Nothing wholly after the resolved LSN is applied. */
  lemma NothingBeyond(h: Header, es: seq<Entry>, target: int, e: Entry)
    requires Best(h, es, target) != 0 && e in Applied(es, Best(h, es, target))
    ensures e in es && e.first <= Best(h, es, target)
  {
    AppliedExactly(es, Best(h, es, target), e);
  }

  // ---- restoring what runs left behind ----

  /** The call records a range in order. */
  predicate Ordered(c: Call) { Lists(c) ==> EntryOf(c).first <= EntryOf(c).last }

  /** Bounds left at zero always do; with only the last one given, as when segments are recycled at a redo LSN, the
      call does exactly when the segment begins at or before it. */
  lemma OrderedCall(c: Call)
    requires Lists(c)
    ensures c.first == 0 && c.last == 0 ==> Ordered(c)
    ensures c.first == 0 && c.last != 0 ==> (Ordered(c) <==> FirstOf(Lsns(c.raw)) <= c.last)
  {
    RangeOf(Lsns(c.raw));
  }

  lemma {:induction false} ListedInOrder(calls: seq<Call>)
    requires forall i :: 0 <= i < |calls| ==> Ordered(calls[i])
    ensures InOrder(Listed(calls)) && InOrder(IndexOf(Listed(calls)))
  {
    hide EntryOf, IndexOf;
    IndexKeeps(Listed(calls));
    if calls != [] {
      assert Ordered(calls[|calls| - 1]);
      ListedInOrder(calls[..|calls| - 1]);
    }
  }

  /** After every run of calls that record their ranges in order, none of the segments archived by the target time is
      left out of the restore to the resolved LSN. */
  lemma OrderedRun(h: Header, calls: seq<Call>, target: int, i: nat)
    requires forall k :: 0 <= k < |calls| ==> Ordered(calls[k])
    requires i < |IndexOf(Listed(calls))| && IndexOf(Listed(calls))[i].archivedAt <= target
    ensures IndexOf(Listed(calls))[i] in Applied(IndexOf(Listed(calls)), Best(h, IndexOf(Listed(calls)), target))
  {
    hide Best, Applied, Listed, IndexOf, Ordered;
    ListedInOrder(calls);
    ResolvedSegmentsApplied(h, IndexOf(Listed(calls)), target, i);
  }

  /** Recycling a segment that begins after the redo LSN records a range out of order: after that one call, a restore
      to any time since leaves the segment out, unless the base backup is durable up to its first LSN. */
  lemma RecycledBeyondRedo(h: Header, c: Call, target: int)
    requires Lists(c) && c.first == 0 && 0 < c.last < FirstOf(Lsns(c.raw)) && c.now <= target
    ensures var es := IndexOf(Listed([c]));
            es == [EntryOf(c)]
                && (Applied(es, Best(h, es, target)) == [] <==> h.created > target || h.durable < FirstOf(Lsns(c.raw)))
  {
    hide Lsns, FirstOf, LastOf;
    assert [c][..0] == [] && Listed([c]) == [] + [EntryOf(c)];
    var es := [EntryOf(c)];
    assert es[..0] == [] && IndexOf(es) == Indexed([], es[0]);
    assert Best(h, [], target) == if h.created <= target then h.durable else 0;
    assert Applied(es, Best(h, es, target))
      == Applied([], Best(h, es, target)) + (if Skipped(es[0], Best(h, es, target)) then [] else [es[0]]);
  }

  ghost predicate HoldsFiles(d: Dir, calls: seq<Call>, e: Entry)
  {
    && e.id < TWO64 && e.name == SegmentName(e.id)
    && match KeyOf(calls, e.id)
       case None => e.name !in d.files
       case Some(w) => e.name in d.files && d.files[e.name] == File(w, e.size, e.sum)
  }

  ghost predicate AllHeld(d: Dir, calls: seq<Call>, es: seq<Entry>) { forall e :: e in es ==> HoldsFiles(d, calls, e) }

  /** Every listed segment's copy is the one its entry describes, under the key of the archiver that made it. */
  lemma {:induction false} FilesRun(crc: seq<byte> -> nat, calls: seq<Call>)
    requires GoodCalls(calls)
    ensures AllHeld(Run(crc, calls), calls, IndexOf(Listed(calls)))
  {
    hide *;
    if calls == [] {
      NoCalls(crc, 0);
      NoneHeld(Run(crc, calls), calls);
    } else {
      var before, c := calls[..|calls| - 1], calls[|calls| - 1];
      CallsBefore(calls);
      LastCall(crc, calls, 0);
      FilesRun(crc, before);
      IndexKeeps(Listed(before));
      if Lists(c) {
        IndexOfSnoc(Listed(before), EntryOf(c));
        IndexedMembers(IndexOf(Listed(before)), EntryOf(c));
      }
      ListsCopy(c);
      StepHolds(crc, Run(crc, before), calls, IndexOf(Listed(before)), IndexOf(Listed(calls)));
    }
  }

  lemma NoneHeld(d: Dir, calls: seq<Call>)
    ensures AllHeld(d, calls, [])
  {
  }

  lemma ListsCopy(c: Call)
    ensures Lists(c) <==> |c.raw| >= SEGMENT_HEADER && c.copy.Some?
    ensures Lists(c) ==> EntryOf(c).id == c.id
  {
  }

  lemma StepHolds(crc: seq<byte> -> nat, d: Dir, calls: seq<Call>, es: seq<Entry>, next: seq<Entry>)
    requires calls != [] && GoodCall(calls[|calls| - 1]) && AllHeld(d, calls[..|calls| - 1], es)
    requires var c := calls[|calls| - 1];
             if Lists(c) then forall x :: x in next <==> x == EntryOf(c) || (x in es && x.id != c.id) else next == es
    ensures AllHeld(Step(crc, d, calls[|calls| - 1]).0, calls, next)
  {
    hide Appended, SegmentName, FirstOf, LastOf, Lsns, Listed, IndexOf, Run, FirstWrap;
    var c := calls[|calls| - 1];
    var d' := Step(crc, d, c).0;
    forall e | e in next ensures HoldsFiles(d', calls, e) {
      if !Lists(c) || e != EntryOf(c) {
        assert HoldsFiles(d, calls[..|calls| - 1], e);
        if e.id != c.id && SegmentName(e.id) == SegmentName(c.id) { NamesDiffer(e.id, c.id); }
      }
    }
  }

  /** Restoring after any run: with fewer than 65,536 segments it restores exactly the segments not skipped if the last
      copy of each of those was made, and made under the key of the archiver that first wrote the index; otherwise it
      fails. With 65,536 segments or more it always fails. */
  lemma RestoreRun(crc: seq<byte> -> nat, calls: seq<Call>, until: nat)
    requires GoodCalls(calls)
    ensures var es := IndexOf(Listed(calls));
            AppliedFrom(crc, Run(crc, calls), until) ==
            if |es| < TWO16 && (forall e :: e in es && !Skipped(e, until) ==> KeyOf(calls, e.id) == FirstWrap(calls))
            then Some(Applied(es, until)) else None
  {
    hide Run, Listed, IndexOf, KeyOf, FirstWrap, ReadIndex, Restored, Applied, Skipped, SegmentName, GoodCalls, Good,
        Ids;
    IndexRun(crc, calls);
    FilesRun(crc, calls);
    var es, d := IndexOf(Listed(calls)), Run(crc, calls);
    if es == [] {
      NothingApplied(until);
    } else if |es| < TWO16 {
      var wrap := FirstWrap(calls).value;
      RestoredExactly(d.files, wrap, es, until);
      forall e | e in es ensures Opens(d.files, wrap, e) <==> KeyOf(calls, e.id) == FirstWrap(calls) {
        assert HoldsFiles(d, calls, e);
      }
    }
  }

  lemma NothingApplied(until: nat)
    ensures Applied([], until) == []
  {
  }

  /** One archiver alone restores all it listed. */
  lemma OneArchiver(crc: seq<byte> -> nat, calls: seq<Call>, until: nat, wrap: seq<byte>)
    requires GoodCalls(calls) && |Ids(Listed(calls))| < TWO16
    requires forall i :: 0 <= i < |calls| ==> calls[i].wrap == wrap && calls[i].copy.Some?
    ensures AppliedFrom(crc, Run(crc, calls), until) == Some(Applied(IndexOf(Listed(calls)), until))
  {
    hide AppliedFrom, Run, Applied, Ids, Skipped, GoodCalls;
    RestoreRun(crc, calls, until);
    IndexKeeps(Listed(calls));
    var es := IndexOf(Listed(calls));
    forall e | e in es ensures KeyOf(calls, e.id) == FirstWrap(calls) {
      OneKey(calls, e, wrap);
    }
  }

  lemma {:induction false} OneKey(calls: seq<Call>, e: Entry, wrap: seq<byte>)
    requires forall i :: 0 <= i < |calls| ==> calls[i].wrap == wrap && calls[i].copy.Some?
    requires e in Listed(calls)
    ensures KeyOf(calls, e.id) == FirstWrap(calls) == Some(wrap)
  {
    hide Lsns, FirstOf, LastOf;
    var before := calls[..|calls| - 1];
    if e in Listed(before) {
      OneKey(before, e, wrap);
    } else {
      OneWrap(before, wrap);
    }
  }

  lemma {:induction false} OneWrap(calls: seq<Call>, wrap: seq<byte>)
    requires forall i :: 0 <= i < |calls| ==> calls[i].wrap == wrap
    ensures FirstWrap(calls).None? || FirstWrap(calls) == Some(wrap)
  {
    if calls != [] { OneWrap(calls[..|calls| - 1], wrap); }
  }

  // ---- inputs at which a restore fails ----

  /** Two archivers, as after a restart: the second seals under a key of its own and lists under the first one's.
      Whatever they archived, a restore that needs the second one's segment fails. */
  lemma SecondArchiver(crc: seq<byte> -> nat, c1: Call, c2: Call, until: nat)
    requires GoodCall(c1) && GoodCall(c2) && Lists(c1) && Lists(c2) && c1.wrap != c2.wrap
             && !Skipped(EntryOf(c2), until)
    ensures AppliedFrom(crc, Run(crc, [c1, c2]), until) == None
  {
    hide AppliedFrom, Run, IndexOf, Listed, EntryOf, FirstWrap, KeyOf, Skipped, GoodCalls, GoodCall, Ids, Step, Applied;
    var calls := [c1, c2];
    assert calls[..1] == [c1] && [c1][..0] == [];
    NoCalls(crc, c2.id);
    LastCall(crc, [c1], c2.id);
    LastCall(crc, calls, c2.id);
    assert GoodCalls(calls) by { TwoGood(c1, c2); }
    RestoreRun(crc, calls, until);
    IndexKeeps(Listed(calls));
    ListsCopy(c2);
    assert EntryOf(c2) in IndexOf(Listed(calls));
  }

  lemma TwoGood(c1: Call, c2: Call)
    requires GoodCall(c1) && GoodCall(c2)
    ensures GoodCalls([c1, c2])
  {
  }

  /** The segments 1 to n, archived in turn by one archiver. */
  function Numbered(segment: nat -> Call, n: nat): seq<Call>
  {
    if n == 0 then [] else Numbered(segment, n - 1) + [segment(n)]
  }

  /** Segment i is listed, under the same key as the others. */
  ghost predicate Numbers(segment: nat -> Call, wrap: seq<byte>)
  {
    forall i: nat {:trigger segment(i)} :: 1 <= i < TWO64 ==>
      GoodCall(segment(i)) && Lists(segment(i)) && segment(i).id == i && segment(i).wrap == wrap
  }

  lemma {:induction false} NumberedCalls(segment: nat -> Call, wrap: seq<byte>, n: nat)
    requires Numbers(segment, wrap) && n < TWO64
    ensures GoodCalls(Numbered(segment, n)) && |Numbered(segment, n)| == n
    ensures forall i :: 0 <= i < n ==> Numbered(segment, n)[i].wrap == wrap && Numbered(segment, n)[i].copy.Some?
  {
    hide GoodCall;
    if n > 0 {
      NumberedCalls(segment, wrap, n - 1);
      assert GoodCall(segment(n));
    }
  }

  lemma {:induction false} NumberedIds(segment: nat -> Call, wrap: seq<byte>, n: nat)
    requires Numbers(segment, wrap) && n < TWO64
    ensures |Ids(Listed(Numbered(segment, n)))| == n
            && forall x :: x in Ids(Listed(Numbered(segment, n))) <==> 1 <= x <= n
  {
    hide Numbers, EntryOf, GoodCall, Ids, Lists, Listed;
    if n == 0 {
      NoCalls(x => 0, 0);
      NoIds();
    } else {
      var c, before := segment(n), Numbered(segment, n - 1);
      NumberedIds(segment, wrap, n - 1);
      NumberAt(segment, wrap, n);
      ListedSnoc(before, c);
      IdsSnoc(Listed(before), EntryOf(c));
    }
  }

  lemma NumberAt(segment: nat -> Call, wrap: seq<byte>, n: nat)
    requires Numbers(segment, wrap) && 1 <= n < TWO64
    ensures Lists(segment(n)) && EntryOf(segment(n)).id == n
  {
    ListsCopy(segment(n));
  }

  lemma ListedSnoc(calls: seq<Call>, c: Call)
    requires Lists(c)
    ensures Listed(calls + [c]) == Listed(calls) + [EntryOf(c)]
  {
    hide EntryOf;
    assert (calls + [c])[..|calls|] == calls;
  }

  /** One archiver and 65,536 segments, whatever they hold: the index it wrote cannot be read, and nothing is restored;
      one segment fewer and everything is. */
  lemma FullIndex(crc: seq<byte> -> nat, segment: nat -> Call, wrap: seq<byte>, until: nat)
    requires Numbers(segment, wrap)
    ensures AppliedFrom(crc, Run(crc, Numbered(segment, TWO16)), until) == None
    ensures var calls := Numbered(segment, TWO16 - 1);
            AppliedFrom(crc, Run(crc, calls), until) == Some(Applied(IndexOf(Listed(calls)), until))
  {
    hide AppliedFrom, Run, IndexOf, Listed, Ids, GoodCalls, Applied, KeyOf, FirstWrap, Numbered, Numbers;
    NumberedCalls(segment, wrap, TWO16);
    NumberedIds(segment, wrap, TWO16);
    IndexKeeps(Listed(Numbered(segment, TWO16)));
    RestoreRun(crc, Numbered(segment, TWO16), until);
    NumberedCalls(segment, wrap, TWO16 - 1);
    NumberedIds(segment, wrap, TWO16 - 1);
    OneArchiver(crc, Numbered(segment, TWO16 - 1), until, wrap);
  }
}
