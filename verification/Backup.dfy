/** Sealed backup members: chunked sealing of a live file, the generations it spends, and opening. */
module Backup {
  import opened Bytes

  const CHUNK := 1_048_576
  const TWO32 := 0x1_0000_0000
  const HEADER := 26

  /** AES-256-GCM under one data key: the nonce of a generation, sealing and opening. */
  datatype Aead = Aead(
    nonce: nat -> seq<byte>,
    seal: (nat, seq<byte>, seq<byte>) -> seq<byte>,
    open: (seq<byte>, seq<byte>, seq<byte>) -> Option<seq<byte>>)

  // ---- binding ----

  function AAD(name: seq<byte>, chunk: nat): seq<byte> { U16(|name|) + name + U32(chunk) }

  /** The name and the chunk index can be read off the additional data, whatever the name. */
  lemma AADInjective(n1: seq<byte>, c1: nat, n2: seq<byte>, c2: nat)
    requires c1 < TWO32 && c2 < TWO32 && AAD(n1, c1) == AAD(n2, c2)
    ensures n1 == n2 && c1 == c2
  {
    hide PutLE, GetLE;
    var x, y := AAD(n1, c1), AAD(n2, c2);
    assert |x| == |n1| + 6 && |y| == |n2| + 6;
    assert n1 == x[2..2 + |n1|] && n2 == y[2..2 + |n2|];
    assert U32(c1) == x[2 + |n1|..] && U32(c2) == y[2 + |n2|..];
    Pow256Values();
    GetPut(c1, 4);
    GetPut(c2, 4);
  }

  // ---- the sealed form ----

  function Pieces(s: seq<byte>): (ps: seq<seq<byte>>)
    ensures Flatten(ps) == s && forall i :: 0 <= i < |ps| ==> 1 <= |ps[i]| <= CHUNK
    decreases |s|
  {
    if s == [] then []
    else
      var n := if |s| < CHUNK then |s| else CHUNK;
      var ps := [s[..n]] + Pieces(s[n..]);
      assert ps[1..] == Pieces(s[n..]);
      ps
  }

  datatype Entry = Entry(gen: nat, aad: seq<byte>, plain: seq<byte>)

  /** What sealing these pieces asks of the data key. The chunk index has 32 bits, the generation 64. */
  function Entries(name: seq<byte>, ps: seq<seq<byte>>, base: nat): (es: seq<Entry>)
    ensures |es| == |ps|
    ensures forall i :: 0 <= i < |ps| ==> es[i] == Entry((base + i) % TWO64, AAD(name, i % TWO32), ps[i])
  {
    seq(|ps|, i requires 0 <= i < |ps| => Entry((base + i) % TWO64, AAD(name, i % TWO32), ps[i]))
  }

  function Record(a: Aead, e: Entry): seq<byte>
  {
    var ct := a.seal(e.gen, e.aad, e.plain);
    U32(|ct|) + a.nonce(e.gen) + ct
  }

  function Records(a: Aead, es: seq<Entry>): seq<byte>
  {
    if es == [] then [] else Records(a, es[..|es| - 1]) + Record(a, es[|es| - 1])
  }

  /** Opening undoes this seal. */
  ghost predicate Opens(a: Aead, e: Entry)
  {
    && |a.nonce(e.gen)| == 12 && |a.seal(e.gen, e.aad, e.plain)| == |e.plain| + 16
    && a.open(a.nonce(e.gen), e.aad, a.seal(e.gen, e.aad, e.plain)) == Some(e.plain)
  }

  ghost predicate AllOpen(a: Aead, es: seq<Entry>) { forall i :: 0 <= i < |es| ==> Opens(a, es[i]) }

  /** Magic, version, plain size, chunk size, first generation. */
  function Header(size: nat, base: nat): (h: seq<byte>)
    ensures |h| == HEADER
  {
    U32(0x4D42534E) + U16(1) + U64(size) + U32(CHUNK) + U64(base)
  }

  function SealedMember(a: Aead, name: seq<byte>, ps: seq<seq<byte>>, size: nat, base: nat): seq<byte>
  {
    Header(size, base) + Records(a, Entries(name, ps, base))
  }

  /** Every generation asked for is nonzero; generations wrap at 64 bits. */
  predicate GensOk(base: nat, n: nat) { n == 0 || (0 < base && base + n <= TWO64) }

  // ---- reading a live file ----

  /** What a read of up to one chunk at `off` returns from a file limited to `size` bytes. */
  function ReadAt(file: seq<byte>, off: nat, size: nat): (p: seq<byte>)
    ensures |p| <= CHUNK && (off <= size ==> off + |p| <= size)
  {
    var end := if |file| < size then |file| else size;
    var stop := if end < off + CHUNK then end else off + CHUNK;
    if off >= stop then [] else file[off..stop]
  }

  /** The pieces copied when the k-th read sees the file as files(k); None when they do not add up to `size`. */
  function Copy(files: nat -> seq<byte>, k: nat, off: nat, size: nat): Option<seq<seq<byte>>>
    requires off <= size
    decreases size - off
  {
    var p := ReadAt(files(k), off, size);
    if |p| < CHUNK then
      if off + |p| == size then Some(if p == [] then [] else [p]) else None
    else
      match Copy(files, k + 1, off + CHUNK, size)
      case None => None
      case Some(ps) => Some([p] + ps)
  }

  /** The file kept its first bytes: it only grew. */
  ghost predicate OnlyGrew(files: nat -> seq<byte>, start: seq<byte>) { forall k :: start <= files(k) }

  /** A file that only grows is copied as it was when it was opened. */
  lemma {:induction false} GrowingCopy(files: nat -> seq<byte>, start: seq<byte>, k: nat, off: nat)
    requires OnlyGrew(files, start) && off <= |start|
    ensures Copy(files, k, off, |start|) == Some(Pieces(start[off..]))
    decreases |start| - off
  {
    hide Flatten;
    var f := files(k);
    assert start <= f;
    var p := ReadAt(f, off, |start|);
    var rest := start[off..];
    if |p| < CHUNK {
      assert p == rest && off + |p| == |start|;
      assert Copy(files, k, off, |start|) == Some(if p == [] then [] else [p]);
      if rest == [] {
        assert Pieces(rest) == [];
      } else {
        assert rest[..|rest|] == rest && rest[|rest|..] == [];
        assert Pieces(rest) == [rest[..|rest|]] + Pieces(rest[|rest|..]);
        assert Pieces(rest[|rest|..]) == [] && [rest] + [] == [rest];
        assert Pieces(rest) == [rest];
      }
    } else {
      GrowingCopy(files, start, k + 1, off + CHUNK);
      assert p == rest[..CHUNK] && rest[CHUNK..] == start[off + CHUNK..];
    }
  }

  /** Whatever happened to the file, an accepted copy has the size recorded in the header. */
  lemma {:induction false} CopySize(files: nat -> seq<byte>, k: nat, off: nat, size: nat)
    requires off <= size && Copy(files, k, off, size).Some?
    ensures off + |Flatten(Copy(files, k, off, size).value)| == size
    decreases size - off
  {
    var p := ReadAt(files(k), off, size);
    if |p| >= CHUNK {
      CopySize(files, k + 1, off + CHUNK, size);
      var ps := Copy(files, k, off, size).value;
      assert ps[1..] == Copy(files, k + 1, off + CHUNK, size).value;
    } else if p != [] {
      assert Flatten([p]) == p + Flatten([p][1..]);
    }
  }

  // ---- sealing ----

  /** A data key and everything it was asked to seal. */
  class Dek {
    const a: Aead
    ghost var log: seq<Entry>

    constructor (a: Aead)
      ensures this.a == a && log == []
    {
      this.a, log := a, [];
    }

    method SealBytes(gen: nat, aad: seq<byte>, plain: seq<byte>) returns (nonce: seq<byte>, ct: seq<byte>)
      requires gen != 0
      modifies this
      ensures nonce == a.nonce(gen) && ct == a.seal(gen, aad, plain) && log == old(log) + [Entry(gen, aad, plain)]
    {
      log := log + [Entry(gen, aad, plain)];
      return a.nonce(gen), a.seal(gen, aad, plain);
    }
  }

  ghost function Prepended(done: seq<seq<byte>>, o: Option<seq<seq<byte>>>): Option<seq<seq<byte>>>
  {
    if o.None? then None else Some(done + o.value)
  }

  lemma PrependedStep(done: seq<seq<byte>>, p: seq<byte>, o: Option<seq<seq<byte>>>)
    ensures Prepended(done, if o.None? then None else Some([p] + o.value)) == Prepended(done + [p], o)
  {
    if o.Some? { assert done + ([p] + o.value) == (done + [p]) + o.value; }
  }

  lemma EntriesSnoc(name: seq<byte>, ps: seq<seq<byte>>, p: seq<byte>, base: nat)
    ensures Entries(name, ps + [p], base)
            == Entries(name, ps, base) + [Entry((base + |ps|) % TWO64, AAD(name, |ps| % TWO32), p)]
  {
  }

  lemma RecordsSnoc(a: Aead, es: seq<Entry>, e: Entry)
    ensures Records(a, es + [e]) == Records(a, es) + Record(a, e)
  {
    assert (es + [e])[..|es|] == es;
  }

  datatype Sealed = Sealed(bytes: seq<byte>, next: nat)

  /** sealFile: the loop over reads of a file that changes underneath. `files(k)` is the file at the k-th read
      and `size` its length when it was opened. */
  method SealFile(dek: Dek, name: seq<byte>, files: nat -> seq<byte>, size: nat, base: nat)
      returns (r: Option<Sealed>, ghost done: seq<seq<byte>>)
    requires base < TWO64
    modifies dek
    ensures dek.log == old(dek.log) + Entries(name, done, base) && GensOk(base, |done|)
    ensures r.Some? <==> Copy(files, 0, 0, size).Some? && GensOk(base, |Copy(files, 0, 0, size).value|)
    ensures r.Some? ==> Copy(files, 0, 0, size) == Some(done)
    ensures r.None? ==> Copy(files, 0, 0, size).None? || (base + |done|) % TWO64 == 0
    ensures r.Some? ==> r.value == Sealed(SealedMember(dek.a, name, done, size, base), (base + |done|) % TWO64)
  {
    hide AAD, Records, Record, ReadAt, Header, Entries, GensOk, Copy, Prepended;
    var out: seq<byte> := [];
    var hdr := Header(size, base);
    var chunk: nat, wrote: nat, gen: nat, k: nat := 0, 0, base, 0;
    done := [];
    NothingSealed(dek.a, name, base);
    assert old(dek.log) + [] == dek.log;
    var more := true;
    PrependedNone(Copy(files, 0, 0, size));
    while more
      invariant wrote <= size && k == |done| && chunk == k % TWO32 && gen == (base + k) % TWO64 && GensOk(base, k)
      invariant dek.log == old(dek.log) + Entries(name, done, base) && out == Records(dek.a, Entries(name, done, base))
      invariant more ==> Copy(files, 0, 0, size) == Prepended(done, Copy(files, k, wrote, size))
      invariant !more ==> Copy(files, 0, 0, size) == if wrote == size then Some(done) else None
      decreases if more then 1 + size - wrote else 0
    {
      var p := ReadAt(files(k), wrote, size);
      if |p| > 0 {
        GensStep(base, k);
        CopyNext(files, done, k, wrote, size);
        if gen == 0 {
          TooMany(base, k, Copy(files, 0, 0, size));
          return None, done;
        }
        var rec := SealPiece(dek, name, p, gen, chunk, done, base);
        assert old(dek.log) + (Entries(name, done, base) + [Entry(gen, AAD(name, chunk), p)]) == dek.log;
        out := out + rec;
        done := done + [p];
        wrote := wrote + |p|;
        NextCounters(base, k);
        chunk, gen, k := (chunk + 1) % TWO32, (gen + 1) % TWO64, k + 1;
      } else {
        CopyEnds(files, done, k, wrote, size);
      }
      if |p| < CHUNK { more := false; }
    }
    if wrote != size { return None, done; }
    return Some(Sealed(hdr + out, gen)), done;
  }

  /** Seals one piece and returns its record. */
  method SealPiece(dek: Dek, name: seq<byte>, p: seq<byte>, gen: nat, chunk: nat,
                   ghost done: seq<seq<byte>>, ghost base: nat)
    returns (rec: seq<byte>)
    requires gen != 0 && gen == (base + |done|) % TWO64 && chunk == |done| % TWO32
    modifies dek
    ensures dek.log == old(dek.log) + [Entry(gen, AAD(name, chunk), p)]
    ensures Entries(name, done + [p], base) == Entries(name, done, base) + [Entry(gen, AAD(name, chunk), p)]
    ensures Records(dek.a, Entries(name, done + [p], base)) == Records(dek.a, Entries(name, done, base)) + rec
  {
    hide AAD, Records, Entries;
    EntriesSnoc(name, done, p, base);
    RecordsSnoc(dek.a, Entries(name, done, base), Entry(gen, AAD(name, chunk), p));
    var nonce, ct := dek.SealBytes(gen, AAD(name, chunk), p);
    return U32(|ct|) + nonce + ct;
  }

  lemma NextCounters(base: nat, k: nat)
    ensures ((base + k) % TWO64 + 1) % TWO64 == (base + k + 1) % TWO64 && (k % TWO32 + 1) % TWO32 == (k + 1) % TWO32
  {
  }

  lemma TooMany(base: nat, k: nat, copy: Option<seq<seq<byte>>>)
    requires !GensOk(base, k + 1)
    ensures copy.Some? && |copy.value| > k ==> !GensOk(base, |copy.value|)
  {
  }

  /** An empty read ends the copy. */
  lemma CopyEnds(files: nat -> seq<byte>, done: seq<seq<byte>>, k: nat, off: nat, size: nat)
    requires off <= size && ReadAt(files(k), off, size) == []
    ensures Prepended(done, Copy(files, k, off, size)) == if off == size then Some(done) else None
  {
    assert done + [] == done;
  }

  lemma NothingSealed(a: Aead, name: seq<byte>, base: nat)
    ensures Entries(name, [], base) == [] && Records(a, []) == [] && GensOk(base, 0)
  {
  }

  lemma PrependedNone(o: Option<seq<seq<byte>>>)
    ensures Prepended([], o) == o
  {
    if o.Some? { assert [] + o.value == o.value; }
  }

  /** The check against generation zero stops exactly the chunk that would reuse one. */
  lemma GensStep(base: nat, k: nat)
    requires base < TWO64 && GensOk(base, k)
    ensures (base + k) % TWO64 != 0 <==> GensOk(base, k + 1)
  {
  }

  /** What one non-empty read settles about the whole copy. */
  lemma CopyNext(files: nat -> seq<byte>, done: seq<seq<byte>>, k: nat, off: nat, size: nat)
    requires off <= size && ReadAt(files(k), off, size) != []
    ensures var p := ReadAt(files(k), off, size);
            var whole := Prepended(done, Copy(files, k, off, size));
            && (|p| >= CHUNK
               ==> off + CHUNK <= size && whole == Prepended(done + [p], Copy(files, k + 1, off + CHUNK, size)))
            && (|p| < CHUNK ==> whole == if off + |p| == size then Some(done + [p]) else None)
            && (whole.Some? ==> |whole.value| > |done|)
  {
    hide ReadAt;
    var p := ReadAt(files(k), off, size);
    if |p| >= CHUNK { PrependedStep(done, p, Copy(files, k + 1, off + CHUNK, size)); }
  }

  // ---- opening ----

  function Prefixed(p: seq<byte>, o: Option<seq<byte>>): Option<seq<byte>>
  {
    if o.None? then None else Some(p + o.value)
  }

  /** The chunks from here on, `want` bytes of them. */
  function OpenFrom(a: Aead, name: seq<byte>, rest: seq<byte>, chunk: nat, want: int): Option<seq<byte>>
    decreases |rest|
  {
    if want <= 0 then (if want == 0 then Some([]) else None)
    else if |rest| < 4 then None
    else
      var n := GetLE(rest[..4]);
      if n == 0 || n > CHUNK + 32 || |rest| < 16 + n then None
      else
        match a.open(rest[4..16], AAD(name, chunk), rest[16..16 + n])
        case None => None
        case Some(plain) => Prefixed(plain, OpenFrom(a, name, rest[16 + n..], (chunk + 1) % TWO32, want - |plain|))
  }

  function OpenSealed(a: Aead, name: seq<byte>, raw: seq<byte>): Option<seq<byte>>
  {
    if |raw| < HEADER then None
    else if GetLE(raw[..4]) != 0x4D42534E || GetLE(raw[4..6]) != 1 then None
    else if GetLE(raw[14..18]) == 0 || GetLE(raw[14..18]) > CHUNK || GetLE(raw[18..26]) == 0 then None
    else OpenFrom(a, name, raw[HEADER..], 0, GetLE(raw[6..14]))
  }

  lemma PrefixedStep(out: seq<byte>, p: seq<byte>, o: Option<seq<byte>>)
    ensures Prefixed(out, Prefixed(p, o)) == Prefixed(out + p, o)
  {
    if o.Some? { assert out + (p + o.value) == (out + p) + o.value; }
  }

  lemma PrefixedEnds(out: seq<byte>, o: Option<seq<byte>>)
    ensures Prefixed([], o) == o && Prefixed(out, Some([])) == Some(out) && Prefixed(out, None) == None
  {
    assert out + [] == out;
    if o.Some? { assert [] + o.value == o.value; }
  }

  /** openMember: the loop that reads a length, a nonce and a ciphertext at a time. */
  method OpenMember(a: Aead, name: seq<byte>, raw: seq<byte>) returns (r: Option<seq<byte>>)
    ensures r == OpenSealed(a, name, raw)
  {
    hide AAD, GetLE, Prefixed;
    if |raw| < HEADER { return None; }
    if GetLE(raw[..4]) != 0x4D42534E || GetLE(raw[4..6]) != 1 { return None; }
    var want, chunkSize := GetLE(raw[6..14]), GetLE(raw[14..18]);
    if chunkSize == 0 || chunkSize > CHUNK || GetLE(raw[18..26]) == 0 { return None; }
    var out: seq<byte>, off: nat, got: nat, chunk: nat := [], HEADER, 0, 0;
    PrefixedEnds([], OpenFrom(a, name, raw[HEADER..], 0, want));
    while got < want
      invariant HEADER <= off <= |raw|
      invariant OpenFrom(a, name, raw[HEADER..], 0, want)
                == Prefixed(out, OpenFrom(a, name, raw[off..], chunk, want - got))
      decreases |raw| - off
    {
      PrefixedEnds(out, None);
      var rest := raw[off..];
      if |rest| < 4 { return None; }
      var n := GetLE(rest[..4]);
      if n == 0 || n > CHUNK + 32 { return None; }
      if |rest| < 16 { return None; }
      if |rest| < 16 + n { return None; }
      var plain := a.open(rest[4..16], AAD(name, chunk), rest[16..16 + n]);
      if plain.None? { return None; }
      assert rest[16 + n..] == raw[off + 16 + n..];
      PrefixedStep(out, plain.value,
          OpenFrom(a, name, rest[16 + n..], (chunk + 1) % TWO32, want - got - |plain.value|));
      out, got := out + plain.value, got + |plain.value|;
      chunk, off := (chunk + 1) % TWO32, off + 16 + n;
    }
    PrefixedEnds(out, None);
    if got != want { return None; }
    return Some(out);
  }

  lemma {:induction false} RecordsCons(a: Aead, es: seq<Entry>)
    requires es != []
    ensures Records(a, es) == Record(a, es[0]) + Records(a, es[1..])
  {
    hide Record;
    var init, last := es[..|es| - 1], es[|es| - 1];
    if init != [] {
      RecordsCons(a, init);
      assert init[1..] == es[1..][..|es| - 2];
      assert Record(a, es[0]) + (Records(a, init[1..]) + Record(a, last))
        == Record(a, es[0]) + Records(a, init[1..]) + Record(a, last);
    } else {
      assert Records(a, []) == [] && es[1..] == [];
      assert Record(a, last) + [] == [] + Record(a, last);
    }
  }

  lemma RecordOpens(a: Aead, name: seq<byte>, e: Entry, chunk: nat, rest: seq<byte>, want: int)
    requires Opens(a, e) && e.aad == AAD(name, chunk) && 1 <= |e.plain| <= CHUNK && want > 0
    ensures OpenFrom(a, name, Record(a, e) + rest, chunk, want)
              == Prefixed(e.plain, OpenFrom(a, name, rest, (chunk + 1) % TWO32, want - |e.plain|))
  {
    hide AAD, GetLE, PutLE;
    var ct := a.seal(e.gen, e.aad, e.plain);
    assert |ct| == |e.plain| + 16;
    assert |a.nonce(e.gen)| == 12;
    Pow256Values();
    GetPut(|ct|, 4);
    var all := Record(a, e) + rest;
    assert all[..4] == U32(|ct|) && all[4..16] == a.nonce(e.gen) && all[16..16 + |ct|] == ct
      && all[16 + |ct|..] == rest;
    assert a.open(a.nonce(e.gen), e.aad, ct) == Some(e.plain);
  }

  /** Seals of these pieces under consecutive chunk indices, at whatever generations. */
  ghost predicate SealsOf(name: seq<byte>, ps: seq<seq<byte>>, es: seq<Entry>)
  {
    && |es| == |ps|
    && forall k :: 0 <= k < |ps| ==> es[k].aad == AAD(name, k % TWO32) && es[k].plain == ps[k] && 1 <= |ps[k]| <= CHUNK
  }

  lemma {:induction false} OpensFrom(a: Aead, name: seq<byte>, ps: seq<seq<byte>>, es: seq<Entry>, i: nat)
    requires AllOpen(a, es) && SealsOf(name, ps, es) && i <= |ps|
    ensures OpenFrom(a, name, Records(a, es[i..]), i % TWO32, |Flatten(ps[i..])|) == Some(Flatten(ps[i..]))
    decreases |ps| - i
  {
    hide Record, Records, AAD, Opens, GetLE, OpenFrom, Flatten;
    if i == |ps| {
      assert es[i..] == [] && ps[i..] == [];
      NothingLeft(a, name, i % TWO32);
    } else {
      OpensFrom(a, name, ps, es, i + 1);
      RecordsCons(a, es[i..]);
      assert es[i..][1..] == es[i + 1..] && ps[i..][1..] == ps[i + 1..];
      FlattenCons(ps[i..]);
      RecordOpens(a, name, es[i], i % TWO32, Records(a, es[i + 1..]), |Flatten(ps[i..])|);
      NextChunk(i);
    }
  }

  lemma NothingLeft(a: Aead, name: seq<byte>, chunk: nat)
    ensures Records(a, []) == [] && Flatten([]) == [] && OpenFrom(a, name, [], chunk, 0) == Some([])
  {
  }

  lemma FlattenCons(ps: seq<seq<byte>>)
    requires ps != []
    ensures Flatten(ps) == ps[0] + Flatten(ps[1..])
  {
  }

  lemma NextChunk(i: nat)
    ensures (i % TWO32 + 1) % TWO32 == (i + 1) % TWO32
  {
  }

  /** A header and records of seals under consecutive chunk indices open to their pieces. */
  lemma OpensRecords(a: Aead, name: seq<byte>, ps: seq<seq<byte>>, es: seq<Entry>, base: nat)
    requires AllOpen(a, es) && SealsOf(name, ps, es) && 0 < base < TWO64 && |Flatten(ps)| < TWO64
    ensures OpenSealed(a, name, Header(|Flatten(ps)|, base) + Records(a, es)) == Some(Flatten(ps))
  {
    hide GetLE, PutLE, Records, Flatten, AllOpen, SealsOf;
    var size := |Flatten(ps)|;
    var raw := Header(size, base) + Records(a, es);
    Pow256Values();
    GetPut(0x4D42534E, 4);
    GetPut(1, 2);
    GetPut(size, 8);
    GetPut(CHUNK, 4);
    GetPut(base, 8);
    assert raw[..4] == U32(0x4D42534E) && raw[4..6] == U16(1) && raw[6..14] == U64(size) && raw[14..18] == U32(CHUNK)
      && raw[18..26] == U64(base) && raw[HEADER..] == Records(a, es);
    OpensFrom(a, name, ps, es, 0);
    assert es[0..] == es && ps[0..] == ps;
  }

  /** Opening a sealed member returns the bytes sealed into it. */
  lemma OpenUndoesSeal(a: Aead, name: seq<byte>, ps: seq<seq<byte>>, base: nat)
    requires AllOpen(a, Entries(name, ps, base)) && 0 < base < TWO64 && |Flatten(ps)| < TWO64
    requires forall k :: 0 <= k < |ps| ==> 1 <= |ps[k]| <= CHUNK
    ensures OpenSealed(a, name, SealedMember(a, name, ps, |Flatten(ps)|, base)) == Some(Flatten(ps))
  {
    hide OpenSealed, Records, Flatten, AllOpen, Header, AAD;
    OpensRecords(a, name, ps, Entries(name, ps, base), base);
  }

  /** A hot backup of a file that only grew opens to the file as it was when the copy began. */
  lemma HotBackup(a: Aead, name: seq<byte>, files: nat -> seq<byte>, start: seq<byte>, ps: seq<seq<byte>>, base: nat)
    requires Copy(files, 0, 0, |start|) == Some(ps) && AllOpen(a, Entries(name, ps, base))
    requires 0 < base < TWO64 && |start| < TWO64 && OnlyGrew(files, start)
    ensures OpenSealed(a, name, SealedMember(a, name, ps, |start|, base)) == Some(start)
  {
    hide *;
    GrowingCopy(files, start, 0, 0);
    assert start[0..] == start;
    assert ps == Pieces(start);
    assert Flatten(ps) == start;
    OpenUndoesSeal(a, name, ps, base);
  }

  // ---- a whole backup ----

  datatype Source = Source(name: seq<byte>, files: nat -> seq<byte>, size: nat)

  /** A member as it was copied. */
  datatype Member = Member(name: seq<byte>, pieces: seq<seq<byte>>)

  datatype Backup = Backup(members: seq<seq<byte>>, manifest: seq<byte>, nonceHigh: nat)

  /** Everything the data key seals for these members, generations counting up from one. */
  ghost function LogOf(ms: seq<Member>): seq<Entry>
  {
    if ms == [] then []
    else LogOf(ms[..|ms| - 1]) + Entries(ms[|ms| - 1].name, ms[|ms| - 1].pieces, BaseOf(LogOf(ms[..|ms| - 1])))
  }

  ghost function BaseOf(log: seq<Entry>): nat { (|log| + 1) % TWO64 }

  /** Generations one, two, three, ... : distinct, none of them zero. */
  ghost predicate CountsUp(log: seq<Entry>) { |log| < TWO64 && forall i :: 0 <= i < |log| ==> log[i].gen == i + 1 }

  lemma CountsOn(log: seq<Entry>, name: seq<byte>, ps: seq<seq<byte>>)
    requires CountsUp(log) && GensOk(BaseOf(log), |ps|)
    ensures CountsUp(log + Entries(name, ps, BaseOf(log)))
    ensures BaseOf(log + Entries(name, ps, BaseOf(log))) == (BaseOf(log) + |ps|) % TWO64
    ensures (BaseOf(log) + |ps|) % TWO64 == 0 ==> |log + Entries(name, ps, BaseOf(log))| == TWO64 - 1
  {
    hide AAD;
  }

  /** Create: seals every member, then the manifest, with one generation counter. `manifestOf` encodes the manifest
      of the sealed members. It fails only on a source that shrank or when all 2^64 - 1 generations are spent. */
  method Create(a: Aead, sources: seq<Source>, manifestName: seq<byte>, manifestOf: seq<seq<byte>> -> seq<byte>)
    returns (r: Option<Backup>, ghost log: seq<Entry>, ghost ms: seq<Member>)
    ensures CountsUp(log)
    ensures r.None? ==> (exists j :: 0 <= j < |sources| && Shrank(sources[j])) || |log| == TWO64 - 1
    ensures r.Some? ==>
              |ms| == |sources| + 1 && |r.value.members| == |sources|
              && log == LogOf(ms) && r.value.nonceHigh == |log|
    ensures r.Some? ==> forall j :: 0 <= j < |sources| ==> CopiedAs(a, sources[j], ms, j, r.value.members[j])
    ensures r.Some? ==> var raw := manifestOf(r.value.members);
                        CopiedAs(a, Source(manifestName, k => raw, |raw|), ms, |sources|, r.value.manifest)
  {
    hide SealedMember, Entries, Copy, AAD, CopiedAs, GensOk, CountsUp, LogOf, BaseOf, Pieces;
    var dek := new Dek(a);
    var gen: nat := 1;
    NoneSealed();
    var sealed: seq<seq<byte>> := [];
    ms := [];
    for j := 0 to |sources|
      invariant gen == BaseOf(dek.log) && CountsUp(dek.log) && dek.log == LogOf(ms) && dek.a == a
      invariant |ms| == |sealed| == j
      invariant forall k :: 0 <= k < j ==> CopiedAs(a, sources[k], ms, k, sealed[k])
    {
      ghost var before := dek.log;
      BaseFits(before);
      var s, done := SealFile(dek, sources[j].name, sources[j].files, sources[j].size, gen);
      CountsOn(before, sources[j].name, done);
      if s.None? {
        assert Shrank(sources[j]) || |dek.log| == TWO64 - 1;
        return None, dek.log, ms;
      }
      ghost var was := ms;
      ms := ms + [Member(sources[j].name, done)];
      LogSnoc(was, ms[j]);
      KeepCopies(a, sources, was, ms[j], sealed);
      CopiedLast(a, sources[j], was, done, s.value.bytes);
      sealed := sealed + [s.value.bytes];
      gen := s.value.next;
    }
    ghost var before, was := dek.log, ms;
    var raw := manifestOf(sealed);
    BaseFits(before);
    var s, done := SealFile(dek, manifestName, k => raw, |raw|, gen);
    CountsOn(before, manifestName, done);
    if s.None? {
      GrowingCopy(k => raw, raw, 0, 0);
      return None, dek.log, ms;
    }
    ms := ms + [Member(manifestName, done)];
    LogSnoc(was, ms[|sources|]);
    KeepCopies(a, sources, was, ms[|sources|], sealed);
    CopiedLast(a, Source(manifestName, k => raw, |raw|), was, done, s.value.bytes);
    NonceHigh(dek.log);
    gen := s.value.next;
    return Some(Backup(sealed, s.value.bytes, (gen + TWO64 - 1) % TWO64)), dek.log, ms;
  }

  lemma NoneSealed()
    ensures LogOf([]) == [] && CountsUp([]) && BaseOf([]) == 1
  {
  }

  lemma BaseFits(log: seq<Entry>)
    ensures BaseOf(log) < TWO64
  {
  }

  /** The copy found fewer bytes than the file had when it was opened. */
  ghost predicate Shrank(s: Source) { Copy(s.files, 0, 0, s.size).None? }

  lemma NonceHigh(log: seq<Entry>)
    requires CountsUp(log)
    ensures (BaseOf(log) + TWO64 - 1) % TWO64 == |log|
  {
  }

  /** The j-th member holds a complete copy of its source, sealed at its place in the count. */
  ghost predicate CopiedAs(a: Aead, s: Source, ms: seq<Member>, j: nat, bytes: seq<byte>)
  {
    && j < |ms| && ms[j].name == s.name && Copy(s.files, 0, 0, s.size) == Some(ms[j].pieces)
    && bytes == SealedMember(a, s.name, ms[j].pieces, s.size, BaseOf(LogOf(ms[..j])))
  }

  lemma LogSnoc(ms: seq<Member>, m: Member)
    ensures LogOf(ms + [m]) == LogOf(ms) + Entries(m.name, m.pieces, BaseOf(LogOf(ms)))
  {
    assert (ms + [m])[..|ms|] == ms;
  }

  lemma CopiedLast(a: Aead, s: Source, ms: seq<Member>, pieces: seq<seq<byte>>, bytes: seq<byte>)
    requires Copy(s.files, 0, 0, s.size) == Some(pieces)
             && bytes == SealedMember(a, s.name, pieces, s.size, BaseOf(LogOf(ms)))
    ensures CopiedAs(a, s, ms + [Member(s.name, pieces)], |ms|, bytes)
  {
    hide LogOf, SealedMember, Copy;
    assert (ms + [Member(s.name, pieces)])[..|ms|] == ms;
  }

  lemma KeepCopies(a: Aead, sources: seq<Source>, ms: seq<Member>, m: Member, sealed: seq<seq<byte>>)
    requires |ms| == |sealed| <= |sources| && forall k :: 0 <= k < |ms| ==> CopiedAs(a, sources[k], ms, k, sealed[k])
    ensures forall k :: 0 <= k < |ms| ==> CopiedAs(a, sources[k], ms + [m], k, sealed[k])
  {
    hide LogOf, SealedMember, Copy;
    forall k | 0 <= k < |ms| ensures CopiedAs(a, sources[k], ms + [m], k, sealed[k]) {
      assert (ms + [m])[..k] == ms[..k];
    }
  }

  // ---- swapped pieces ----

  /** The key only opens what it sealed. */
  ghost predicate Ideal(a: Aead, log: seq<Entry>)
  {
    forall nonce, aad, ct :: a.open(nonce, aad, ct).Some? ==> Logged(log, aad, a.open(nonce, aad, ct).value)
  }

  ghost predicate Logged(log: seq<Entry>, aad: seq<byte>, plain: seq<byte>)
  {
    exists i :: 0 <= i < |log| && log[i].aad == aad && log[i].plain == plain
  }

  /** Both demands on the cipher can be met at once, whatever was sealed. */
  lemma IdealExists(log: seq<Entry>) returns (a: Aead)
    ensures AllOpen(a, log) && Ideal(a, log)
  {
    var tag: seq<byte> := [0, 0, 0, 0, 0, 0, 0, 0, 0, 0, 0, 0, 0, 0, 0, 0];
    a := Aead(gen => tag[..12], (gen, aad, plain) => plain + tag,
      (nonce, aad, ct) => if |ct| >= 16 && Logged(log, aad, ct[..|ct| - 16]) then Some(ct[..|ct| - 16]) else None);
    forall i | 0 <= i < |log| ensures Opens(a, log[i]) {
      var e := log[i];
      assert (e.plain + tag)[..|e.plain|] == e.plain;
      assert Logged(log, e.aad, e.plain);
    }
  }

  ghost predicate DistinctNames(ms: seq<Member>) { forall i, j :: 0 <= i < j < |ms| ==> ms[i].name != ms[j].name }

  lemma {:induction false} EntryOf(ms: seq<Member>, i: nat) returns (m: nat, k: nat)
    requires i < |LogOf(ms)|
    ensures m < |ms| && k < |ms[m].pieces| && LogOf(ms)[i].aad == AAD(ms[m].name, k % TWO32)
            && LogOf(ms)[i].plain == ms[m].pieces[k]
  {
    hide AAD;
    var init, last := ms[..|ms| - 1], ms[|ms| - 1];
    if i < |LogOf(init)| {
      m, k := EntryOf(init, i);
    } else {
      m, k := |ms| - 1, i - |LogOf(init)|;
    }
  }

  lemma OwnPiece(a: Aead, ms: seq<Member>, j: nat, chunk: nat, nonce: seq<byte>, ct: seq<byte>)
    requires Ideal(a, LogOf(ms)) && DistinctNames(ms) && j < |ms| && |ms[j].pieces| < TWO32 && chunk < TWO32
    requires a.open(nonce, AAD(ms[j].name, chunk), ct).Some?
    ensures chunk < |ms[j].pieces| && a.open(nonce, AAD(ms[j].name, chunk), ct).value == ms[j].pieces[chunk]
  {
    hide AAD, LogOf, Ideal;
    var aad := AAD(ms[j].name, chunk);
    var i := IdealEntry(a, LogOf(ms), nonce, aad, ct);
    var m, k := EntryOf(ms, i);
    AADInjective(ms[m].name, k % TWO32, ms[j].name, chunk);
    assert m == j;
  }

  lemma IdealEntry(a: Aead, log: seq<Entry>, nonce: seq<byte>, aad: seq<byte>, ct: seq<byte>) returns (i: nat)
    requires Ideal(a, log) && a.open(nonce, aad, ct).Some?
    ensures i < |log| && log[i].aad == aad && log[i].plain == a.open(nonce, aad, ct).value
  {
    assert Logged(log, aad, a.open(nonce, aad, ct).value);
    i :| 0 <= i < |log| && log[i].aad == aad && log[i].plain == a.open(nonce, aad, ct).value;
  }

  lemma {:induction false} OpensOwnFrom(a: Aead, ms: seq<Member>, j: nat, rest: seq<byte>, chunk: nat, want: int)
      returns (n: nat)
    requires Ideal(a, LogOf(ms)) && DistinctNames(ms) && j < |ms| && |ms[j].pieces| < TWO32 && chunk <= |ms[j].pieces|
    requires OpenFrom(a, ms[j].name, rest, chunk, want).Some?
    ensures chunk <= n <= |ms[j].pieces|
            && OpenFrom(a, ms[j].name, rest, chunk, want).value == Flatten(ms[j].pieces[chunk..n])
    decreases |rest|
  {
    hide AAD, Ideal, GetLE, LogOf, DistinctNames;
    var ps := ms[j].pieces;
    if want <= 0 {
      n := chunk;
      assert ps[chunk..chunk] == [];
    } else {
      var len := GetLE(rest[..4]);
      OwnPiece(a, ms, j, chunk, rest[4..16], rest[16..16 + len]);
      n := OpensOwnFrom(a, ms, j, rest[16 + len..], chunk + 1, want - |ps[chunk]|);
      assert ps[chunk..n][1..] == ps[chunk + 1..n];
    }
  }

  /** Sealed pieces cannot be swapped: whatever bytes are opened under a member's name, whole, reordered or taken
      from other members, they open to leading pieces of that member or not at all. */
  lemma OpensOnlyItsOwn(a: Aead, ms: seq<Member>, j: nat, raw: seq<byte>) returns (n: nat)
    requires Ideal(a, LogOf(ms)) && DistinctNames(ms) && j < |ms| && |ms[j].pieces| < TWO32
    requires OpenSealed(a, ms[j].name, raw).Some?
    ensures n <= |ms[j].pieces| && OpenSealed(a, ms[j].name, raw).value == Flatten(ms[j].pieces[..n])
  {
    hide Ideal, OpenFrom, GetLE;
    n := OpensOwnFrom(a, ms, j, raw[HEADER..], 0, GetLE(raw[6..14]));
    assert ms[j].pieces[0..n] == ms[j].pieces[..n];
  }

  // ---- a whole backup opens ----

  /** Where a member's seals stand in the log of the whole backup. */
  lemma {:induction false} LogHolds(ms: seq<Member>, j: nat)
    requires j < |ms|
    ensures LogOf(ms[..j]) + Entries(ms[j].name, ms[j].pieces, BaseOf(LogOf(ms[..j]))) <= LogOf(ms)
    decreases |ms|
  {
    hide Entries, BaseOf;
    if j < |ms| - 1 {
      var init := ms[..|ms| - 1];
      LogHolds(init, j);
      assert init[..j] == ms[..j];
    }
  }

  lemma {:induction false} CopyPieces(files: nat -> seq<byte>, k: nat, off: nat, size: nat, ps: seq<seq<byte>>)
    requires off <= size && Copy(files, k, off, size) == Some(ps)
    ensures forall i :: 0 <= i < |ps| ==> 1 <= |ps[i]| <= CHUNK
    decreases size - off
  {
    var p := ReadAt(files(k), off, size);
    if |p| >= CHUNK {
      CopyPieces(files, k + 1, off + CHUNK, size, ps[1..]);
      forall i | 0 <= i < |ps| ensures 1 <= |ps[i]| <= CHUNK {
        if i > 0 { assert ps[i] == ps[1..][i - 1]; }
      }
    }
  }

  lemma LogLength(ms: seq<Member>, j: nat)
    requires j < |ms|
    ensures |LogOf(ms[..j])| + |ms[j].pieces| <= |LogOf(ms)|
  {
    hide *;
    LogHolds(ms, j);
  }

  lemma Counted(log: seq<Entry>)
    requires CountsUp(log)
    ensures |log| < TWO64
  {
  }

  lemma BaseSmall(log: seq<Entry>)
    ensures |log| + 1 < TWO64 ==> BaseOf(log) == |log| + 1
  {
  }

  /** No member starts at generation zero, because the manifest behind it still needs one. */
  lemma BaseOfMember(ms: seq<Member>, j: nat)
    requires j < |ms| && CountsUp(LogOf(ms)) && ms[|ms| - 1].pieces != []
    ensures 0 < BaseOf(LogOf(ms[..j])) < TWO64
  {
    hide *;
    Counted(LogOf(ms));
    BaseSmall(LogOf(ms[..j]));
    var init := ms[..|ms| - 1];
    LogLength(ms, |ms| - 1);
    if j < |init| {
      LogLength(init, j);
      assert init[..j] == ms[..j];
    }
  }

  /** Every member of a finished backup, the manifest among them, opens to the copy it holds; if its file only grew
      this is the file as it was when it was opened. */
  lemma BackupOpens(a: Aead, s: Source, ms: seq<Member>, j: nat, bytes: seq<byte>)
    requires AllOpen(a, LogOf(ms)) && CountsUp(LogOf(ms)) && ms != [] && ms[|ms| - 1].pieces != []
    requires CopiedAs(a, s, ms, j, bytes) && s.size < TWO64
    ensures OpenSealed(a, s.name, bytes) == Some(Flatten(ms[j].pieces)) && |Flatten(ms[j].pieces)| == s.size
    ensures forall start ::
              OnlyGrew(s.files, start) && |start| == s.size ==> OpenSealed(a, s.name, bytes) == Some(start)
  {
    hide LogOf, Copy, OpenSealed, SealedMember, Opens, Flatten, CountsUp, BaseOf, Pieces, OnlyGrew;
    var ps, base := ms[j].pieces, BaseOf(LogOf(ms[..j]));
    CopySize(s.files, 0, 0, s.size);
    CopyPieces(s.files, 0, 0, s.size, ps);
    BaseOfMember(ms, j);
    LogHolds(ms, j);
    var before, es := LogOf(ms[..j]), Entries(s.name, ps, base);
    forall i | 0 <= i < |es| ensures Opens(a, es[i]) {
      assert LogOf(ms)[|before| + i] == (before + es)[|before| + i];
    }
    OpenUndoesSeal(a, s.name, ps, base);
    forall start | OnlyGrew(s.files, start) && |start| == s.size ensures OpenSealed(a, s.name, bytes) == Some(start) {
      GrowingCopy(s.files, start, 0, 0);
      assert start[0..] == start;
      assert Flatten(Pieces(start)) == start;
    }
  }

  /** And under the same key nothing else, whatever its origin, opens under a member's name, except leading pieces of
      the copy the member holds. */
  lemma BackupOpensOnly(a: Aead, s: Source, ms: seq<Member>, j: nat, bytes: seq<byte>, raw: seq<byte>) returns (n: nat)
    requires AllOpen(a, LogOf(ms)) && Ideal(a, LogOf(ms)) && CountsUp(LogOf(ms)) && ms != []
             && ms[|ms| - 1].pieces != []
    requires CopiedAs(a, s, ms, j, bytes) && s.size < TWO64 && DistinctNames(ms) && |ms[j].pieces| < TWO32
    requires OpenSealed(a, s.name, raw).Some?
    ensures OpenSealed(a, s.name, bytes) == Some(Flatten(ms[j].pieces))
    ensures n <= |ms[j].pieces| && OpenSealed(a, s.name, raw).value == Flatten(ms[j].pieces[..n])
  {
    hide LogOf, Copy, OpenSealed, SealedMember, AllOpen, Ideal, Flatten, CountsUp, BaseOf, DistinctNames;
    BackupOpens(a, s, ms, j, bytes);
    n := OpensOnlyItsOwn(a, ms, j, raw);
  }

  /** The chunk index has 32 bits, so the bound of 2^32 pieces is sharp: behind the first 2^32 pieces of a member its
      first piece opens once more, and a member of just that many pieces opens to more than it holds. */
  lemma IndexWraps(a: Aead, name: seq<byte>, ps: seq<seq<byte>>, base: nat) returns (raw: seq<byte>)
    requires AllOpen(a, Entries(name, ps, base)) && 0 < base < TWO64 && |ps| >= TWO32
    requires |Flatten(ps[..TWO32] + [ps[0]])| < TWO64 && forall k :: 0 <= k < |ps| ==> 1 <= |ps[k]| <= CHUNK
    ensures OpenSealed(a, name, raw) == Some(Flatten(ps[..TWO32]) + ps[0])
    ensures |ps| == TWO32 ==> forall n :: 0 <= n <= |ps| ==> OpenSealed(a, name, raw) != Some(Flatten(ps[..n]))
  {
    hide OpenSealed, Records, Flatten, Opens, Header, AAD;
    var es, first := Entries(name, ps, base), ps[..TWO32];
    var more, again := first + [ps[0]], es[..TWO32] + [es[0]];
    raw := Header(|Flatten(more)|, base) + Records(a, again);
    OpensRecords(a, name, more, again, base);
    FlattenSnoc(first, ps[0]);
    if |ps| == TWO32 {
      forall n | 0 <= n <= |ps| ensures OpenSealed(a, name, raw) != Some(Flatten(ps[..n])) {
        FlattenAppend(ps[..n], ps[n..]);
        assert ps[..n] + ps[n..] == ps == first;
      }
    }
  }
}
