/** The Node driver's frame reader: reassembling frames from arbitrary socket chunks. */
module Wire {
  import opened Bytes

  const HEADER := 12
  const MAX_PACKET := 0x10_0000
  const VERSION := 1
  const MAGIC: seq<byte> := [0x4e, 0x53, 0x51, 0x4c]

  datatype Frame = Frame(typ: byte, payload: seq<byte>)

  function HeaderOf(f: Frame): (h: seq<byte>)
    ensures |h| == HEADER
  {
    MAGIC + U16(VERSION) + [f.typ, 0] + U32(|f.payload|)
  }

  function FrameBytes(f: Frame): seq<byte> { HeaderOf(f) + f.payload }

  /** writeFrame: a payload above one packet is refused. */
  function WriteFrame(f: Frame): Option<seq<byte>>
  {
    if |f.payload| > MAX_PACKET then None else Some(FrameBytes(f))
  }

  /** A frame the writer sends; type zero is no message. */
  predicate Sendable(f: Frame) { f.typ != 0 && WriteFrame(f).Some? }

  predicate AllSendable(fs: seq<Frame>) { forall i :: 0 <= i < |fs| ==> Sendable(fs[i]) }

  /** The byte stream of a list of frames. */
  function Stream(fs: seq<Frame>): (s: seq<byte>)
  {
    if fs == [] then [] else Stream(fs[..|fs| - 1]) + FrameBytes(fs[|fs| - 1])
  }

  lemma {:induction false} StreamPrefix(fs: seq<Frame>, k: nat)
    requires k < |fs|
    ensures Stream(fs[..k]) + FrameBytes(fs[k]) <= Stream(fs)
    decreases |fs|
  {
    hide FrameBytes;
    if k == |fs| - 1 {
    } else {
      var init := fs[..|fs| - 1];
      StreamPrefix(init, k);
      assert init[..k] == fs[..k];
    }
  }

  lemma StreamStep(fs: seq<Frame>, k: nat)
    requires k < |fs|
    ensures Stream(fs[..k + 1]) == Stream(fs[..k]) + FrameBytes(fs[k])
  {
    assert fs[..k + 1][..k] == fs[..k];
  }

  /** Two prefixes of one stream agree where they overlap. */
  lemma SamePlace(all: seq<byte>, before: seq<byte>, f: seq<byte>, got: seq<byte>, held: seq<byte>, buf: seq<byte>,
                  n: nat)
    requires before + f <= all && got <= all && got == before + held + buf
    requires n <= |buf| && |held| + n <= |f|
    ensures buf[..n] == f[|held|..|held| + n]
  {
    forall i | 0 <= i < n ensures buf[i] == f[|held| + i] {
      var at := |before| + |held| + i;
      assert got[at] == buf[i];
      assert (before + f)[at] == f[|held| + i];
    }
  }

  datatype Header = Header(typ: byte, n: nat) | Malformed

  /** The checks readFrame makes on twelve header bytes. */
  function ParseHeader(h: seq<byte>): Header
  {
    if |h| != HEADER || h[..4] != MAGIC || GetLE(h[4..6]) != VERSION || h[6] == 0 || GetLE(h[8..12]) > MAX_PACKET
        then Malformed
    else Header(h[6], GetLE(h[8..12]))
  }

  lemma ParsesHeader(f: Frame)
    requires Sendable(f)
    ensures ParseHeader(HeaderOf(f)) == Header(f.typ, |f.payload|)
  {
    var h := HeaderOf(f);
    Pow256Values();
    GetPut(VERSION, 2);
    GetPut(|f.payload|, 4);
    assert h[..4] == MAGIC && h[4..6] == U16(VERSION) && h[8..12] == U32(|f.payload|);
  }

  // ---- the reader as a state machine ----

  /** Where the one suspended readFrame call stands; after Idle or Failed a new call may start. */
  datatype Phase =
    | Idle
    | AwaitHeader
    | GotHeader(header: seq<byte>)
    | AwaitBody(typ: byte, head: seq<byte>)
    | GotBody(typ: byte, head: seq<byte>, body: seq<byte>)
    | Failed

  /** What the suspended call has taken from the buffer and not yet delivered. */
  function Held(p: Phase): seq<byte>
  {
    match p
    case GotHeader(h) => h
    case AwaitBody(_, h) => h
    case GotBody(_, h, b) => h + b
    case _ => []
  }

  datatype State = State(buf: seq<byte>, wait: Option<nat>, closed: bool, err: bool, phase: Phase,
      delivered: seq<Frame>)

  const START := State([], None, false, false, Idle, [])

  datatype Event = Data(chunk: seq<byte>) | Read | Resume | Close | Error

  /** pump: an error fails the pending read, enough bytes serve it, the end of the stream fails it. */
  function Pumped(s: State): State
  {
    if s.wait.None? then s
    else if s.err then s.(wait := None, phase := Failed)
    else if |s.buf| >= s.wait.value then
      var out := s.buf[..s.wait.value];
      s.(buf := s.buf[s.wait.value..], wait := None,
         phase := if s.phase.AwaitBody? then GotBody(s.phase.typ, s.phase.head, out) else GotHeader(out))
    else if s.closed then s.(wait := None, phase := Failed)
    else s
  }

  /** readFrame continues behind a served read: check the header and ask for the payload, or deliver. */
  function Resumed(s: State): State
  {
    match s.phase
    case GotHeader(h) =>
      (match ParseHeader(h)
       case Malformed => s.(phase := Failed)
       case Header(typ, n) =>
         if n == 0 then s.(phase := Idle, delivered := s.delivered + [Frame(typ, [])])
         else Pumped(s.(phase := AwaitBody(typ, h), wait := Some(n))))
    case GotBody(typ, _, body) => s.(phase := Idle, delivered := s.delivered + [Frame(typ, body)])
    case _ => s
  }

  function Step(s: State, e: Event): State
  {
    match e
    case Data(chunk) => Pumped(s.(buf := s.buf + chunk))
    case Read => if s.phase.Idle? || s.phase.Failed? then Pumped(s.(phase := AwaitHeader, wait := Some(HEADER))) else s
    case Resume => Resumed(s)
    case Close => Pumped(s.(closed := true))
    case Error => Pumped(s.(err := true))
  }

  function Run(events: seq<Event>): State
  {
    if events == [] then START else Step(Run(events[..|events| - 1]), events[|events| - 1])
  }

  function DataOf(events: seq<Event>): seq<byte>
  {
    if events == [] then []
    else DataOf(events[..|events| - 1]) + (if events[|events| - 1].Data? then events[|events| - 1].chunk else [])
  }

  // ---- on track ----

  /** The suspended read, if any, is short of data; the phase knows which read it is. */
  ghost predicate Waiting(s: State)
  {
    && (s.wait.Some? ==> !s.err && !s.closed && |s.buf| < s.wait.value)
    && (s.wait.Some? <==> s.phase.AwaitHeader? || s.phase.AwaitBody?)
    && (s.phase.AwaitHeader? ==> s.wait == Some(HEADER))
  }

  /** Bytes taken plus buffer equal bytes received, and the frame under way is the next one sent. */
  ghost predicate OnTrack(sent: seq<Frame>, received: seq<byte>, s: State)
  {
    var k := |s.delivered|;
    && received <= Stream(sent) && Waiting(s)
    && k <= |sent| && s.delivered == sent[..k]
    && received == Stream(sent[..k]) + Held(s.phase) + s.buf
    && PhaseFits(sent, k, s)
  }

  ghost predicate PhaseFits(sent: seq<Frame>, k: nat, s: State)
  {
    && (s.phase.GotHeader? ==> k < |sent| && s.phase.header == HeaderOf(sent[k]))
    && (s.phase.AwaitBody?
       ==> k < |sent| && s.phase.head == HeaderOf(sent[k]) && s.phase.typ == sent[k].typ
           && s.wait == Some(|sent[k].payload|))
    && (s.phase.GotBody?
       ==> k < |sent| && s.phase.head == HeaderOf(sent[k]) && s.phase.typ == sent[k].typ
           && s.phase.body == sent[k].payload)
  }

  /** The bytes a served read takes are the ones the next frame put there. */
  lemma NextBytes(sent: seq<Frame>, received: seq<byte>, k: nat, held: seq<byte>, buf: seq<byte>, n: nat)
    requires received <= Stream(sent) && k <= |sent| && received == Stream(sent[..k]) + held + buf && n <= |buf|
    requires (held == [] && n == HEADER) || (k < |sent| && held == HeaderOf(sent[k]) && n == |sent[k].payload|)
    ensures k < |sent|
    ensures buf[..n] == if held == [] then HeaderOf(sent[k]) else sent[k].payload
  {
    hide Stream, HeaderOf;
    assert sent[..|sent|] == sent;
    if k < |sent| {
      StreamPrefix(sent, k);
      var h := HeaderOf(sent[k]);
      var f := FrameBytes(sent[k]);
      assert f[..HEADER] == h && f[HEADER..] == sent[k].payload;
      SamePlace(Stream(sent), Stream(sent[..k]), f, received, held, buf, n);
    }
  }

  lemma PumpServes(sent: seq<Frame>, received: seq<byte>, s: State)
    requires received <= Stream(sent) && |s.delivered| <= |sent| && s.delivered == sent[..|s.delivered|]
    requires received == Stream(sent[..|s.delivered|]) + Held(s.phase) + s.buf && PhaseFits(sent, |s.delivered|, s)
    requires s.wait.Some? && !s.err && |s.buf| >= s.wait.value
    requires s.phase.AwaitBody? || (s.phase.AwaitHeader? && s.wait == Some(HEADER))
    ensures OnTrack(sent, received, Pumped(s))
  {
    hide Stream, HeaderOf;
    NextBytes(sent, received, |s.delivered|, Held(s.phase), s.buf, s.wait.value);
    var out, rest := s.buf[..s.wait.value], s.buf[s.wait.value..];
    assert s.buf == out + rest;
    hide PhaseFits;
    Regroup(Stream(sent[..|s.delivered|]), Held(s.phase), out, rest);
    HeldGrows(s.phase, out);
    var r := Pumped(s);
    assert r.buf == rest && r.delivered == s.delivered && Held(r.phase) == Held(s.phase) + out;
    assert PhaseFits(sent, |r.delivered|, r) by { ServedFits(sent, s, out); }
  }

  lemma Regroup(p: seq<byte>, held: seq<byte>, out: seq<byte>, rest: seq<byte>)
    ensures p + held + (out + rest) == p + (held + out) + rest
  {
  }

  lemma HeldGrows(p: Phase, out: seq<byte>)
    requires p.AwaitBody? || p.AwaitHeader?
    ensures Held(if p.AwaitBody? then GotBody(p.typ, p.head, out) else GotHeader(out)) == Held(p) + out
  {
    assert [] + out == out;
  }

  lemma ServedFits(sent: seq<Frame>, s: State, out: seq<byte>)
    requires s.wait.Some? && !s.err && |s.buf| >= s.wait.value && out == s.buf[..s.wait.value]
    requires s.phase.AwaitBody? || s.phase.AwaitHeader?
    requires PhaseFits(sent, |s.delivered|, s) && |s.delivered| < |sent|
    requires out == if s.phase.AwaitHeader? then HeaderOf(sent[|s.delivered|]) else sent[|s.delivered|].payload
    ensures PhaseFits(sent, |s.delivered|, Pumped(s))
  {
    hide HeaderOf;
  }

  /** Pumping a read that belongs to the next frame. */
  lemma PumpKeeps(sent: seq<Frame>, received: seq<byte>, s: State)
    requires received <= Stream(sent) && |s.delivered| <= |sent| && s.delivered == sent[..|s.delivered|]
    requires received == Stream(sent[..|s.delivered|]) + Held(s.phase) + s.buf && PhaseFits(sent, |s.delivered|, s)
    requires (s.wait.Some? <==> s.phase.AwaitHeader? || s.phase.AwaitBody?)
             && (s.phase.AwaitHeader? ==> s.wait == Some(HEADER))
    ensures var r := Pumped(s);
            if r.phase.Failed? && s.phase.AwaitBody?
            then (s.err || (s.closed && |s.buf| < |sent[|s.delivered|].payload|))
                && r == s.(wait := None, phase := Failed)
            else OnTrack(sent, received, r)
  {
    hide Stream, HeaderOf;
    if s.wait.Some? && !s.err && |s.buf| >= s.wait.value {
      PumpServes(sent, received, s);
    } else if s.wait.Some? && s.phase.AwaitHeader? {
      assert Held(s.phase) == Held(Failed) == [];
    }
  }

  // ---- off track ----

  function BodyOf(p: Phase): seq<byte> { if p.GotBody? then p.body else [] }

  /** A body read failed with its header consumed: frame k will never be delivered, and everything still in
      the buffer is shorter than its payload. */
  ghost predicate Lost(sent: seq<Frame>, k: nat, s: State)
  {
    && k < |sent| && k <= |s.delivered| && s.delivered[..k] == sent[..k] && s.wait.None? && (s.err || s.closed)
    && if s.err && s.phase.Failed? && |s.delivered| == k then true
       else s.closed && |BodyOf(s.phase)| + |s.buf| < |sent[k].payload|
            && (|s.delivered| > k ==> |s.delivered[k].payload| < |sent[k].payload|)
  }

  lemma LostStays(sent: seq<Frame>, k: nat, s: State, e: Event)
    requires Lost(sent, k, s) && (s.closed ==> !e.Data?)
    ensures Lost(sent, k, Step(s, e))
    ensures s.phase.Failed? && !e.Read? ==> Step(s, e).phase.Failed? && Step(s, e).delivered == s.delivered
  {
    hide HeaderOf, ParseHeader;
    var r := Step(s, e);
    if e.Resume? && s.phase.GotBody? {
      assert r.delivered[..k] == s.delivered[..k];
    } else if e.Resume? && s.phase.GotHeader? {
      assert r.delivered[..k] == s.delivered[..k];
    }
  }

  // ---- every run ----

  /** The socket sends nothing after it is closed. */
  predicate NoDataAfterClose(events: seq<Event>)
  {
    forall i, j :: 0 <= i < j < |events| && events[i].Close? ==> !events[j].Data?
  }

  /** The number of frames delivered before a body read failed with its header consumed, if one did. */
  function Loss(events: seq<Event>): Option<nat>
  {
    if events == [] then None
    else
      var before := events[..|events| - 1];
      var s := Run(before);
      if Loss(before).Some? then Loss(before)
      else if (s.phase.GotHeader? || s.phase.AwaitBody?) && Run(events).phase.Failed? then Some(|s.delivered|)
      else None
  }

  lemma TrackStep(sent: seq<Frame>, received: seq<byte>, s: State, e: Event)
    requires AllSendable(sent) && OnTrack(sent, received, s)
    requires e.Data? ==> received + e.chunk <= Stream(sent)
    ensures var r, got := Step(s, e), received + (if e.Data? then e.chunk else []);
            if (s.phase.GotHeader? || s.phase.AwaitBody?) && r.phase.Failed? then Lost(sent, |s.delivered|, r)
                else OnTrack(sent, got, r)
  {
    hide Stream, HeaderOf, ParseHeader, FrameBytes;
    var k := |s.delivered|;
    match e
    case Data(chunk) =>
      assert Stream(sent[..k]) + Held(s.phase) + s.buf + chunk == Stream(sent[..k]) + Held(s.phase) + (s.buf + chunk);
      PumpKeeps(sent, received + chunk, s.(buf := s.buf + chunk));
    case Read =>
      assert received + [] == received;
      if s.phase.Idle? || s.phase.Failed? { PumpKeeps(sent, received, s.(phase := AwaitHeader, wait := Some(HEADER))); }
    case Close =>
      assert received + [] == received;
      PumpKeeps(sent, received, s.(closed := true));
    case Error =>
      assert received + [] == received;
      PumpKeeps(sent, received, s.(err := true));
    case Resume =>
      assert received + [] == received;
      ResumeKeeps(sent, received, s);
  }

  lemma ResumeKeeps(sent: seq<Frame>, received: seq<byte>, s: State)
    requires AllSendable(sent) && OnTrack(sent, received, s)
    ensures var r := Resumed(s);
            if s.phase.GotHeader? && r.phase.Failed? then Lost(sent, |s.delivered|, r) else OnTrack(sent, received, r)
  {
    hide Stream, HeaderOf, ParseHeader;
    var k := |s.delivered|;
    if s.phase.GotHeader? || s.phase.GotBody? {
      StreamStep(sent, k);
      ParsesHeader(sent[k]);
      assert sent[..k] + [sent[k]] == sent[..k + 1];
      if s.phase.GotHeader? && sent[k].payload != [] {
        PumpKeeps(sent, received, s.(phase := AwaitBody(sent[k].typ, s.phase.header), wait := Some(|sent[k].payload|)));
      } else if s.phase.GotHeader? {
        assert FrameBytes(sent[k]) == HeaderOf(sent[k]);
        assert Stream(sent[..k + 1]) + [] + s.buf == received;
      } else {
        assert Stream(sent[..k + 1]) + [] + s.buf == received;
      }
    }
  }

  /** For every cut of the stream and every interleaving of arrivals, reads, resumptions, errors and the end:
      as long as no body read has failed behind its header the reader is on track, and after that it is lost. */
  lemma {:induction false} Reached(sent: seq<Frame>, events: seq<Event>)
    requires AllSendable(sent) && DataOf(events) <= Stream(sent) && NoDataAfterClose(events)
    ensures Loss(events).None? ==> OnTrack(sent, DataOf(events), Run(events))
    ensures Loss(events).Some? ==> Lost(sent, Loss(events).value, Run(events))
    ensures Run(events).closed ==> exists i :: 0 <= i < |events| && events[i].Close?
  {
    hide Stream, OnTrack, Lost, Step;
    if events == [] {
      StartsOnTrack(sent);
    } else {
      var before, e := events[..|events| - 1], events[|events| - 1];
      Reached(sent, before);
      ClosedBy(Run(before), e);
      if Loss(before).None? {
        TrackStep(sent, DataOf(before), Run(before), e);
      } else {
        LostStays(sent, Loss(before).value, Run(before), e);
      }
    }
  }

  lemma ClosedBy(s: State, e: Event)
    ensures Step(s, e).closed ==> s.closed || e.Close?
  {
  }

  lemma StartsOnTrack(sent: seq<Frame>)
    ensures OnTrack(sent, [], START)
  {
    assert sent[..0] == [];
  }

  /** The frames delivered are the first frames sent if and only if no frame has been delivered since a body
      read failed with its header already consumed. */
  lemma DeliveredExactly(sent: seq<Frame>, events: seq<Event>)
    requires AllSendable(sent) && DataOf(events) <= Stream(sent) && NoDataAfterClose(events)
    ensures Run(events).delivered <= sent <==> Loss(events).None? || |Run(events).delivered| == Loss(events).value
    ensures Loss(events).Some? ==> Loss(events).value < |sent| && sent[..Loss(events).value] <= Run(events).delivered
  {
    hide Stream, Run, Loss;
    Reached(sent, events);
    var d := Run(events).delivered;
    if Loss(events).Some? {
      var k := Loss(events).value;
      assert |d| > k ==> d[k] != sent[k];
      assert d == d[..k] + d[k..];
      assert |d| == k ==> d == sent[..k];
    }
  }

  /** A caller that starts no read after such a failure only ever sees the frames sent, in order. */
  lemma {:induction false} CarefulCaller(sent: seq<Frame>, events: seq<Event>)
    requires AllSendable(sent) && DataOf(events) <= Stream(sent) && NoDataAfterClose(events)
    requires forall i :: 0 <= i < |events| && Loss(events[..i]).Some? ==> !events[i].Read?
    ensures Run(events).delivered <= sent
    ensures Loss(events).Some? ==> Run(events).phase.Failed? && |Run(events).delivered| == Loss(events).value
  {
    hide Stream, Step;
    if events != [] {
      var before, e := events[..|events| - 1], events[|events| - 1];
      forall i | 0 <= i < |before| ensures before[..i] == events[..i] {}
      CarefulCaller(sent, before);
      Reached(sent, before);
      if Loss(before).Some? {
        LostStays(sent, Loss(before).value, Run(before), e);
      } else if Loss(events).Some? {
        FailureDelivers(Run(before), e);
      }
    }
    DeliveredExactly(sent, events);
  }

  lemma FailureDelivers(s: State, e: Event)
    requires (s.phase.GotHeader? || s.phase.AwaitBody?) && Step(s, e).phase.Failed?
    ensures Step(s, e).delivered == s.delivered
  {
  }

  // ---- a read after the failure ----

  /** A whole well-formed frame at the head of the buffer. */
  predicate FrameIn(b: seq<byte>)
  {
    |b| >= HEADER && ParseHeader(b[..HEADER]).Header? && HEADER + ParseHeader(b[..HEADER]).n <= |b|
  }

  /** A frame at some whole number of headers into the buffer: every failed read drops twelve bytes. */
  predicate Stray(b: seq<byte>) { |b| >= HEADER && (FrameIn(b) || Stray(b[HEADER..])) }

  /** The events that follow a state. */
  function Follow(s: State, events: seq<Event>): State
    decreases |events|
  {
    if events == [] then s else Follow(Step(s, events[0]), events[1..])
  }

  predicate NoData(events: seq<Event>) { forall i :: 0 <= i < |events| ==> !events[i].Data? }

  /** Nothing the reader still holds can become a frame. */
  ghost predicate Barren(s: State)
  {
    && s.closed && s.wait.None? && (s.phase.Idle? || s.phase.Failed? || s.phase.GotHeader?)
    && (s.phase.GotHeader? ==> |s.phase.header| == HEADER)
    && !Stray(Held(s.phase) + s.buf)
  }

  lemma BarrenStays(s: State, e: Event)
    requires Barren(s) && !e.Data?
    ensures Barren(Step(s, e)) && Step(s, e).delivered == s.delivered
  {
    hide ParseHeader;
    var b := Held(s.phase) + s.buf;
    assert [] + s.buf == s.buf;
    if e.Read? && !s.phase.GotHeader? && |s.buf| >= HEADER {
      assert s.buf[..HEADER] + s.buf[HEADER..] == s.buf;
    } else if e.Resume? && s.phase.GotHeader? {
      assert b[..HEADER] == s.phase.header && b[HEADER..] == s.buf;
    }
  }

  lemma {:induction false} BarrenForever(s: State, events: seq<Event>)
    requires Barren(s) && NoData(events)
    ensures Follow(s, events).delivered == s.delivered
    decreases |events|
  {
    hide Barren, Step;
    if events != [] {
      BarrenStays(s, events[0]);
      BarrenForever(Step(s, events[0]), events[1..]);
    }
  }

  /** A read, and the continuation that checks its header. */
  lemma ReadAndResume(s: State)
    requires s.closed && !s.err && s.phase.Failed? && s.wait.None? && |s.buf| >= HEADER
    ensures var r := Step(Step(s, Read), Resume);
            if FrameIn(s.buf) then |Step(r, Resume).delivered| > |s.delivered| else r == s.(buf := s.buf[HEADER..])
  {
    hide ParseHeader;
    assert Step(s, Read).phase == GotHeader(s.buf[..HEADER]);
  }

  /** The reads that dig the first stray frame out. */
  lemma {:induction false} StrayFound(s: State) returns (events: seq<Event>)
    requires s.closed && !s.err && s.phase.Failed? && s.wait.None? && Stray(s.buf)
    ensures NoData(events) && |Follow(s, events).delivered| > |s.delivered|
    decreases |s.buf|
  {
    hide Step, FrameIn;
    ReadAndResume(s);
    var one := Step(s, Read);
    var two := Step(one, Resume);
    if FrameIn(s.buf) {
      events := [Read, Resume, Resume];
      assert events[1..] == [Resume, Resume] && events[1..][1..] == [Resume] && [Resume][1..] == [];
      assert Follow(two, [Resume]) == Follow(Step(two, Resume), []);
    } else {
      var rest := StrayFound(two);
      events := [Read, Resume] + rest;
      assert events[1..] == [Resume] + rest && ([Resume] + rest)[1..] == rest;
    }
  }

  /** Behind a socket error every read fails, whatever else happens. */
  lemma {:induction false} ErrorSilences(s: State, events: seq<Event>)
    requires s.err && s.phase.Failed? && s.wait.None?
    ensures Follow(s, events).delivered == s.delivered
    decreases |events|
  {
    if events != [] { ErrorSilences(Step(s, events[0]), events[1..]); }
  }

  /** What can follow: data may still arrive behind an error, not behind the end of the stream. */
  predicate Possible(s: State, events: seq<Event>) { s.err || NoData(events) }

  /** After a failed read, nothing is ever delivered again, whatever follows, if and only if the socket reported an
      error or the bytes left hold no frame at a whole number of headers. */
  lemma NothingMore(s: State)
    requires (s.closed || s.err) && s.phase.Failed? && s.wait.None?
    ensures (forall events :: Possible(s, events) ==> Follow(s, events).delivered == s.delivered)
            <==> s.err || !Stray(s.buf)
  {
    hide Stray, Follow;
    if s.err {
      forall events ensures Follow(s, events).delivered == s.delivered { ErrorSilences(s, events); }
    } else if Stray(s.buf) {
      var events := StrayFound(s);
      assert Possible(s, events) && Follow(s, events).delivered != s.delivered;
    } else {
      assert [] + s.buf == s.buf;
      forall events | Possible(s, events) ensures Follow(s, events).delivered == s.delivered {
        BarrenForever(s, events);
      }
    }
  }

  /** Over whole runs: behind a lost frame, everything delivered later is still what was sent, whatever the caller
      goes on to do, if and only if the socket reported an error or the bytes left hold no such frame. */
  lemma SafeAfterLoss(sent: seq<Frame>, events: seq<Event>)
    requires AllSendable(sent) && DataOf(events) <= Stream(sent) && NoDataAfterClose(events)
    requires Loss(events).Some? && |Run(events).delivered| == Loss(events).value && Run(events).phase.Failed?
    ensures (forall more :: Possible(Run(events), more) ==> Follow(Run(events), more).delivered <= sent)
            <==> Run(events).err || !Stray(Run(events).buf)
  {
    hide Run, Loss, Stray, Follow, Stream, Step;
    Reached(sent, events);
    var s, k := Run(events), Loss(events).value;
    assert Lost(sent, k, s);
    NothingMore(s);
    assert s.delivered == s.delivered[..k];
    if !s.err && Stray(s.buf) {
      var more := StrayFound(s);
      LostFollows(sent, k, s, more);
      var d := Follow(s, more).delivered;
      assert d[k] != sent[k];
      assert !(d <= sent) && Possible(s, more);
    }
  }

  lemma {:induction false} LostFollows(sent: seq<Frame>, k: nat, s: State, more: seq<Event>)
    requires Lost(sent, k, s) && NoData(more)
    ensures Lost(sent, k, Follow(s, more))
    decreases |more|
  {
    hide Lost, Step;
    if more != [] {
      LostStays(sent, k, s, more[0]);
      LostFollows(sent, k, Step(s, more[0]), more[1..]);
    }
  }

  /** The payload of the one frame sent begins with the header of an empty frame. */
  function Nested(): Frame { Frame(1, HeaderOf(Frame(2, [])) + [0, 0, 0, 0, 0, 0, 0, 0, 0, 0, 0, 0]) }

  function Script(): seq<Event>
  {
    [Read, Data(HeaderOf(Nested()) + HeaderOf(Frame(2, []))), Resume] + [Close] + [Read] + [Resume]
  }

  /** One more event. */
  lemma RunSnoc(events: seq<Event>, e: Event)
    ensures Run(events + [e]) == Step(Run(events), e)
    ensures DataOf(events + [e]) == DataOf(events) + (if e.Data? then e.chunk else [])
    ensures Loss(events + [e]) ==
            if Loss(events).Some? then Loss(events)
            else if (Run(events).phase.GotHeader? || Run(events).phase.AwaitBody?) && Step(Run(events), e).phase.Failed?
            then Some(|Run(events).delivered|)
            else None
  {
    hide Step;
    assert (events + [e])[..|events|] == events;
  }

  lemma RunNone()
    ensures Run([]) == START && DataOf([]) == [] && Loss([]) == None
  {
  }

  /** The header arrives with the first half of the payload, and the body read waits for the rest. */
  lemma NestedBegins(hf: seq<byte>, hg: seq<byte>)
    requires |hf| == |hg| == HEADER && ParseHeader(hf) == Header(1, 24)
    ensures var e := [Read, Data(hf + hg), Resume];
            Run(e) == State(hg, Some(24), false, false, AwaitBody(1, hf), []) && DataOf(e) == hf + hg && Loss(e) == None
  {
    hide ParseHeader, Run, DataOf, Loss, Step;
    RunNone();
    RunSnoc([], Read);
    assert [] + [Read] == [Read];
    RunSnoc([Read], Data(hf + hg));
    assert [Read] + [Data(hf + hg)] == [Read, Data(hf + hg)];
    RunSnoc([Read, Data(hf + hg)], Resume);
    assert [Read, Data(hf + hg)] + [Resume] == [Read, Data(hf + hg), Resume];
    assert [] + [] + (hf + hg) + [] == hf + hg;
    NestedSteps(hf, hg);
  }

  lemma NestedSteps(hf: seq<byte>, hg: seq<byte>)
    requires |hf| == |hg| == HEADER && ParseHeader(hf) == Header(1, 24)
    ensures Step(START, Read).phase.AwaitHeader? && Step(Step(START, Read), Data(hf + hg)).phase == GotHeader(hf)
    ensures Step(Step(Step(START, Read), Data(hf + hg)), Resume)
            == State(hg, Some(24), false, false, AwaitBody(1, hf), [])
  {
    hide ParseHeader;
    var both := [] + (hf + hg);
    assert both[..HEADER] == hf && both[HEADER..] == hg;
  }

  /** The connection ends in the middle of that payload; the next read delivers a frame that was never sent. */
  lemma StrayFrame()
    ensures AllSendable([Nested()]) && DataOf(Script()) <= Stream([Nested()]) && NoDataAfterClose(Script())
    ensures Loss(Script()) == Some(0) && Run(Script()).delivered == [Frame(2, [])]
    ensures !(Run(Script()).delivered <= [Nested()])
  {
    hide HeaderOf, ParseHeader;
    var f, g := Nested(), Frame(2, []);
    var hf, hg := HeaderOf(f), HeaderOf(g);
    var e := [Read, Data(hf + hg), Resume];
    ParsesHeader(f);
    ParsesHeader(g);
    NestedBegins(hf, hg);
    RunSnoc(e, Close);
    RunSnoc(e + [Close], Read);
    RunSnoc(e + [Close] + [Read], Resume);
    assert hg[..HEADER] == hg;
    assert [f][..0] == [] && Stream([f]) == [] + FrameBytes(f);
  }

  // ---- progress ----

  /** Without an end or an error no read ever fails. */
  lemma {:induction false} NeverFails(sent: seq<Frame>, events: seq<Event>)
    requires AllSendable(sent) && DataOf(events) <= Stream(sent)
             && forall i :: 0 <= i < |events| ==> !events[i].Close? && !events[i].Error?
    ensures var s := Run(events); OnTrack(sent, DataOf(events), s) && !s.closed && !s.err && !s.phase.Failed?
  {
    hide Stream, OnTrack, Step;
    if events == [] {
      StartsOnTrack(sent);
    } else {
      var before, e := events[..|events| - 1], events[|events| - 1];
      NeverFails(sent, before);
      TrackStep(sent, DataOf(before), Run(before), e);
      StaysOpen(sent, DataOf(before), Run(before), e);
    }
  }

  lemma StaysOpen(sent: seq<Frame>, received: seq<byte>, s: State, e: Event)
    requires AllSendable(sent) && OnTrack(sent, received, s) && !s.closed && !s.err && !s.phase.Failed? && !e.Close?
             && !e.Error?
    ensures var r := Step(s, e); !r.closed && !r.err && !r.phase.Failed?
  {
    hide Stream, HeaderOf, ParseHeader;
    if s.phase.GotHeader? { ParsesHeader(sent[|s.delivered|]); }
  }

  /** The reader's own next step: continue behind a served read, or start the next one. */
  function Serve(s: State): State
  {
    if s.phase.Idle? then Step(s, Read) else Step(s, Resume)
  }

  function Drain(s: State, n: nat): State
    decreases n
  {
    if n == 0 then s else Drain(Serve(s), n - 1)
  }

  /** How many steps the frames still to come need. */
  function Work(sent: seq<Frame>, s: State): int
  {
    3 * (|sent| - |s.delivered|) - (if s.phase.GotHeader? then 1 else if s.phase.GotBody? then 2 else 0)
  }

  lemma FrameArrived(sent: seq<Frame>, received: seq<byte>, s: State)
    requires OnTrack(sent, received, s) && received == Stream(sent) && |s.delivered| < |sent|
    ensures |Held(s.phase)| + |s.buf| >= HEADER + |sent[|s.delivered|].payload|
    ensures s.wait.None?
  {
    hide Stream, HeaderOf;
    StreamPrefix(sent, |s.delivered|);
  }

  lemma ServeWorks(sent: seq<Frame>, received: seq<byte>, s: State)
    requires AllSendable(sent) && OnTrack(sent, received, s) && received == Stream(sent) && !s.closed && !s.err
             && !s.phase.Failed?
    requires |s.delivered| < |sent|
    ensures var r := Serve(s);
            OnTrack(sent, received, r) && !r.closed && !r.err && !r.phase.Failed? && Work(sent, r) < Work(sent, s)
  {
    hide *;
    assert received + [] == received;
    assert OnTrack(sent, received, s);
    FrameArrived(sent, received, s);
    var e := if s.phase.Idle? then Read else Resume;
    ServeIs(s);
    TrackStep(sent, received, s, e);
    StaysOpen(sent, received, s, e);
    WorkShrinks(sent, received, s);
  }

  lemma ServeIs(s: State)
    ensures Serve(s) == Step(s, if s.phase.Idle? then Read else Resume)
  {
  }

  lemma WorkShrinks(sent: seq<Frame>, received: seq<byte>, s: State)
    requires AllSendable(sent) && OnTrack(sent, received, s) && !s.closed && !s.err && !s.phase.Failed? && s.wait.None?
    requires |s.delivered| < |sent| && |Held(s.phase)| + |s.buf| >= HEADER + |sent[|s.delivered|].payload|
    ensures Work(sent, Serve(s)) < Work(sent, s)
  {
    hide Stream, HeaderOf, ParseHeader;
    if s.phase.GotHeader? { ParsesHeader(sent[|s.delivered|]); }
  }

  /** Once the whole stream has arrived, three steps a frame deliver everything. */
  lemma {:induction false} DeliversAll(sent: seq<Frame>, received: seq<byte>, s: State, n: nat)
    requires AllSendable(sent) && OnTrack(sent, received, s) && received == Stream(sent) && !s.closed && !s.err
             && !s.phase.Failed?
    requires n >= Work(sent, s)
    ensures sent <= Drain(s, n).delivered
    decreases n
  {
    hide Stream, OnTrack, Serve;
    AtMostSent(sent, received, s);
    if |s.delivered| < |sent| {
      ServeWorks(sent, received, s);
      WorkLeft(sent, s);
      DeliversAll(sent, received, Serve(s), n - 1);
    } else {
      DrainKeeps(s, n);
    }
  }

  lemma AtMostSent(sent: seq<Frame>, received: seq<byte>, s: State)
    requires OnTrack(sent, received, s)
    ensures |s.delivered| <= |sent| && (|s.delivered| == |sent| ==> s.delivered == sent)
  {
    assert sent[..|sent|] == sent;
  }

  lemma WorkLeft(sent: seq<Frame>, s: State)
    requires |s.delivered| < |sent|
    ensures Work(sent, s) >= 1
  {
  }

  lemma {:induction false} DrainKeeps(s: State, n: nat)
    ensures s.delivered <= Drain(s, n).delivered
    decreases n
  {
    if n > 0 { DrainKeeps(Serve(s), n - 1); }
  }

  /** A reader that is blocked on a stream that has fully arrived has delivered every frame and holds no byte. */
  lemma Complete(sent: seq<Frame>, received: seq<byte>, s: State)
    requires OnTrack(sent, received, s) && received == Stream(sent) && s.wait.Some?
    ensures s.delivered == sent && s.phase.AwaitHeader? && s.buf == []
  {
    hide HeaderOf;
    assert sent[..|sent|] == sent;
    if |s.delivered| < |sent| { StreamPrefix(sent, |s.delivered|); }
  }

  // ---- the object ----

  class Reader {
    var buf: seq<byte>
    var wait: Option<nat>
    var closed: bool
    var err: bool
    var phase: Phase
    var delivered: seq<Frame>

    ghost function Contents(): State
      reads this
    {
      State(buf, wait, closed, err, phase, delivered)
    }

    constructor ()
      ensures Contents() == START
    {
      buf, wait, closed, err, phase, delivered := [], None, false, false, Idle, [];
    }

    /** Serves the pending read if it can be served, or fails it. */
    method Pump()
      modifies this
      ensures Contents() == Pumped(old(Contents()))
    {
      if wait.None? { return; }
      if err {
        wait, phase := None, Failed;
      } else if |buf| >= wait.value {
        var out := buf[..wait.value];
        buf := buf[wait.value..];
        phase := if phase.AwaitBody? then GotBody(phase.typ, phase.head, out) else GotHeader(out);
        wait := None;
      } else if closed {
        wait, phase := None, Failed;
      }
    }

    method OnData(chunk: seq<byte>)
      modifies this
      ensures Contents() == Step(old(Contents()), Data(chunk))
    {
      buf := buf + chunk;
      Pump();
    }

    method OnClose()
      modifies this
      ensures Contents() == Step(old(Contents()), Close)
    {
      closed := true;
      Pump();
    }

    method OnError()
      modifies this
      ensures Contents() == Step(old(Contents()), Error)
    {
      err := true;
      Pump();
    }

    /** readFrame starts, the first time or after a failure: ask for a header. One call at a time. */
    method StartRead()
      requires phase.Idle? || phase.Failed?
      modifies this
      ensures Contents() == Step(old(Contents()), Read)
    {
      phase, wait := AwaitHeader, Some(HEADER);
      Pump();
    }

    /** The promise of a served read resolves. */
    method ResumeRead()
      requires phase.GotHeader? || phase.GotBody?
      modifies this
      ensures Contents() == Step(old(Contents()), Resume)
    {
      hide ParseHeader;
      if phase.GotHeader? {
        var h := ParseHeader(phase.header);
        if h.Malformed? {
          phase := Failed;
        } else if h.n == 0 {
          delivered := delivered + [Frame(h.typ, [])];
          phase := Idle;
        } else {
          phase, wait := AwaitBody(h.typ, phase.header), Some(h.n);
          Pump();
        }
      } else {
        delivered := delivered + [Frame(phase.typ, phase.body)];
        phase := Idle;
      }
    }

    /** Every event in turn. */
    method RunAll(events: seq<Event>)
      requires Contents() == START
      modifies this
      ensures Contents() == Run(events)
    {
      hide Step;
      for i := 0 to |events|
        invariant Contents() == Run(events[..i])
      {
        assert events[..i + 1][..i] == events[..i];
        match events[i]
        case Data(chunk) => OnData(chunk);
        case Read =>
          Ignored(Contents());
          if phase.Idle? || phase.Failed? { StartRead(); }
        case Resume =>
          Ignored(Contents());
          if phase.GotHeader? || phase.GotBody? { ResumeRead(); }
        case Close => OnClose();
        case Error => OnError();
      }
      assert events[..|events|] == events;
    }
  }

  lemma Ignored(s: State)
    ensures !s.phase.Idle? && !s.phase.Failed? ==> Step(s, Read) == s
    ensures !s.phase.GotHeader? && !s.phase.GotBody? ==> Step(s, Resume) == s
  {
  }
}
