/** The revocation set of short-lived credentials: revoked ids kept until they expire, cutoffs per
    principal, pruning, the file, and what a run of them can and cannot let back in. */
module Revocations {
  import opened Bytes
  import opened Format
  import opened TokenText
  import opened TokenClaims

  const MAX_IDS := 65536
  const MAX_CUTOFFS := 4096

  /** Thirty days. */
  const CEILING := 2_592_000 * SECOND

  /** A clock reading: thirty days later is still an instant. */
  type Clock = t: int | 0 - TWO63 * SECOND <= t < (TWO63 - 2_592_000) * SECOND witness 0

  datatype Rev = Rev(ids: map<seq<byte>, Time>, cutoffs: map<Str, Time>)

  /** The set in memory and the set its file holds. */
  datatype State = State(mem: Rev, disk: Rev)

  // ---- the operations on values ----

  function Pruned(ids: map<seq<byte>, Time>, now: Clock): map<seq<byte>, Time>
  {
    map id | id in ids && now < ids[id] :: ids[id]
  }

  function CutMap<K>(m: map<K, Time>): (r: map<K, Time>)
    ensures r.Keys == m.Keys
  {
    map k | k in m :: Cut(m[k])
  }

  /** What the file keeps of a set. */
  function CutRev(r: Rev): Rev { Rev(CutMap(r.ids), CutMap(r.cutoffs)) }

  datatype Op =
    | RevokeOp(id: seq<byte>, expires: Option<Time>, at: Clock, later: Clock)
    | PrincipalOp(principal: Str, before: Option<Time>, at: Clock)
    | PruneOp(at: Clock)
    | ReloadOp(at: Clock)

  predicate Full(r: Rev, op: Op)
    requires op.RevokeOp?
  {
    op.id !in Pruned(r.ids, op.at) && |Pruned(r.ids, op.at)| >= MAX_IDS
  }

  function Expiry(expires: Option<Time>, now: Clock): Time
  {
    if expires.Some? then expires.value else now + CEILING
  }

  predicate CutoffTaken(r: Rev, op: Op)
    requires op.PrincipalOp?
  {
    var name := Norm(op.principal);
    1 <= |name| <= MAX_PRINCIPAL && (name in r.cutoffs || |r.cutoffs| < MAX_CUTOFFS)
  }

  function NewCutoffs(r: Rev, op: Op): map<Str, Time>
    requires op.PrincipalOp?
  {
    var name := Norm(op.principal);
    var before: Time := if op.before.Some? then op.before.value else op.at;
    if name !in r.cutoffs || before > r.cutoffs[name] then r.cutoffs[name := before] else r.cutoffs
  }

  function Persisted(r: Rev): State { State(r, CutRev(r)) }

  function Step(s: State, op: Op): State
  {
    match op
    case RevokeOp(id, expires, at, later) =>
      var ids := Pruned(s.mem.ids, at);
      if Full(s.mem, op) then s.(mem := Rev(ids, s.mem.cutoffs))
      else Persisted(Rev(ids[id := Expiry(expires, later)], s.mem.cutoffs))
    case PrincipalOp(_, _, _) =>
      if CutoffTaken(s.mem, op) then Persisted(Rev(s.mem.ids, NewCutoffs(s.mem, op))) else s
    case PruneOp(at) =>
      var ids := Pruned(s.mem.ids, at);
      if |ids| == |s.mem.ids| then s else Persisted(Rev(ids, s.mem.cutoffs))
    case ReloadOp(_) => s.(mem := s.disk)
  }

  function Run(s: State, ops: seq<Op>): State
  {
    if ops == [] then s else Step(Run(s, ops[..|ops| - 1]), ops[|ops| - 1])
  }

  predicate CutoffRevoked(r: Rev, c: Claims)
  {
    Norm(c.principal) in r.cutoffs && c.issuedAt <= r.cutoffs[Norm(c.principal)]
  }

  predicate IsRevoked(r: Rev, c: Claims, now: int)
  {
    (c.tokenID in r.ids && now < r.ids[c.tokenID]) || CutoffRevoked(r, c)
  }

  // ---- cutoffs ----

  /** Every cutoff is still there and its second has not moved back. */
  ghost predicate NotBack(a: map<Str, Time>, b: map<Str, Time>)
  {
    forall p :: p in a ==> p in b && Unix(a[p]) <= Unix(b[p])
  }

  /** Memory and file agree on the cutoffs to the second. */
  ghost predicate CutoffsStored(s: State) { CutMap(s.mem.cutoffs) == CutMap(s.disk.cutoffs) }

  lemma CutSame(t: Time)
    ensures Unix(Cut(t)) == Unix(t) && Cut(Cut(t)) == Cut(t)
  {
  }

  lemma CutMapTwice<K>(m: map<K, Time>)
    ensures CutMap(CutMap(m)) == CutMap(m)
  {
    forall k | k in m ensures CutMap(CutMap(m))[k] == CutMap(m)[k] { CutSame(m[k]); }
  }

  lemma SameSeconds(a: map<Str, Time>, b: map<Str, Time>)
    requires CutMap(a) == CutMap(b)
    ensures NotBack(a, b)
  {
    forall p | p in a ensures p in b && Unix(a[p]) <= Unix(b[p]) {
      assert p in CutMap(a);
      assert CutMap(a)[p] == CutMap(b)[p];
      CutSame(a[p]);
      CutSame(b[p]);
    }
  }

  lemma StepCutoffs(s: State, op: Op)
    requires CutoffsStored(s)
    ensures CutoffsStored(Step(s, op)) && NotBack(s.mem.cutoffs, Step(s, op).mem.cutoffs)
  {
    hide Pruned, CutMap, Norm;
    CutMapTwice(Step(s, op).mem.cutoffs);
    if op.ReloadOp? { SameSeconds(s.mem.cutoffs, s.disk.cutoffs); }
  }

  /** Over every run a principal's cutoff never moves back. */
  lemma {:induction false} CutoffsNeverMoveBack(s: State, ops: seq<Op>)
    requires CutoffsStored(s)
    ensures CutoffsStored(Run(s, ops)) && NotBack(s.mem.cutoffs, Run(s, ops).mem.cutoffs)
  {
    hide Step, CutMap;
    if ops != [] {
      CutoffsNeverMoveBack(s, ops[..|ops| - 1]);
      StepCutoffs(Run(s, ops[..|ops| - 1]), ops[|ops| - 1]);
    }
  }

  /** Dropping the part of a second below a cutoff changes no verdict about a decoded credential. */
  lemma SubSecondsDoNotMatter(r: Rev, c: Claims)
    requires Whole(c.issuedAt)
    ensures CutoffRevoked(CutRev(r), c) == CutoffRevoked(r, c)
  {
    var p := Norm(c.principal);
    if p in r.cutoffs {
      assert CutMap(r.cutoffs)[p] == Cut(r.cutoffs[p]);
      WholeBelow(c.issuedAt, r.cutoffs[p]);
    }
  }

  lemma WholeBelow(t: Time, cut: Time)
    requires Whole(t)
    ensures t <= cut <==> t <= Cut(cut)
  {
  }

  /** A credential rejected by a cutoff is rejected in every later state of every run. */
  lemma CutoffIsFinal(s: State, ops: seq<Op>, c: Claims)
    requires CutoffsStored(s) && Whole(c.issuedAt) && CutoffRevoked(s.mem, c)
    ensures CutoffRevoked(Run(s, ops).mem, c)
  {
    CutoffsNeverMoveBack(s, ops);
    var p := Norm(c.principal);
    var t := Run(s, ops).mem;
    assert Unix(s.mem.cutoffs[p]) <= Unix(t.cutoffs[p]);
    WholeBelow(c.issuedAt, s.mem.cutoffs[p]);
    WholeBelow(c.issuedAt, t.cutoffs[p]);
  }

  // ---- revoked ids ----

  /** The verifier's time window, at its first clock reading. */
  predicate InWindow(c: Claims, maxLife: int, skew: int, now: int)
  {
    c.expiresAt > c.issuedAt && c.expiresAt - c.issuedAt <= maxLife && now + skew >= c.notBefore
        && now - skew < c.expiresAt
  }

  function ClockOf(op: Op): Clock { op.at }

  /** The last reading an operation takes. */
  function EndOf(op: Op): Clock { if op.RevokeOp? then op.later else op.at }

  /** Clock readings never go back, and the last is no later than `end`. */
  ghost predicate Ordered(start: int, ops: seq<Op>, end: int)
    decreases |ops|
  {
    if ops == [] then start <= end
    else start <= ClockOf(ops[0]) <= EndOf(ops[0]) && Ordered(EndOf(ops[0]), ops[1..], end)
  }

  /** No later revocation of the id sets an expiry before `e`. */
  ghost predicate NotEarlier(ops: seq<Op>, id: seq<byte>, e: int)
  {
    forall i :: 0 <= i < |ops| ==> !Shortens(ops[i], id, e)
  }

  predicate Shortens(op: Op, id: seq<byte>, e: int)
  {
    op.RevokeOp? && op.id == id && Expiry(op.expires, op.later) < e
  }

  /** The id is held until e at least, in memory and on file, or e has passed. */
  ghost predicate Held(s: State, id: seq<byte>, e: int, now: int)
  {
    HeldIn(s.mem.ids, id, e, now) && HeldIn(s.disk.ids, id, e, now)
  }

  ghost predicate HeldIn(ids: map<seq<byte>, Time>, id: seq<byte>, e: int, now: int)
  {
    if id in ids then e <= ids[id] else e <= now
  }

  lemma CutHeld(ids: map<seq<byte>, Time>, id: seq<byte>, e: int, now: int)
    requires HeldIn(ids, id, e, now) && Whole(e)
    ensures HeldIn(CutMap(ids), id, e, now)
  {
    if id in ids {
      assert CutMap(ids)[id] == Cut(ids[id]);
    }
  }

  lemma StepHeld(s: State, op: Op, id: seq<byte>, e: int, now: int)
    requires Held(s, id, e, now) && Whole(e) && now <= ClockOf(op) <= EndOf(op)
    requires !Shortens(op, id, e)
    ensures Held(Step(s, op), id, e, EndOf(op))
  {
    hide CutMap, Norm;
    var t := Step(s, op);
    assert HeldIn(t.mem.ids, id, e, EndOf(op));
    CutHeld(t.mem.ids, id, e, EndOf(op));
  }

  lemma {:induction false} RunHeld(s: State, ops: seq<Op>, id: seq<byte>, e: int, start: int, end: int)
    requires Held(s, id, e, start) && Whole(e) && Ordered(start, ops, end) && NotEarlier(ops, id, e)
    ensures Held(Run(s, ops), id, e, end)
    decreases |ops|
  {
    hide Step;
    if ops != [] {
      assert !Shortens(ops[0], id, e);
      StepHeld(s, ops[0], id, e, start);
      RunHeld(Step(s, ops[0]), ops[1..], id, e, EndOf(ops[0]), end);
      RunFirst(s, ops);
    }
  }

  lemma {:induction false} RunFirst(s: State, ops: seq<Op>)
    requires ops != []
    ensures Run(s, ops) == Run(Step(s, ops[0]), ops[1..])
  {
    hide Step;
    if |ops| > 1 {
      var init := ops[..|ops| - 1];
      RunFirst(s, init);
      assert init[1..] == ops[1..][..|ops| - 2];
    } else {
      assert ops[..0] == [];
    }
  }

  /** An id revoked at `later`, no earlier than the credential was issued, until the given or the default expiry,
      and yet the credential passes the window at n1 and the revocation set at n2. */
  ghost predicate Escapes(s: State, c: Claims, expires: Option<Time>, at: Clock, later: Clock, ops: seq<Op>,
                          maxLife: int, skew: int, gap: int, n1: int, n2: int)
  {
    var revoke := RevokeOp(c.tokenID, expires, at, later);
    && |c.tokenID| == ID_SIZE && at <= later && !Full(s.mem, revoke)
    && Whole(c.issuedAt) && Whole(c.expiresAt) && c.issuedAt <= later
    && Ordered(later, ops, n2) && NotEarlier(ops, c.tokenID, Expiry(expires, later))
    && later <= n1 <= n2 <= n1 + gap
    && InWindow(c, maxLife, skew, n1) && !IsRevoked(Run(Step(s, revoke), ops).mem, c, n2)
  }

  ghost predicate NeverAgain(maxLife: int, skew: int, gap: int)
  {
    forall s, c, at, later, ops, n1, n2 :: !Escapes(s, c, None, at, later, ops, maxLife, skew, gap, n1, n2)
  }

  lemma WholeLifetime(c: Claims, maxLife: int)
    requires Whole(c.issuedAt) && Whole(c.expiresAt) && 0 <= c.expiresAt - c.issuedAt <= maxLife
    ensures c.expiresAt - c.issuedAt <= maxLife / SECOND * SECOND
  {
  }

  lemma CeilingWhole(t: Clock)
    ensures Cut(t + CEILING) == Cut(t) + CEILING
  {
  }

  lemma CannotEscape(s: State, c: Claims, at: Clock, later: Clock, ops: seq<Op>, maxLife: int, skew: int, gap: int,
                     n1: int, n2: int)
    requires maxLife < SECOND || maxLife / SECOND * SECOND + skew + gap <= CEILING
    ensures !Escapes(s, c, None, at, later, ops, maxLife, skew, gap, n1, n2)
  {
    hide Ordered, Norm, Full;
    if Escapes(s, c, None, at, later, ops, maxLife, skew, gap, n1, n2) {
      WholeLifetime(c, maxLife);
      WholeBelow(c.issuedAt, later);
      CeilingWhole(later);
      var e := Cut(later + CEILING);
      var t := Step(s, RevokeOp(c.tokenID, None, at, later));
      HeldAtOnce(s, c.tokenID, None, at, later);
      assert NotEarlier(ops, c.tokenID, e);
      RunHeld(t, ops, c.tokenID, e, later, n2);
      LifetimeAtLeast(c, maxLife);
    }
  }

  lemma LifetimeAtLeast(c: Claims, maxLife: int)
    requires Whole(c.issuedAt) && Whole(c.expiresAt) && 0 < c.expiresAt - c.issuedAt <= maxLife
    ensures maxLife >= SECOND
  {
  }

  lemma HeldAtOnce(s: State, id: seq<byte>, expires: Option<Time>, at: Clock, later: Clock)
    requires !Full(s.mem, RevokeOp(id, expires, at, later))
    ensures Held(Step(s, RevokeOp(id, expires, at, later)), id, Cut(Expiry(expires, later)), later)
  {
    hide Full;
    var t := Step(s, RevokeOp(id, expires, at, later));
    assert t.mem.ids[id] == Expiry(expires, later);
    assert t.disk.ids[id] == Cut(Expiry(expires, later));
  }

  /** The credential that comes back: issued and revoked at zero, it lives as long as it may. */
  lemma Returns(c: Claims, maxLife: int, skew: int, gap: int) returns (n1: int)
    requires |c.tokenID| == ID_SIZE && c.issuedAt == c.notBefore == 0 && c.expiresAt == maxLife / SECOND * SECOND
    requires SECOND <= maxLife <= CEILING && skew >= 0 && gap >= 0 && maxLife / SECOND * SECOND + skew + gap > CEILING
    ensures Escapes(State(Rev(map[], map[]), Rev(map[], map[])), c, None, 0, 0, [], maxLife, skew, gap, n1, CEILING)
  {
    var s := State(Rev(map[], map[]), Rev(map[], map[]));
    n1 := if gap <= CEILING then CEILING - gap else 0;
    var revoke := RevokeOp(c.tokenID, None, 0, 0);
    var t := Step(s, revoke);
    assert Pruned(s.mem.ids, 0) == map[];
    assert t.mem.ids == map[c.tokenID := CEILING] && t.mem.cutoffs == map[];
    assert Run(t, []) == t;
  }

  /** An id revoked with the default expiry stays out exactly when the longest whole-second lifetime,
      the skew and the time between the verifier's two clock readings fit into thirty days. */
  lemma RevokedIdStaysOut(maxLife: int, skew: int, gap: int)
    requires maxLife <= CEILING && skew >= 0 && gap >= 0
    ensures NeverAgain(maxLife, skew, gap) <==> maxLife < SECOND || maxLife / SECOND * SECOND + skew + gap <= CEILING
  {
    hide Escapes;
    if maxLife < SECOND || maxLife / SECOND * SECOND + skew + gap <= CEILING {
      forall s, c, at, later, ops, n1, n2 ensures !Escapes(s, c, None, at, later, ops, maxLife, skew, gap, n1, n2) {
        CannotEscape(s, c, at, later, ops, maxLife, skew, gap, n1, n2);
      }
    } else {
      var id: seq<byte> := [1, 2, 3, 4, 5, 6, 7, 8, 9, 10, 11, 12, 13, 14, 15, 16];
      var n1 := Returns(Claims(1, id, 0, 0, maxLife / SECOND * SECOND, [0x75], [], [], [], []), maxLife, skew, gap);
    }
  }

  // ---- an expiry of the caller's choice ----

  ghost predicate StaysOutUntil(c: Claims, e: Time, maxLife: int, skew: int, gap: int)
  {
    forall s, at, later, ops, n1, n2 :: !Escapes(s, c, Some(e), at, later, ops, maxLife, skew, gap, n1, n2)
  }

  /** The last instant at which the window still admits the credential. */
  function LastInstant(c: Claims, skew: int): int { c.expiresAt + skew - 1 }

  /** A credential revoked until e stays out, over every run, if and only if the verifier never admits it anyway or
      the whole second of e reaches its expiry, the skew and the time between the two clock readings. */
  lemma RevokedUntil(c: Claims, e: Time, maxLife: int, skew: int, gap: int, issued: Clock)
    requires |c.tokenID| == ID_SIZE && Whole(c.issuedAt) && Whole(c.expiresAt) && c.issuedAt == issued && skew >= 0
             && gap >= 0
    ensures StaysOutUntil(c, e, maxLife, skew, gap)
            <==> !InWindow(c, maxLife, skew, LastInstant(c, skew)) || Cut(e) >= c.expiresAt + skew + gap
  {
    hide Escapes, Cut;
    if !InWindow(c, maxLife, skew, LastInstant(c, skew)) || Cut(e) >= c.expiresAt + skew + gap {
      forall s, at, later, ops, n1, n2 ensures !Escapes(s, c, Some(e), at, later, ops, maxLife, skew, gap, n1, n2) {
        HeldLongEnough(s, c, e, at, later, ops, maxLife, skew, gap, n1, n2);
      }
    } else {
      ReturnsAfter(c, e, maxLife, skew, gap, issued);
    }
  }

  lemma HeldLongEnough(s: State, c: Claims, e: Time, at: Clock, later: Clock, ops: seq<Op>,
                       maxLife: int, skew: int, gap: int, n1: int, n2: int)
    requires !InWindow(c, maxLife, skew, LastInstant(c, skew)) || Cut(e) >= c.expiresAt + skew + gap
    ensures !Escapes(s, c, Some(e), at, later, ops, maxLife, skew, gap, n1, n2)
  {
    hide Ordered, Norm, Full, Run, Step;
    if Escapes(s, c, Some(e), at, later, ops, maxLife, skew, gap, n1, n2) {
      HeldAtOnce(s, c.tokenID, Some(e), at, later);
      RunHeld(Step(s, RevokeOp(c.tokenID, Some(e), at, later)), ops, c.tokenID, Cut(e), later, n2);
    }
  }

  /** Revoked when it was issued, and the set reloaded once: at the last instant it is let in again. */
  lemma ReturnsAfter(c: Claims, e: Time, maxLife: int, skew: int, gap: int, issued: Clock)
    requires |c.tokenID| == ID_SIZE && Whole(c.issuedAt) && Whole(c.expiresAt) && c.issuedAt == issued && skew >= 0
             && gap >= 0
    requires InWindow(c, maxLife, skew, LastInstant(c, skew)) && Cut(e) < c.expiresAt + skew + gap
    ensures Escapes(State(Rev(map[], map[]), Rev(map[], map[])), c, Some(e), issued, issued, [ReloadOp(issued)],
                    maxLife, skew, gap, LastInstant(c, skew), LastInstant(c, skew) + gap)
  {
    var s, revoke := State(Rev(map[], map[]), Rev(map[], map[])), RevokeOp(c.tokenID, Some(e), issued, issued);
    var t := Step(s, revoke);
    assert Pruned(s.mem.ids, issued) == map[];
    assert t.mem.ids == map[c.tokenID := e] && t.disk.ids[c.tokenID] == Cut(e) && t.disk.cutoffs == map[];
    var ops := [ReloadOp(issued)];
    assert ops[..0] == [] && ops[1..] == [] && Run(t, ops) == Step(t, ops[0]);
  }

  // ---- file ----

  /** "NSTR" and version 1. */
  const MAGIC: seq<byte> := [0x4e, 0x53, 0x54, 0x52, 1, 0]

  function FileCodec(): Codec<(seq<(seq<byte>, int)>, seq<(Str, int)>)>
  {
    Pair(List(4, MAX_IDS, Pair(Raw(ID_SIZE), Int64())), List(4, MAX_CUTOFFS, Pair(Text(MAX_PRINCIPAL), Int64())))
  }

  lemma FileLawful()
    ensures Lawful(FileCodec())
  {
    hide List, Pair, Raw, Int64, Text, Lawful;
    Pow256Values();
    RawLawful(ID_SIZE);
    Int64Lawful();
    TextLawful(MAX_PRINCIPAL);
    PairLawful(Raw(ID_SIZE), Int64());
    PairLawful(Text(MAX_PRINCIPAL), Int64());
    ListLawful(4, MAX_IDS, Pair(Raw(ID_SIZE), Int64()));
    ListLawful(4, MAX_CUTOFFS, Pair(Text(MAX_PRINCIPAL), Int64()));
    PairLawful(List(4, MAX_IDS, Pair(Raw(ID_SIZE), Int64())), List(4, MAX_CUTOFFS, Pair(Text(MAX_PRINCIPAL), Int64())));
  }

  /** The entries of a map in some order, times in seconds. */
  ghost predicate Lists<K>(xs: seq<(K, int)>, m: map<K, Time>)
  {
    if xs == [] then m == map[]
    else
      var last := xs[|xs| - 1];
      last.0 in m && last.1 == Unix(m[last.0]) && Lists(xs[..|xs| - 1], m - {last.0})
  }

  predicate Seconds<K>(xs: seq<(K, int)>) { forall i :: 0 <= i < |xs| ==> FitsI64(xs[i].1) }

  /** The map a decoder fills from entries: a later entry replaces an earlier one. */
  function Collect<K(==)>(xs: seq<(K, int)>): map<K, Time>
    requires Seconds(xs)
  {
    if xs == [] then map[] else Collect(xs[..|xs| - 1])[xs[|xs| - 1].0 := At(xs[|xs| - 1].1)]
  }

  function NormNames(xs: seq<(Str, int)>): seq<(Str, int)>
  {
    seq(|xs|, i requires 0 <= i < |xs| => (Norm(xs[i].0), xs[i].1))
  }

  predicate NoBlank(xs: seq<(Str, int)>) { forall i :: 0 <= i < |xs| ==> xs[i].0 != [] }

  function EncodeRevocations(ids: seq<(seq<byte>, int)>, cutoffs: seq<(Str, int)>): seq<byte>
  {
    MAGIC + FileCodec().enc((ids, cutoffs))
  }

  function DecodeRevocations(raw: seq<byte>): Option<Rev>
  {
    match WholeFile(MAGIC, FileCodec(), raw)
    case None => None
    case Some(f) =>
      var names := NormNames(f.1);
      if !Seconds(f.0) || !Seconds(names) || !NoBlank(names) then None else Some(Rev(Collect(f.0), Collect(names)))
  }

  /** What every set in memory satisfies. */
  ghost predicate ValidRev(r: Rev)
  {
    && |r.ids| <= MAX_IDS && |r.cutoffs| <= MAX_CUTOFFS
    && (forall id :: id in r.ids ==> |id| == ID_SIZE)
    && (forall p :: p in r.cutoffs ==> GoodName(p))
  }

  predicate GoodName(p: Str) { 1 <= |p| <= MAX_PRINCIPAL && Normal(p) }

  lemma {:induction false} ListFacts<K>(xs: seq<(K, int)>, m: map<K, Time>)
    requires Lists(xs, m)
    ensures |xs| == |m| && Seconds(xs) && forall i :: 0 <= i < |xs| ==> xs[i].0 in m
  {
    if xs != [] {
      var n := |xs| - 1;
      ListFacts(xs[..n], m - {xs[n].0});
      assert m.Keys == (m - {xs[n].0}).Keys + {xs[n].0};
      forall i | 0 <= i < |xs| ensures xs[i].0 in m && FitsI64(xs[i].1) {
        if i < n { assert xs[i] == xs[..n][i]; }
      }
    }
  }

  lemma {:induction false} CollectLists<K>(xs: seq<(K, int)>, m: map<K, Time>)
    requires Lists(xs, m) && Seconds(xs)
    ensures Collect(xs) == CutMap(m)
  {
    if xs != [] {
      var n := |xs| - 1;
      CollectLists(xs[..n], m - {xs[n].0});
      assert At(xs[n].1) == Cut(m[xs[n].0]);
    }
  }

  /** Whatever order the maps are walked in, the file decodes to the set with its times cut to seconds. */
  lemma FileRoundTrip(r: Rev, ids: seq<(seq<byte>, int)>, cutoffs: seq<(Str, int)>)
    requires ValidRev(r) && Lists(ids, r.ids) && Lists(cutoffs, r.cutoffs)
    ensures DecodeRevocations(EncodeRevocations(ids, cutoffs)) == Some(CutRev(r))
  {
    hide Lists, FileCodec, Collect, CutMap, Norm, Lawful;
    ListFacts(ids, r.ids);
    ListFacts(cutoffs, r.cutoffs);
    assert NormNames(cutoffs) == cutoffs;
    EntriesOk(ids, cutoffs);
    FileLawful();
    WholeFileExact(MAGIC, FileCodec(), EncodeRevocations(ids, cutoffs), (ids, cutoffs));
    CollectLists(ids, r.ids);
    CollectLists(cutoffs, r.cutoffs);
  }

  lemma EntriesOk(ids: seq<(seq<byte>, int)>, cutoffs: seq<(Str, int)>)
    requires |ids| <= MAX_IDS && |cutoffs| <= MAX_CUTOFFS && Seconds(ids) && Seconds(cutoffs)
    requires forall i :: 0 <= i < |ids| ==> |ids[i].0| == ID_SIZE
    requires forall i :: 0 <= i < |cutoffs| ==> GoodName(cutoffs[i].0)
    ensures FileCodec().ok((ids, cutoffs))
  {
    hide Norm;
    assert AllOk(Pair(Raw(ID_SIZE), Int64()), ids);
    assert AllOk(Pair(Text(MAX_PRINCIPAL), Int64()), cutoffs);
  }

  lemma CutValid(r: Rev)
    requires ValidRev(r)
    ensures ValidRev(CutRev(r))
  {
    hide Norm;
    SameSize(r.ids, CutMap(r.ids));
    SameSize(r.cutoffs, CutMap(r.cutoffs));
  }

  lemma StepValid(r: Rev, op: Op)
    requires ValidRev(r)
    ensures op.RevokeOp? ==> ValidRev(Rev(Pruned(r.ids, op.at), r.cutoffs))
    ensures op.RevokeOp? && |op.id| == ID_SIZE && !Full(r, op) ==>
              ValidRev(Rev(Pruned(r.ids, op.at)[op.id := Expiry(op.expires, op.later)], r.cutoffs))
    ensures op.PruneOp? ==> ValidRev(Rev(Pruned(r.ids, op.at), r.cutoffs))
    ensures op.PrincipalOp? && CutoffTaken(r, op) ==> ValidRev(Rev(r.ids, NewCutoffs(r, op)))
  {
    hide Norm;
    if op.RevokeOp? {
      PrunedSmaller(r.ids, op.at);
      AddedSize(Pruned(r.ids, op.at), op.id, Expiry(op.expires, op.later));
    } else if op.PruneOp? {
      PrunedSmaller(r.ids, op.at);
    } else if op.PrincipalOp? {
      NormFixed(op.principal);
      AddedSize(r.cutoffs, Norm(op.principal), if op.before.Some? then op.before.value else op.at);
    }
  }

  lemma AddedSize<K>(m: map<K, Time>, k: K, t: Time)
    ensures |m[k := t]| == if k in m then |m| else |m| + 1
  {
    assert m[k := t].Keys == m.Keys + {k};
    assert |m[k := t]| == |m[k := t].Keys| && |m| == |m.Keys|;
  }

  // ---- the object ----

  class TokenRevocations {
    var ids: map<seq<byte>, Time>
    var cutoffs: map<Str, Time>
    var file: seq<byte>

    ghost predicate Valid()
      reads this
    {
      ValidRev(Rev(ids, cutoffs)) && DecodeRevocations(file).Some? && ValidRev(DecodeRevocations(file).value)
    }

    ghost function Contents(): State
      reads this
      requires Valid()
    {
      State(Rev(ids, cutoffs), DecodeRevocations(file).value)
    }

    constructor ()
      ensures Valid() && Contents() == Persisted(Rev(map[], map[]))
    {
      ids, cutoffs := map[], map[];
      new;
      Persist();
    }

    method Persist()
      requires ValidRev(Rev(ids, cutoffs))
      modifies this`file
      ensures Valid() && Contents() == Persisted(Rev(ids, cutoffs))
    {
      hide DecodeRevocations, EncodeRevocations, Lists, CutMap, ValidRev;
      var idList := Walk(ids);
      var cutList := Walk(cutoffs);
      file := EncodeRevocations(idList, cutList);
      FileRoundTrip(Rev(ids, cutoffs), idList, cutList);
      CutValid(Rev(ids, cutoffs));
    }

    method Revoke(id: seq<byte>, expires: Option<Time>, at: Clock, later: Clock) returns (ok: bool)
      requires Valid() && |id| == ID_SIZE
      modifies this
      ensures Valid() && Contents() == Step(old(Contents()), RevokeOp(id, expires, at, later))
      ensures ok == !Full(old(Contents()).mem, RevokeOp(id, expires, at, later))
    {
      hide DecodeRevocations, CutMap, ValidRev, Pruned;
      StepValid(Rev(ids, cutoffs), RevokeOp(id, expires, at, later));
      ids := PruneMap(ids, at);
      if id !in ids && |ids| >= MAX_IDS { return false; }
      ids := ids[id := if expires.Some? then expires.value else later + CEILING];
      Persist();
      return true;
    }

    method RevokePrincipal(principal: Str, before: Option<Time>, at: Clock) returns (ok: bool)
      requires Valid()
      modifies this
      ensures Valid() && Contents() == Step(old(Contents()), PrincipalOp(principal, before, at))
      ensures ok == CutoffTaken(old(Contents()).mem, PrincipalOp(principal, before, at))
    {
      hide DecodeRevocations, CutMap, Norm, ValidRev;
      StepValid(Rev(ids, cutoffs), PrincipalOp(principal, before, at));
      var name := Norm(principal);
      if name == [] || |name| > MAX_PRINCIPAL { return false; }
      var when: Time := if before.Some? then before.value else at;
      if name !in cutoffs && |cutoffs| >= MAX_CUTOFFS { return false; }
      if name !in cutoffs || when > cutoffs[name] {
        cutoffs := cutoffs[name := when];
      }
      Persist();
      return true;
    }

    method Prune(at: Clock)
      requires Valid()
      modifies this
      ensures Valid() && Contents() == Step(old(Contents()), PruneOp(at))
    {
      hide DecodeRevocations, CutMap, ValidRev, Pruned;
      StepValid(Rev(ids, cutoffs), PruneOp(at));
      var before := |ids|;
      ids := PruneMap(ids, at);
      if |ids| == before {
        SameWhenSameSize(old(ids), at);
        return;
      }
      Persist();
    }

    method Reload(at: Clock)
      requires Valid()
      modifies this
      ensures Valid() && Contents() == Step(old(Contents()), ReloadOp(at))
    {
      hide DecodeRevocations, ValidRev, CutMap;
      var r := DecodeRevocations(file);
      if r.Some? { ids, cutoffs := r.value.ids, r.value.cutoffs; }
    }
  }

  /** Deletes, one by one and in any order, the ids whose expiry has passed. */
  method PruneMap(ids: map<seq<byte>, Time>, now: Clock) returns (left: map<seq<byte>, Time>)
    ensures left == Pruned(ids, now)
  {
    left := ids;
    var todo := ids.Keys;
    while todo != {}
      invariant todo <= left.Keys <= ids.Keys
      invariant left == PrunedExcept(ids, now, todo)
      decreases todo
    {
      var id :| id in todo;
      if now >= ids[id] { left := left - {id}; }
      todo := todo - {id};
    }
  }

  /** Pruned everywhere but on the keys still to visit. */
  ghost function PrunedExcept(ids: map<seq<byte>, Time>, now: Clock, todo: set<seq<byte>>): map<seq<byte>, Time>
  {
    map id | id in ids && (id in todo || now < ids[id]) :: ids[id]
  }

  lemma SameSize<K>(a: map<K, Time>, b: map<K, Time>)
    requires a.Keys == b.Keys
    ensures |a| == |b|
  {
    assert |a| == |a.Keys| && |b| == |b.Keys|;
  }

  lemma PrunedSmaller(ids: map<seq<byte>, Time>, now: Clock)
    ensures |Pruned(ids, now)| <= |ids|
  {
    assert Pruned(ids, now).Keys <= ids.Keys;
    SubsetSize(Pruned(ids, now).Keys, ids.Keys);
    assert |Pruned(ids, now)| == |Pruned(ids, now).Keys| && |ids| == |ids.Keys|;
  }

  lemma {:induction false} SubsetSize<K>(a: set<K>, b: set<K>)
    requires a <= b
    ensures |a| <= |b| && (|a| == |b| ==> a == b)
  {
    if a != {} {
      var x :| x in a;
      SubsetSize(a - {x}, b - {x});
    }
  }

  lemma SameWhenSameSize(ids: map<seq<byte>, Time>, now: Clock)
    requires |Pruned(ids, now)| == |ids|
    ensures Pruned(ids, now) == ids
  {
    SubsetSize(Pruned(ids, now).Keys, ids.Keys);
    assert |Pruned(ids, now)| == |Pruned(ids, now).Keys| && |ids| == |ids.Keys|;
  }

  /** Writes a map's entries in whatever order it is walked. */
  method Walk<K(==)>(m: map<K, Time>) returns (xs: seq<(K, int)>)
    ensures Lists(xs, m)
  {
    xs := [];
    var todo := m.Keys;
    while todo != {}
      invariant todo <= m.Keys && Lists(xs, m - todo)
      decreases todo
    {
      var k :| k in todo;
      assert m - (todo - {k}) - {k} == m - todo;
      var next := xs + [(k, Unix(m[k]))];
      assert next[..|next| - 1] == xs;
      xs := next;
      todo := todo - {k};
    }
    assert m - {} == m;
  }
}
