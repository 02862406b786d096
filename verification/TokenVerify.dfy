/** Minting and verifying short-lived credentials. */
module TokenVerify {
  import opened Bytes
  import opened TokenText
  import opened TokenClaims
  import opened TokenKeys
  import R = Revocations

  const DEFAULT_LIFETIME := 86_400 * SECOND
  const SKEW := 60 * SECOND

  datatype MintRequest = MintRequest(principal: Str, audience: Str, database: Str, realm: Str, roles: seq<Str>,
      ttl: int, notBefore: Option<Time>)

  /** The claims Mint signs: all times on whole seconds. */
  function ClaimsOf(req: MintRequest, keyID: nat, now: R.Clock, id: seq<byte>): Claims
    requires 0 < req.ttl <= R.CEILING
  {
    var notBefore: Time := if req.notBefore.Some? then req.notBefore.value else now;
    Claims(keyID, id, Cut(now), Cut(notBefore), Cut(Cut(now) + req.ttl),
           req.principal, req.audience, req.database, req.realm, req.roles)
  }

  function Mint(e: Ed25519, keys: seq<TokenKey>, req: MintRequest, now: R.Clock, id: seq<byte>): Option<(string, Time)>
  {
    if req.ttl <= 0 || req.ttl > R.CEILING then None
    else
      var signer := SignerOf(keys);
      if signer.None? then None
      else
        var claims := ClaimsOf(req, signer.value.1, now, id);
        match EncodeTokenClaims(claims)
        case None => None
        case Some(signed) => Some((EncodeToken(signed, e.sign(signer.value.0, signed)), claims.expiresAt))
  }

  datatype Verifier = Verifier(audience: Str, maxLife: int, skew: int)

  function NewVerifier(audience: Str): Verifier { Verifier(Norm(audience), DEFAULT_LIFETIME, SKEW) }

  function SetMaxLifetime(v: Verifier, d: int): Verifier
  {
    if d <= 0 then v else v.(maxLife := if d > R.CEILING then R.CEILING else d)
  }

  predicate AudienceMatches(v: Verifier, c: Claims)
  {
    v.audience != [] ==> ToLower(Norm(c.audience)) == ToLower(v.audience)
  }

  /** The verifier reads its own clock, and the revocation set reads the clock again. */
  function Verify(e: Ed25519, v: Verifier, keys: seq<TokenKey>, rev: Option<R.Rev>, token: string, n1: int,
                  n2: int): Option<Claims>
  {
    match SplitToken(token)
    case None => None
    case Some(parts) =>
      match DecodeTokenClaims(parts.0)
      case None => None
      case Some(c) =>
        match VerifierOf(keys, c.keyID)
        case None => None
        case Some(public) =>
          if !e.verify(public, parts.0, parts.1) then None
          else if !R.InWindow(c, v.maxLife, v.skew, n1) || !AudienceMatches(v, c) then None
          else if rev.Some? && R.IsRevoked(rev.value, c, n2) then None
          else Some(c)
  }

  // ---- a minted credential ----

  lemma MintedTimes(req: MintRequest, keyID: nat, now: R.Clock, id: seq<byte>)
    requires 0 < req.ttl <= R.CEILING
    ensures var c := ClaimsOf(req, keyID, now, id);
            c.expiresAt - c.issuedAt == req.ttl / SECOND * SECOND
            && Cut(c.issuedAt) == c.issuedAt && Cut(c.notBefore) == c.notBefore && Cut(c.expiresAt) == c.expiresAt
  {
  }

  lemma FoldedAudience(v: Verifier, a: Str)
    requires Normal(v.audience)
    ensures ToLower(Norm(a)) == ToLower(v.audience) <==> Norm(a) == v.audience
  {
    assert ToLower(Norm(a)) == Norm(a);
    assert ToLower(v.audience) == v.audience;
  }

  /** A good keyset never refuses for want of a key: Mint fails only on the request itself. */
  lemma MintSucceeds(e: Ed25519, keys: seq<TokenKey>, req: MintRequest, now: R.Clock, id: seq<byte>)
    requires Good(e, keys) && |id| == ID_SIZE
    ensures Mint(e, keys, req, now, id).Some? <==>
              && 0 < req.ttl <= R.CEILING
              && 1 <= |Norm(req.principal)| <= MAX_PRINCIPAL && |Norm(req.audience)| <= MAX_SCOPE
              && |Norm(req.database)| <= MAX_SCOPE && |Norm(req.realm)| <= MAX_SCOPE && RolesAcceptable(req.roles)
  {
    hide SignerOf, VerifierOf, Norm, Dedup, RolesAcceptable, EncodeTokenClaims, EncodeToken;
    AlwaysSigns(e, keys);
    if 0 < req.ttl <= R.CEILING { EncodesOnlyEncodable(ClaimsOf(req, SignerOf(keys).value.1, now, id)); }
  }

  /** When the verifier takes a credential minted at `now`, long before or after rotations. */
  ghost predicate Accepted(v: Verifier, keys: seq<TokenKey>, rev: Option<R.Rev>, req: MintRequest, c: Claims, n1: int,
                           n2: int)
    requires 1 <= c.keyID <= |keys|
  {
    && !keys[c.keyID - 1].retired
    && req.ttl >= SECOND && req.ttl / SECOND * SECOND <= v.maxLife
    && n1 + v.skew >= c.notBefore && n1 - v.skew < c.expiresAt
    && (v.audience != [] ==> Norm(req.audience) == v.audience)
    && !(rev.Some? && R.IsRevoked(rev.value, c, n2))
  }

  /** Between any two states of a keyset, a credential minted in the first verifies in the second to its
      normalised claims exactly while its key is live, its lifetime is admitted, the clock is in its
      skewed window, the audience matches and it is not revoked; nothing else gets in its way. */
  lemma MintedVerifies(e: Ed25519, v: Verifier, keys: seq<TokenKey>, ops: seq<Op>, rev: Option<R.Rev>,
                       req: MintRequest, now: R.Clock, id: seq<byte>, n1: int, n2: int)
    requires Correct(e) && Good(e, keys) && Normal(v.audience)
    requires forall i :: 0 <= i < |ops| && ops[i].AddOp? ==> |ops[i].seed| == KEY_SIZE
    requires |id| == ID_SIZE && Mint(e, keys, req, now, id).Some?
    ensures var c := Normalised(ClaimsOf(req, SignerOf(keys).value.1, now, id));
            var later := Run(e, keys, ops);
            && 1 <= c.keyID <= |keys| <= |later|
            && Verify(e, v, later, rev, Mint(e, keys, req, now, id).value.0, n1, n2)
                 == if Accepted(v, later, rev, req, c, n1, n2) then Some(c) else None
  {
    hide Good, Correct, SignerOf, VerifierOf, EncodeTokenClaims, DecodeTokenClaims, EncodeToken, SplitToken, Norm,
        Dedup, R.IsRevoked, Run;
    AlwaysSigns(e, keys);
    var seed, keyID := SignerOf(keys).value.0, SignerOf(keys).value.1;
    var raw := ClaimsOf(req, keyID, now, id);
    var c, later := Normalised(raw), Run(e, keys, ops);
    MintedTimes(req, keyID, now, id);
    assert Encodable(raw) by { EncodesOnlyEncodable(raw); }
    ClaimsRoundTrip(raw);
    var signed := EncodeTokenClaims(raw).value;
    SignsAndVerifies(e, seed, signed);
    TokenRoundTrip(signed, e.sign(seed, signed));
    RunKeeps(e, keys, ops);
    LaterVerifier(e, later, keyID);
    assert later[keyID - 1].public == e.public(seed);
    NormFixed(req.audience);
    FoldedAudience(v, c.audience);
    WindowOf(req, c, v.maxLife, v.skew, n1);
  }

  lemma EncodesOnlyEncodable(c: Claims)
    ensures EncodeTokenClaims(c).Some? <==> Encodable(c)
  {
  }

  lemma SignsAndVerifies(e: Ed25519, seed: seq<byte>, m: seq<byte>)
    requires Correct(e)
    ensures |e.sign(seed, m)| == SIG_SIZE && e.verify(e.public(seed), m, e.sign(seed, m))
  {
  }

  lemma LaterVerifier(e: Ed25519, keys: seq<TokenKey>, id: nat)
    requires Good(e, keys) && 1 <= id <= |keys|
    ensures VerifierOf(keys, id) == if keys[id - 1].retired then None else Some(keys[id - 1].public)
  {
    VerifierAt(keys, 0, id - 1);
  }

  lemma WindowOf(req: MintRequest, c: Claims, maxLife: int, skew: int, n1: int)
    requires c.expiresAt - c.issuedAt == req.ttl / SECOND * SECOND && req.ttl > 0
    ensures R.InWindow(c, maxLife, skew, n1) <==>
              req.ttl >= SECOND && req.ttl / SECOND * SECOND <= maxLife && n1 + skew >= c.notBefore
                  && n1 - skew < c.expiresAt
  {
  }

  /** What Mint reports is the expiry the verifier enforces, at most the TTL after the minting clock. */
  lemma MintExpiry(e: Ed25519, keys: seq<TokenKey>, req: MintRequest, now: R.Clock, id: seq<byte>)
    ensures var minted := Mint(e, keys, req, now, id);
            minted.Some? ==> now + req.ttl - 2 * SECOND < minted.value.1 <= now + req.ttl && Whole(minted.value.1)
  {
    hide SignerOf, EncodeTokenClaims, EncodeToken;
  }

  // ---- revoked credentials ----

  /** A token id was revoked with the default expiry, the revocation set went on through any operations, and yet the
      verifier returns claims with that id. */
  ghost predicate Readmits(e: Ed25519, v: Verifier, keys: seq<TokenKey>, s: R.State, c: Claims, at: R.Clock,
                           later: R.Clock, ops: seq<R.Op>, token: string, gap: int, n1: int, n2: int)
  {
    var revoke := R.RevokeOp(c.tokenID, None, at, later);
    && |c.tokenID| == ID_SIZE && c.issuedAt <= later && at <= later && !R.Full(s.mem, revoke)
    && R.Ordered(later, ops, n2) && R.NotEarlier(ops, c.tokenID, later + R.CEILING) && later <= n1 <= n2 <= n1 + gap
    && Verify(e, v, keys, Some(R.Run(R.Step(s, revoke), ops).mem), token, n1, n2) == Some(c)
  }

  ghost predicate StaysOut(e: Ed25519, v: Verifier, keys: seq<TokenKey>, gap: int)
  {
    forall s, c, at, later, ops, token, n1, n2 :: !Readmits(e, v, keys, s, c, at, later, ops, token, gap, n1, n2)
  }

  /** The longest lifetime the verifier admits, its skew and the time between its two clock readings fit into the
      thirty days a revocation is kept. */
  predicate LeavesRoom(v: Verifier, gap: int)
  {
    v.maxLife < SECOND || v.maxLife / SECOND * SECOND + v.skew + gap <= R.CEILING
  }

  predicate Configured(v: Verifier) { v.maxLife <= R.CEILING && v.skew >= 0 }

  /** Over every run of the revocation set, a verifier that leaves room for it never again returns claims whose token
      id was revoked. */
  lemma RevokedNeverVerifies(e: Ed25519, v: Verifier, keys: seq<TokenKey>, s: R.State, c: Claims, at: R.Clock,
                             later: R.Clock, ops: seq<R.Op>, token: string, gap: int, n1: int, n2: int)
    requires Configured(v) && gap >= 0 && LeavesRoom(v, gap)
    ensures !Readmits(e, v, keys, s, c, at, later, ops, token, gap, n1, n2)
  {
    hide SplitToken, R.Run, R.Step, R.Full, R.Ordered, R.NotEarlier, R.IsRevoked, R.Escapes, DecodeTokenClaims,
        R.NeverAgain;
    if Readmits(e, v, keys, s, c, at, later, ops, token, gap, n1, n2) {
      R.RevokedIdStaysOut(v.maxLife, v.skew, gap);
      DecodedWhole(SplitToken(token).value.0);
      CaughtByRevocation(s, c, at, later, ops, v.maxLife, v.skew, gap, n1, n2);
    }
  }

  function RevokedRequest(v: Verifier): MintRequest
  {
    MintRequest([0x75], v.audience, [], [], [], v.maxLife, None)
  }

  /** Otherwise a credential minted with the longest lifetime and revoked the same second comes back. */
  lemma RevokedComesBack(e: Ed25519, v: Verifier, keys: seq<TokenKey>, gap: int, id: seq<byte>)
    returns (c: Claims, token: string, n1: int)
    requires Correct(e) && Good(e, keys) && Normal(v.audience) && |v.audience| <= MAX_SCOPE && |id| == ID_SIZE
    requires Configured(v) && gap >= 0 && !LeavesRoom(v, gap)
    ensures Readmits(e, v, keys, R.State(R.Rev(map[], map[]), R.Rev(map[], map[])), c, 0, 0, [], token, gap,
                     n1, R.CEILING)
  {
    hide Good, Correct, SignerOf, Norm, Dedup, Run, Mint, Verify;
    var req := RevokedRequest(v);
    AlwaysSigns(e, keys);
    NormFixed(v.audience);
    RequestFits(v);
    MintSucceeds(e, keys, req, 0, id);
    token := Mint(e, keys, req, 0, id).value.0;
    c := Normalised(ClaimsOf(req, SignerOf(keys).value.1, 0, id));
    MintedTimes(req, SignerOf(keys).value.1, 0, id);
    n1 := R.Returns(c, v.maxLife, v.skew, gap);
    var start := R.State(R.Rev(map[], map[]), R.Rev(map[], map[]));
    var rev := R.Run(R.Step(start, R.RevokeOp(c.tokenID, None, 0, 0)), []).mem;
    MintedVerifies(e, v, keys, [], Some(rev), req, 0, id, n1, R.CEILING);
    LaterVerifier(e, keys, c.keyID);
    NoOps(e, keys);
  }

  lemma NoOps(e: Ed25519, keys: seq<TokenKey>)
    ensures Run(e, keys, []) == keys
  {
  }

  lemma RequestFits(v: Verifier)
    ensures 1 <= |Norm([0x75])| <= MAX_PRINCIPAL && |Norm([])| <= MAX_SCOPE && RolesAcceptable([])
  {
  }

  /** A verifier keeps revoked ids out, over every run of the revocation set, if and only if it leaves room. */
  lemma RevokedStaysOut(e: Ed25519, v: Verifier, keys: seq<TokenKey>, gap: int)
    requires Correct(e) && Good(e, keys) && Normal(v.audience) && |v.audience| <= MAX_SCOPE && Configured(v) && gap >= 0
    ensures StaysOut(e, v, keys, gap) <==> LeavesRoom(v, gap)
  {
    hide Good, Correct, Readmits, LeavesRoom;
    if LeavesRoom(v, gap) {
      forall s, c, at, later, ops, token, n1, n2
          ensures !Readmits(e, v, keys, s, c, at, later, ops, token, gap, n1, n2) {
        RevokedNeverVerifies(e, v, keys, s, c, at, later, ops, token, gap, n1, n2);
      }
    } else {
      var c, token, n1 := RevokedComesBack(e, v, keys, gap, [1, 2, 3, 4, 5, 6, 7, 8, 9, 10, 11, 12, 13, 14, 15, 16]);
    }
  }

  /** Every verifier that can be configured: the default leaves room for readings up to twenty-nine days less a minute
      apart, and one set to the ceiling, or to within a minute of it, for none at all. */
  lemma ConfiguredVerifiers(audience: Str, d: int, gap: int)
    requires gap >= 0
    ensures var v := SetMaxLifetime(NewVerifier(audience), d);
            && Configured(v) && v.audience == Norm(audience)
            && (d <= 0 ==> (LeavesRoom(v, gap) <==> gap <= 29 * 86_400 * SECOND - SKEW))
            && (d >= R.CEILING - SKEW + SECOND ==> !LeavesRoom(v, gap))
            && (SECOND <= d <= R.CEILING - SKEW ==> LeavesRoom(v, 0))
  {
    hide Norm;
  }

  lemma DecodedWhole(raw: seq<byte>)
    requires DecodeTokenClaims(raw).Some?
    ensures Whole(DecodeTokenClaims(raw).value.issuedAt) && Whole(DecodeTokenClaims(raw).value.expiresAt)
  {
  }

  lemma CaughtByRevocation(s: R.State, c: Claims, at: R.Clock, later: R.Clock, ops: seq<R.Op>, maxLife: int, skew: int,
                           gap: int, n1: int, n2: int)
    requires R.NeverAgain(maxLife, skew, gap)
    requires |c.tokenID| == ID_SIZE && c.issuedAt <= later && at <= later
             && !R.Full(s.mem, R.RevokeOp(c.tokenID, None, at, later))
    requires R.Ordered(later, ops, n2) && R.NotEarlier(ops, c.tokenID, later + R.CEILING)
             && later <= n1 <= n2 <= n1 + gap
    requires Whole(c.issuedAt) && Whole(c.expiresAt) && R.InWindow(c, maxLife, skew, n1)
    ensures R.IsRevoked(R.Run(R.Step(s, R.RevokeOp(c.tokenID, None, at, later)), ops).mem, c, n2)
  {
    hide R.Run, R.Step, R.Full, R.Ordered, R.NotEarlier, R.IsRevoked;
    assert !R.Escapes(s, c, None, at, later, ops, maxLife, skew, gap, n1, n2);
  }

  /** Revoking a credential until the expiry Mint reported is not enough: whatever the set held, at that very instant
      the verifier takes it again, and goes on for the length of its skew. */
  lemma RevokedUntilExpiry(e: Ed25519, v: Verifier, keys: seq<TokenKey>, s: R.State, req: MintRequest, now: R.Clock,
                           id: seq<byte>, c: Claims, at: R.Clock, later: R.Clock, n: int)
    requires Correct(e) && Good(e, keys) && Normal(v.audience) && Norm(req.audience) == v.audience && |id| == ID_SIZE
    requires Mint(e, keys, req, now, id).Some? && req.ttl >= SECOND && req.ttl / SECOND * SECOND <= v.maxLife
    requires SignerOf(keys).Some? && c == Normalised(ClaimsOf(req, SignerOf(keys).value.1, now, id))
    requires c.notBefore <= c.expiresAt <= n < c.expiresAt + v.skew
    requires !R.Full(s.mem, R.RevokeOp(id, Some(c.expiresAt), at, later)) && !R.CutoffRevoked(s.mem, c)
    ensures c.expiresAt == Mint(e, keys, req, now, id).value.1
    ensures var rev := R.Step(s, R.RevokeOp(id, Some(c.expiresAt), at, later)).mem;
            Verify(e, v, keys, Some(rev), Mint(e, keys, req, now, id).value.0, n, n) == Some(c)
  {
    hide Good, Correct, SignerOf, Norm, Dedup, Run, Verify, EncodeTokenClaims, EncodeToken, R.Full, R.Pruned;
    AlwaysSigns(e, keys);
    MintedTimes(req, SignerOf(keys).value.1, now, id);
    var rev := R.Step(s, R.RevokeOp(id, Some(c.expiresAt), at, later)).mem;
    MintedVerifies(e, v, keys, [], Some(rev), req, now, id, n, n);
    LaterVerifier(e, keys, c.keyID);
    NoOps(e, keys);
    NormFixed(req.audience);
  }
}
