/** Token exchange: from a verified identity-provider token to a minted credential. */
module Exchange {
  import opened Bytes
  import opened TokenText
  import opened TokenClaims
  import opened TokenKeys
  import opened TokenVerify
  import opened Policy
  import opened RoleMapping
  import Json
  import R = Revocations

  /** The just-in-time switch is on and a provisioner is present, or not. */
  datatype Config = Config(audience: Str, ttl: int, jit: bool, boundary: seq<Str>)

  /** A time on a whole second, as `time.Unix(s, 0)` makes it. */
  type Second = t: Time | Whole(t) witness 0

  /** The verified identity-provider token. Whether read from its claims or from an introspection answer, its expiry
      is a whole second. */
  datatype IdToken = IdToken(issuer: Str, claims: map<Str, Claim>, expiry: Second)

  datatype Request = Request(database: Str, realm: Str)

  /** The answer of the membership feed, when there is one. */
  datatype Members = NotWired | LookupFailed | Held(roles: seq<Str>)

  datatype Grant = Grant(credential: string, principal: Str, roles: seq<Str>, expiresAt: Time, jit: bool)

  // ---- the role boundary ----

  const ADMIN: Str := [0x61, 0x64, 0x6d, 0x69, 0x6e]
  const CLUSTER_ADMIN: Str := [0x63, 0x6c, 0x75, 0x73, 0x74, 0x65, 0x72, 0x5f, 0x61, 0x64, 0x6d, 0x69, 0x6e]
  const SUPERUSER: Str := [0x73, 0x75, 0x70, 0x65, 0x72, 0x75, 0x73, 0x65, 0x72]
  const OPERATOR: Str := [0x6f, 0x70, 0x65, 0x72, 0x61, 0x74, 0x6f, 0x72]

  function Normals(rs: seq<Str>): set<Str> { set i | 0 <= i < |rs| :: Norm(rs[i]) }

  predicate InBoundary(boundary: seq<Str>, r: Str)
  {
    if boundary != [] then r in Normals(boundary) else r !in [ADMIN, CLUSTER_ADMIN, SUPERUSER, OPERATOR]
  }

  function Insert(x: Str, rs: seq<Str>): (out: seq<Str>)
    ensures |out| == |rs| + 1 && forall y :: y in out <==> y == x || y in rs
  {
    if rs == [] then [x]
    else if Json.LexLess(x, rs[0]) then [x] + rs
    else
      assert forall y :: y in rs <==> y == rs[0] || y in rs[1..];
      [rs[0]] + Insert(x, rs[1..])
  }

  function SortRoles(rs: seq<Str>): (out: seq<Str>)
    ensures |out| == |rs| && forall y :: y in out <==> y in rs
  {
    if rs == [] then []
    else
      assert forall y :: y in rs <==> y == rs[0] || y in rs[1..];
      Insert(rs[0], SortRoles(rs[1..]))
  }

  ghost predicate Ascending(rs: seq<Str>) { forall i, j :: 0 <= i < j < |rs| ==> Json.LexLess(rs[i], rs[j]) }

  lemma {:induction false} InsertAscending(x: Str, rs: seq<Str>)
    requires Ascending(rs) && x !in rs
    ensures Ascending(Insert(x, rs))
  {
    if rs == [] {
    } else if Json.LexLess(x, rs[0]) {
      forall j | 0 <= j < |rs| ensures Json.LexLess(x, rs[j]) {
        if j > 0 { Json.LexTransitive(x, rs[0], rs[j]); }
      }
    } else {
      InsertAscending(x, rs[1..]);
      Json.LexTotal(x, rs[0]);
      var r := Insert(x, rs[1..]);
      forall j | 0 <= j < |r| ensures Json.LexLess(rs[0], r[j]) {
        assert r[j] in r;
        if r[j] != x {
          var k :| 0 <= k < |rs[1..]| && rs[1..][k] == r[j];
          assert Json.LexLess(rs[0], rs[k + 1]);
        }
      }
    }
  }

  lemma {:induction false} SortAscending(rs: seq<Str>)
    requires NoDuplicates(rs)
    ensures Ascending(SortRoles(rs)) && NoDuplicates(SortRoles(rs))
  {
    if rs != [] {
      SortAscending(rs[1..]);
      assert rs[0] !in rs[1..];
      InsertAscending(rs[0], SortRoles(rs[1..]));
    }
    var out := SortRoles(rs);
    forall i, j | 0 <= i < j < |out| ensures out[i] != out[j] { Json.LexTotal(out[i], out[j]); }
  }

  function Bounded(cfg: Config, mapped: seq<Str>): seq<Str>
  {
    SortRoles(Select(mapped, r => InBoundary(cfg.boundary, r)))
  }

  /** applyRoleBoundary: the boundary set, the filtering loop, the final sort. */
  method ApplyRoleBoundary(cfg: Config, mapped: seq<Str>) returns (out: seq<Str>)
    ensures out == Bounded(cfg, mapped)
  {
    hide Norm, Select, SortRoles;
    var keep := r => InBoundary(cfg.boundary, r);
    SelectNone(keep);
    if mapped == [] {
      SortNone();
      return [];
    }
    var boundary: set<Str> := {};
    for i := 0 to |cfg.boundary|
      invariant boundary == Normals(cfg.boundary[..i])
    {
      NextNormal(cfg.boundary, i);
      boundary := boundary + {Norm(cfg.boundary[i])};
    }
    assert cfg.boundary[..|cfg.boundary|] == cfg.boundary;
    NonEmptyBoundary(cfg.boundary);
    var explicit := |boundary| > 0;
    var allowed: seq<Str>, seen: set<Str> := [], {};
    for i := 0 to |mapped|
      invariant Tracks(allowed, seen, mapped[..i], keep)
    {
      var r := Norm(mapped[i]);
      SelectSnoc(mapped[..i], mapped[i], keep);
      assert mapped[..i + 1] == mapped[..i] + [mapped[i]];
      if r == [] || r in seen { continue; }
      if explicit {
        if r in boundary {
          allowed, seen := allowed + [r], seen + {r};
        }
      } else if r !in [ADMIN, CLUSTER_ADMIN, SUPERUSER, OPERATOR] {
        allowed, seen := allowed + [r], seen + {r};
      }
    }
    assert mapped[..|mapped|] == mapped;
    return SortRoles(allowed);
  }

  lemma SortNone()
    ensures SortRoles([]) == []
  {
  }

  lemma NextNormal(rs: seq<Str>, i: nat)
    requires i < |rs|
    ensures Normals(rs[..i + 1]) == Normals(rs[..i]) + {Norm(rs[i])}
  {
    hide Norm;
    var next, prev := rs[..i + 1], rs[..i];
    forall x | x in Normals(prev) ensures x in Normals(next) {
      var k :| 0 <= k < |prev| && Norm(prev[k]) == x;
      assert Norm(next[k]) == x;
    }
    forall x | x in Normals(next) ensures x in Normals(prev) || x == Norm(rs[i]) {
      var k :| 0 <= k < |next| && Norm(next[k]) == x;
      if k < i { assert Norm(prev[k]) == x; }
    }
    assert Norm(next[i]) == Norm(rs[i]);
  }

  lemma NonEmptyBoundary(rs: seq<Str>)
    ensures |Normals(rs)| > 0 <==> rs != []
  {
    if rs != [] { assert Norm(rs[0]) in Normals(rs); }
  }

  /** Just-in-time roles: mapped, inside the boundary, sorted and distinct, and all of those. */
  lemma BoundedRoles(cfg: Config, mapped: seq<Str>)
    requires GoodRoles(mapped)
    ensures var out := Bounded(cfg, mapped);
            && GoodRoles(out) && Ascending(out)
            && forall x :: x in out <==> x in mapped && InBoundary(cfg.boundary, x)
  {
    hide Norm, Select, Among, InBoundary, Filter, SortRoles;
    var keep := r => InBoundary(cfg.boundary, r);
    var kept := Select(mapped, keep);
    SelectIsFilter(mapped, keep);
    SelectFacts(mapped, keep);
    SortAscending(kept);
    var out := SortRoles(kept);
    assert out == Bounded(cfg, mapped);
    forall i | 0 <= i < |out| ensures GoodRole(out[i]) {
      assert out[i] in out;
      var k :| 0 <= k < |kept| && kept[k] == out[i];
      assert GoodRole(kept[k]);
    }
    forall x ensures x in out <==> x in mapped && InBoundary(cfg.boundary, x) {
      if x in mapped {
        var i :| 0 <= i < |mapped| && mapped[i] == x;
        assert GoodRole(mapped[i]);
        AmongIntro(x, mapped, i);
      }
      if x in kept { AmongGood(x, mapped); }
    }
  }

  // ---- exchange ----

  /** The roles a credential will carry and whether they were provisioned; None when denied. */
  function EffectiveRoles(cfg: Config, members: Members, provisioned: bool, mapped: seq<Str>): Option<(seq<Str>, bool)>
  {
    match members
    case NotWired => Some((mapped, false))
    case LookupFailed => None
    case Held(held) =>
      if held == [] && cfg.jit then
        var bounded := Bounded(cfg, mapped);
        if bounded == [] || !provisioned then None else Some((bounded, true))
      else
        var roles := Select(mapped, r => r in HeldSet(held));
        if roles == [] then None else Some((roles, false))
  }

  /** min(configured TTL, time until the identity-provider token expires) */
  function MintTTL(cfg: Config, expiry: Time, now: R.Clock): int
  {
    if expiry - now < cfg.ttl then expiry - now else cfg.ttl
  }

  function RequestOf(cfg: Config, req: Request, principal: Str, roles: seq<Str>, ttl: int): MintRequest
  {
    MintRequest(principal, cfg.audience, Trim(req.database), Trim(req.realm), roles, ttl, None)
  }

  /** What follows the verification of the identity-provider token. The clock is read twice: to bound the
      lifetime (t1) and to mint (t2). */
  function ExchangeToken(e: Ed25519, keys: seq<TokenKey>, re: Regexes, d: Doc, cfg: Config, tok: IdToken, req: Request,
                         members: Members, provisioned: bool, t1: R.Clock, t2: R.Clock, id: seq<byte>): Option<Grant>
  {
    match Map(re, d, tok.issuer, tok.claims)
    case None => None
    case Some(mapped) =>
      match EffectiveRoles(cfg, members, provisioned, mapped.roles)
      case None => None
      case Some(effective) =>
        var ttl := MintTTL(cfg, tok.expiry, t1);
        if ttl <= 0 then None
        else
          match Mint(e, keys, RequestOf(cfg, req, mapped.principal, effective.0, ttl), t2, id)
          case None => None
          case Some(minted) => Some(Grant(minted.0, mapped.principal, effective.0, minted.1, effective.1))
  }

  /** Where the roles of a grant may come from. */
  ghost predicate Entitled(cfg: Config, members: Members, jit: bool, role: Str)
  {
    match members
    case NotWired => !jit
    case LookupFailed => false
    case Held(held) => if jit then held == [] && cfg.jit && InBoundary(cfg.boundary, role) else Among(role, held)
  }

  lemma EffectiveRolesSound(cfg: Config, members: Members, provisioned: bool, mapped: seq<Str>)
    requires GoodRoles(mapped) && mapped != [] && EffectiveRoles(cfg, members, provisioned, mapped).Some?
    ensures var r := EffectiveRoles(cfg, members, provisioned, mapped).value;
            GoodRoles(r.0) && r.0 != [] && forall x :: x in r.0 <==> x in mapped && Entitled(cfg, members, r.1, x)
  {
    hide Norm, Select, Among, InBoundary, SortRoles, Filter, Bounded, GoodRoles;
    match members
    case NotWired =>
    case Held(held) =>
      if held == [] && cfg.jit { BoundedRoles(cfg, mapped); } else { NoEscalation(mapped, held); }
    case LookupFailed =>
  }

  /** Every credential an exchange grants, for every policy, claim set and membership answer: distinct roles,
      at most sixteen, exactly those granted by the policy and held (or inside the boundary, when provisioned
      just in time); the credential's own signed claims carry exactly these. */
  lemma GrantIsSound(e: Ed25519, keys: seq<TokenKey>, re: Regexes, d: Doc, cfg: Config, tok: IdToken, req: Request,
                     members: Members, provisioned: bool, t1: R.Clock, t2: R.Clock, id: seq<byte>)
    requires Correct(e) && Good(e, keys) && |id| == ID_SIZE
    requires ExchangeToken(e, keys, re, d, cfg, tok, req, members, provisioned, t1, t2, id).Some?
    ensures var g := ExchangeToken(e, keys, re, d, cfg, tok, req, members, provisioned, t1, t2, id).value;
            && GoodRoles(g.roles) && g.roles != []
            && (forall x :: x in g.roles <==> PolicyGrants(re, d, tok.claims, x) && Entitled(cfg, members, g.jit, x))
            && Carries(g)
  {
    hide Norm, Trim, Map, EffectiveRoles, PolicyGrants, Entitled, Mint, Good, Correct, Carries, GoodRoles;
    var m := Map(re, d, tok.issuer, tok.claims).value;
    MapIsSound(re, d, tok.issuer, tok.claims);
    EffectiveRolesSound(cfg, members, provisioned, m.roles);
    var r := EffectiveRoles(cfg, members, provisioned, m.roles).value;
    MintedCarries(e, keys, RequestOf(cfg, req, m.principal, r.0, MintTTL(cfg, tok.expiry, t1)), t2, id, r.1);
  }

  /** The credential's signed region says what the grant says. */
  ghost predicate Carries(g: Grant)
  {
    && SplitToken(g.credential).Some?
    && DecodeTokenClaims(SplitToken(g.credential).value.0).Some?
    && var c := DecodeTokenClaims(SplitToken(g.credential).value.0).value;
       c.principal == g.principal && c.roles == g.roles && c.expiresAt == g.expiresAt
  }

  lemma MintedCarries(e: Ed25519, keys: seq<TokenKey>, mr: MintRequest, now: R.Clock, id: seq<byte>, jit: bool)
    requires Correct(e) && Good(e, keys) && Mint(e, keys, mr, now, id).Some? && ValidLogin(mr.principal)
             && GoodRoles(mr.roles)
    ensures var minted := Mint(e, keys, mr, now, id).value;
            Carries(Grant(minted.0, mr.principal, mr.roles, minted.1, jit))
  {
    hide Good, Correct, SignerOf, EncodeTokenClaims, DecodeTokenClaims, EncodeToken, SplitToken, Norm, Dedup, GoodRoles,
        ValidLogin;
    AlwaysSigns(e, keys);
    var seed, keyID := SignerOf(keys).value.0, SignerOf(keys).value.1;
    var raw := ClaimsOf(mr, keyID, now, id);
    MintedTimes(mr, keyID, now, id);
    EncodesOnlyEncodable(raw);
    ClaimsRoundTrip(raw);
    var signed := EncodeTokenClaims(raw).value;
    SignsAndVerifies(e, seed, signed);
    TokenRoundTrip(signed, e.sign(seed, signed));
    LoginIsNormal(mr.principal);
    DedupFixed(mr.roles);
  }

  // ---- the membership feed ----

  /** The answer of the feed about a principal that holds these roles: what is held, or a failure; none when no feed
      is wired. */
  predicate Truthful(wired: bool, holds: seq<Str>, members: Members)
  {
    if wired then members == Held(holds) || members == LookupFailed else members == NotWired
  }

  /** The principal holds the role, or was provisioned with it inside the boundary. */
  ghost predicate Covered(cfg: Config, holds: seq<Str>, jit: bool, role: Str)
  {
    Among(role, holds) || (jit && cfg.jit && holds == [] && InBoundary(cfg.boundary, role))
  }

  /** Under a compiled policy an exchange grants a role that is not covered. */
  ghost predicate Overreaches(e: Ed25519, keys: seq<TokenKey>, wired: bool, re: Regexes, d: Doc, cfg: Config,
                              tok: IdToken, req: Request, holds: seq<Str>, members: Members, provisioned: bool,
                              t1: R.Clock, t2: R.Clock, id: seq<byte>, role: Str)
  {
    && Compiles(re, d) && |id| == ID_SIZE && Truthful(wired, holds, members)
    && var g := ExchangeToken(e, keys, re, d, cfg, tok, req, members, provisioned, t1, t2, id);
       g.Some? && role in g.value.roles && !Covered(cfg, holds, g.value.jit, role)
  }

  ghost predicate AllCovered(e: Ed25519, keys: seq<TokenKey>, wired: bool)
  {
    forall re, d, cfg, tok, req, holds, members, provisioned, t1, t2, id, role ::
      !Overreaches(e, keys, wired, re, d, cfg, tok, req, holds, members, provisioned, t1, t2, id, role)
  }

  /** Every role an exchange grants is held, or inside the boundary when provisioned just in time, over all policies,
      tokens, requests and clocks, if and only if the membership feed is wired. */
  lemma CoveredIffWired(e: Ed25519, keys: seq<TokenKey>, wired: bool)
    requires Correct(e) && Good(e, keys)
    ensures AllCovered(e, keys, wired) <==> wired
  {
    hide Correct, Good, Overreaches;
    if wired {
      forall re, d, cfg, tok, req, holds, members, provisioned, t1, t2, id, role
        ensures !Overreaches(e, keys, wired, re, d, cfg, tok, req, holds, members, provisioned, t1, t2, id, role)
      {
        WiredCovers(e, keys, re, d, cfg, tok, req, holds, members, provisioned, t1, t2, id, role);
      }
    } else {
      var re := Regexes(p => None, (p, s) => None);
      UnwiredGrants(e, keys, re, ZEROS);
    }
  }

  lemma WiredCovers(e: Ed25519, keys: seq<TokenKey>, re: Regexes, d: Doc, cfg: Config, tok: IdToken, req: Request,
                    holds: seq<Str>, members: Members, provisioned: bool, t1: R.Clock, t2: R.Clock,
                    id: seq<byte>, role: Str)
    requires Correct(e) && Good(e, keys)
    ensures !Overreaches(e, keys, true, re, d, cfg, tok, req, holds, members, provisioned, t1, t2, id, role)
  {
    hide Correct, Good, ExchangeToken, Compiles, PolicyGrants, GoodRoles, Carries, Among, InBoundary;
    if Overreaches(e, keys, true, re, d, cfg, tok, req, holds, members, provisioned, t1, t2, id, role) {
      GrantIsSound(e, keys, re, d, cfg, tok, req, members, provisioned, t1, t2, id);
    }
  }

  const ZEROS: seq<byte> := [0, 0, 0, 0, 0, 0, 0, 0, 0, 0, 0, 0, 0, 0, 0, 0]

  /** One rule for issuer "i", one condition, and the default role "r". */
  const SMALL: Doc := Doc([Rule([0x72], [0x69], [Cond([0x75], 1, [0x76])], Principal(1, [0x70], []))], [], [], [[0x72]])

  const SMALL_CLAIMS: map<Str, Claim> := map[[0x75] := Word([0x76])]

  function SmallToken(expiry: Second): IdToken { IdToken([0x69], SMALL_CLAIMS, expiry) }

  function SmallConfig(ttl: int): Config { Config([], ttl, false, []) }

  /** Without a feed, a principal that holds nothing is granted the default role. */
  lemma UnwiredGrants(e: Ed25519, keys: seq<TokenKey>, re: Regexes, id: seq<byte>)
    requires Correct(e) && Good(e, keys) && |id| == ID_SIZE
    ensures Overreaches(e, keys, false, re, SMALL, SmallConfig(SECOND), SmallToken(2 * SECOND), Request([], []),
                        [], NotWired, false, 0, 0, id, [0x72])
  {
    hide Correct, Good, Norm, Trim, Mint, Map, Compiles, RolesAcceptable;
    SmallCompiles(re);
    SmallGrants(e, keys, re, SECOND, 2 * SECOND, 0, 0, id);
  }

  /** What an exchange under the small policy and without a feed grants. */
  lemma SmallGrants(e: Ed25519, keys: seq<TokenKey>, re: Regexes, ttl: int, expiry: Second, t1: R.Clock, t2: R.Clock,
                    id: seq<byte>)
    requires Correct(e) && Good(e, keys) && |id| == ID_SIZE && 0 < ttl <= MAX_TTL && expiry > t1
    ensures var g := ExchangeToken(e, keys, re, SMALL, SmallConfig(ttl), SmallToken(expiry), Request([], []),
                                   NotWired, false, t1, t2, id);
            g.Some? && g.value.roles == [[0x72]] && !g.value.jit
  {
    hide Correct, Good, Norm, Trim, Mint, Map, RolesAcceptable;
    SmallMaps(re);
    SmallText();
    var cfg := SmallConfig(ttl);
    MintSucceeds(e, keys, RequestOf(cfg, Request([], []), [0x70], [[0x72]], MintTTL(cfg, expiry, t1)), t2, id);
  }

  lemma SmallCompiles(re: Regexes)
    ensures Compiles(re, SMALL)
  {
    hide Norm;
    SmallText();
    assert SMALL.rules[0].conds[0].claim == [0x75];
  }

  lemma SmallText()
    ensures Norm([0x70]) == [0x70] && Norm([0x72]) == [0x72] && Norm([]) == [] && Trim([0x69]) == [0x69]
            && Trim([]) == []
    ensures RolesAcceptable([[0x72]]) && Dedup([[0x72]]) == [[0x72]]
  {
  }

  lemma SmallMaps(re: Regexes)
    ensures Map(re, SMALL, [0x69], SMALL_CLAIMS) == Some(Mapped([0x72], [0x70], [[0x72]]))
  {
    hide Norm, Trim, Dedup, RolesAcceptable;
    SmallText();
    SmallMatches(re);
    assert ApplyAll([0x70], []) == Some([0x70]);
    assert LoginByte(0x70);
  }

  lemma SmallMatches(re: Regexes)
    ensures FirstMatch(re, SMALL.rules, [0x69], SMALL_CLAIMS) == Some(0)
  {
    assert Split([0x75]) == [[0x75]];
    assert Walk(Object(SMALL_CLAIMS), [[0x75]]) == Walk(Word([0x76]), []);
    assert ClaimString(SMALL_CLAIMS, [0x75]) == Some([0x76]);
    assert CondPasses(re, SMALL.rules[0].conds[0], SMALL_CLAIMS);
    FirstMatchIs(re, SMALL.rules, [0x69], SMALL_CLAIMS, 0);
  }

  // ---- lifetime ----

  /** The largest configured lifetime: twelve hours. */
  const MAX_TTL := 43_200 * SECOND

  /** The minted expiry for a configured TTL and an identity-provider expiry. */
  function MintedExpiry(ttl: int, expiry: int, t1: int, t2: R.Clock): int
  {
    var life := if expiry - t1 < ttl then expiry - t1 else ttl;
    (Cut(t2) + life) / SECOND * SECOND
  }

  /** The whole second of the second reading begins less than a second after the first reading; with a TTL below a
      second it is at most the next one. */
  predicate Prompt(ttl: int, t1: R.Clock, t2: R.Clock)
  {
    if ttl >= SECOND then Cut(t2) < t1 + SECOND else Cut(t2) <= Cut(t1) + SECOND
  }

  lemma MintedWhole(ttl: int, expiry: int, t1: int, t2: R.Clock)
    ensures var life := if expiry - t1 < ttl then expiry - t1 else ttl;
            MintedExpiry(ttl, expiry, t1, t2) == Cut(t2) + life / SECOND * SECOND
  {
  }

  lemma ExpiryBounds(ttl: int, expiry: Second, t1: R.Clock, t2: R.Clock)
    requires ttl > 0 && expiry > t1
    ensures MintedExpiry(ttl, expiry, t1, t2) <= t2 + ttl && MintedExpiry(ttl, expiry, t1, t2) <= expiry + (t2 - t1)
    ensures Prompt(ttl, t1, t2) ==> MintedExpiry(ttl, expiry, t1, t2) <= expiry
  {
    hide MintedExpiry;
    MintedWhole(ttl, expiry, t1, t2);
    NextSecond(t1, expiry);
    var life := if expiry - t1 < ttl then expiry - t1 else ttl;
    var whole, seconds, last := life / SECOND, Unix(t2), expiry / SECOND;
    WholeIs(expiry);
    assert whole * SECOND <= life && Cut(t2) == seconds * SECOND;
    if ttl >= SECOND && Prompt(ttl, t1, t2) {
      assert (seconds + whole) * SECOND < (last + 1) * SECOND;
      assert seconds + whole <= last;
    }
  }

  /** A whole second after t is at or behind the next one. */
  lemma NextSecond(t: R.Clock, expiry: Second)
    requires expiry > t
    ensures expiry >= Cut(t) + SECOND
  {
    WholeIs(expiry);
    WholeIs(Cut(t));
  }

  lemma WholeIs(t: int)
    requires Whole(t)
    ensures t == t / SECOND * SECOND
  {
  }

  lemma GrantExpiryIs(e: Ed25519, keys: seq<TokenKey>, re: Regexes, d: Doc, cfg: Config, tok: IdToken, req: Request,
                      members: Members, provisioned: bool, t1: R.Clock, t2: R.Clock, id: seq<byte>)
    requires ExchangeToken(e, keys, re, d, cfg, tok, req, members, provisioned, t1, t2, id).Some?
    ensures ExchangeToken(e, keys, re, d, cfg, tok, req, members, provisioned, t1, t2, id).value.expiresAt
              == MintedExpiry(cfg.ttl, tok.expiry, t1, t2)
    ensures cfg.ttl > 0 && tok.expiry > t1
  {
    hide Map, EffectiveRoles, EncodeTokenClaims, EncodeToken, SignerOf, Trim;
  }

  /** A credential outlives neither the configured TTL nor, when the second reading is prompt, the identity-provider
      token; otherwise it outlives it by no more than the time between the readings. */
  lemma GrantExpiry(e: Ed25519, keys: seq<TokenKey>, re: Regexes, d: Doc, cfg: Config, tok: IdToken, req: Request,
                    members: Members, provisioned: bool, t1: R.Clock, t2: R.Clock, id: seq<byte>, g: Grant)
    requires ExchangeToken(e, keys, re, d, cfg, tok, req, members, provisioned, t1, t2, id) == Some(g)
    ensures g.expiresAt == MintedExpiry(cfg.ttl, tok.expiry, t1, t2)
    ensures g.expiresAt <= t2 + cfg.ttl && g.expiresAt <= tok.expiry + (t2 - t1)
    ensures Prompt(cfg.ttl, t1, t2) ==> g.expiresAt <= tok.expiry
  {
    hide *;
    GrantExpiryIs(e, keys, re, d, cfg, tok, req, members, provisioned, t1, t2, id);
    ExpiryBounds(cfg.ttl, tok.expiry, t1, t2);
  }

  /** Under a compiled policy an exchange grants a credential that outlives its identity-provider token. */
  ghost predicate Outlives(e: Ed25519, keys: seq<TokenKey>, re: Regexes, d: Doc, cfg: Config, tok: IdToken,
                           req: Request, members: Members, provisioned: bool, t1: R.Clock, t2: R.Clock,
                           id: seq<byte>)
  {
    && Compiles(re, d) && |id| == ID_SIZE
    && var g := ExchangeToken(e, keys, re, d, cfg, tok, req, members, provisioned, t1, t2, id);
       g.Some? && g.value.expiresAt > tok.expiry
  }

  ghost predicate NeverOutlives(e: Ed25519, keys: seq<TokenKey>, ttl: int, t1: R.Clock, t2: R.Clock)
  {
    forall re, d, cfg: Config, tok, req, members, provisioned, id ::
      cfg.ttl == ttl ==> !Outlives(e, keys, re, d, cfg, tok, req, members, provisioned, t1, t2, id)
  }

  /** For every TTL that can be configured and every two readings: no exchange, whatever the policy, the token, the
      request and the feed, grants a credential that outlives its source, if and only if the second reading is
      prompt. */
  lemma OutlivesExactly(e: Ed25519, keys: seq<TokenKey>, ttl: int, t1: R.Clock, t2: R.Clock)
    requires Correct(e) && Good(e, keys) && 0 < ttl <= MAX_TTL
    ensures NeverOutlives(e, keys, ttl, t1, t2) <==> Prompt(ttl, t1, t2)
  {
    hide Correct, Good, Outlives, Prompt;
    if Prompt(ttl, t1, t2) {
      forall re, d, cfg: Config, tok, req, members, provisioned, id | cfg.ttl == ttl
        ensures !Outlives(e, keys, re, d, cfg, tok, req, members, provisioned, t1, t2, id)
      {
        PromptHolds(e, keys, re, d, cfg, tok, req, members, provisioned, t1, t2, id);
      }
    } else {
      var expiry: Second := Cut(t1) + SECOND;
      LateReading(e, keys, Regexes(p => None, (p, s) => None), ttl, expiry, t1, t2, ZEROS);
    }
  }

  lemma PromptHolds(e: Ed25519, keys: seq<TokenKey>, re: Regexes, d: Doc, cfg: Config, tok: IdToken, req: Request,
                    members: Members, provisioned: bool, t1: R.Clock, t2: R.Clock, id: seq<byte>)
    requires Prompt(cfg.ttl, t1, t2)
    ensures !Outlives(e, keys, re, d, cfg, tok, req, members, provisioned, t1, t2, id)
  {
    hide Prompt, ExchangeToken, Compiles, MintedExpiry;
    var g := ExchangeToken(e, keys, re, d, cfg, tok, req, members, provisioned, t1, t2, id);
    if g.Some? { GrantExpiry(e, keys, re, d, cfg, tok, req, members, provisioned, t1, t2, id, g.value); }
  }

  /** Otherwise a token that expires on the next whole second is outlived. */
  lemma LateReading(e: Ed25519, keys: seq<TokenKey>, re: Regexes, ttl: int, expiry: Second, t1: R.Clock, t2: R.Clock,
                    id: seq<byte>)
    requires Correct(e) && Good(e, keys) && |id| == ID_SIZE && 0 < ttl <= MAX_TTL
    requires !Prompt(ttl, t1, t2) && expiry == Cut(t1) + SECOND
    ensures Outlives(e, keys, re, SMALL, SmallConfig(ttl), SmallToken(expiry), Request([], []), NotWired, false,
                     t1, t2, id)
  {
    hide Correct, Good, ExchangeToken, Compiles, MintedExpiry;
    SmallCompiles(re);
    SmallGrants(e, keys, re, ttl, expiry, t1, t2, id);
    GrantExpiryIs(e, keys, re, SMALL, SmallConfig(ttl), SmallToken(expiry), Request([], []), NotWired, false, t1, t2,
        id);
    MintedWhole(ttl, expiry, t1, t2);
  }

  /** The readings a second apart, on whole seconds: a token that expires at the second one, and a credential that
      expires a second later. */
  lemma OutlivesBySecond(e: Ed25519, keys: seq<TokenKey>, re: Regexes, ttl: int, id: seq<byte>)
    requires Correct(e) && Good(e, keys) && |id| == ID_SIZE && SECOND <= ttl <= MAX_TTL
    ensures var g := ExchangeToken(e, keys, re, SMALL, SmallConfig(ttl), SmallToken(SECOND), Request([], []),
                                   NotWired, false, 0, SECOND, id);
            g.Some? && g.value.expiresAt == 2 * SECOND
  {
    hide Correct, Good, ExchangeToken;
    SmallGrants(e, keys, re, ttl, SECOND, 0, SECOND, id);
    GrantExpiryIs(e, keys, re, SMALL, SmallConfig(ttl), SmallToken(SECOND), Request([], []), NotWired, false, 0, SECOND,
        id);
    assert Cut(SECOND) == SECOND;
  }
}
