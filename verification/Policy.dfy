/** Identity policies: what makes one valid, and the NSIP file format. */
module Policy {
  import opened Bytes
  import opened Format
  import opened TokenText
  import Template = RoleTemplate

  const MAX_FILE := 65536
  const MAX_RULES := 64
  const MAX_CONDS := 16
  const MAX_MAPPINGS := 256
  const MAX_TRANSFORMS := 8
  const MAX_CLAIM := 128
  const MAX_VALUE := 512
  const MAX_RULE_ID := 64

  datatype Cond = Cond(claim: Str, op: byte, value: Str)
  datatype Transform = Transform(op: byte, a: Str, b: Str)
  datatype Principal = Principal(kind: byte, value: Str, transforms: seq<Transform>)
  datatype Rule = Rule(id: Str, issuer: Str, conds: seq<Cond>, principal: Principal)
  datatype Mapping = Mapping(group: Str, isRegex: bool, roles: seq<Str>)
  datatype Doc = Doc(rules: seq<Rule>, groupClaim: Str, mappings: seq<Mapping>, defaultRoles: seq<Str>)

  /** Anchored regular expressions: the number of groups of a pattern that compiles, and the
      submatches of a string that matches. */
  datatype Regexes = Regexes(groups: Str -> Option<nat>, find: (Str, Str) -> Option<seq<Str>>)

  ghost predicate WellBehaved(re: Regexes)
  {
    forall p, s :: re.find(p, s).Some? ==> re.groups(p).Some? && |re.find(p, s).value| == re.groups(p).value + 1
  }

  // ---- validity ----

  const OP_REGEX: byte := 4
  const KIND_CLAIM: byte := 2

  predicate ClaimByte(c: byte)
  {
    0x61 <= c <= 0x7a || 0x41 <= c <= 0x5a || 0x30 <= c <= 0x39 || c == 0x2e || c == 0x5f || c == 0x2d || c == 0x2f
        || c == 0x3a
  }

  predicate ClaimName(s: Str)
  {
    && 1 <= |s| <= MAX_CLAIM && (forall i :: 0 <= i < |s| ==> ClaimByte(s[i]))
    && s[0] != 0x2e && s[|s| - 1] != 0x2e && (forall i :: 0 <= i < |s| - 1 ==> !(s[i] == 0x2e && s[i + 1] == 0x2e))
  }

  predicate Compilable(re: Regexes, pattern: Str) { 1 <= |pattern| <= MAX_VALUE && re.groups(pattern).Some? }

  predicate CondOk(re: Regexes, c: Cond)
  {
    ClaimName(c.claim) && 1 <= c.op <= 4 && 1 <= |c.value| <= MAX_VALUE
        && (c.op == OP_REGEX ==> Compilable(re, c.value))
  }

  predicate TransformOk(t: Transform)
  {
    1 <= t.op <= 4 && |t.a| <= MAX_VALUE && |t.b| <= MAX_VALUE && (t.op >= 2 ==> t.a != [])
  }

  predicate PrincipalOk(p: Principal)
  {
    && 1 <= p.kind <= 2 && 1 <= |p.value| <= MAX_VALUE && (p.kind == KIND_CLAIM ==> ClaimName(p.value))
    && |p.transforms| <= MAX_TRANSFORMS && forall i :: 0 <= i < |p.transforms| ==> TransformOk(p.transforms[i])
  }

  predicate RuleOk(re: Regexes, r: Rule)
  {
    && 1 <= |r.id| <= MAX_RULE_ID && Trim(r.issuer) != [] && |r.issuer| <= MAX_VALUE
    && 1 <= |r.conds| <= MAX_CONDS && (forall i :: 0 <= i < |r.conds| ==> CondOk(re, r.conds[i]))
    && PrincipalOk(r.principal)
  }

  predicate TemplateOk(role: Str, groups: nat) { 1 <= |role| <= MAX_ROLE_LEN && Template.Valid(role, groups) }

  predicate MappingOk(re: Regexes, m: Mapping)
  {
    && 1 <= |m.group| <= MAX_VALUE && 1 <= |m.roles| <= MAX_ROLES
    && if m.isRegex
       then Compilable(re, m.group)
           && forall i :: 0 <= i < |m.roles| ==> TemplateOk(m.roles[i], re.groups(m.group).value)
       else RolesAcceptable(m.roles)
  }

  /** compilePolicy */
  predicate Compiles(re: Regexes, d: Doc)
  {
    && 1 <= |d.rules| <= MAX_RULES && |d.mappings| <= MAX_MAPPINGS
    && (d.groupClaim != [] ==> ClaimName(d.groupClaim))
    && |d.defaultRoles| <= MAX_ROLES && RolesAcceptable(d.defaultRoles)
    && (forall i :: 0 <= i < |d.rules| ==> RuleOk(re, d.rules[i]))
    && (forall i, j :: 0 <= i < j < |d.rules| ==> d.rules[i].id != d.rules[j].id)
    && (forall i :: 0 <= i < |d.mappings| ==> MappingOk(re, d.mappings[i]))
  }

  // ---- layout ----

  function CondCodec(): Codec<Cond>
  {
    As(Pair(Text(MAX_CLAIM), Pair(Octet(), Text(MAX_VALUE))),
       (p: (Str, (byte, Str))) => Cond(p.0, p.1.0, p.1.1), (c: Cond) => (c.claim, (c.op, c.value)))
  }

  function TransformCodec(): Codec<Transform>
  {
    As(Pair(Octet(), Pair(Text(MAX_VALUE), Text(MAX_VALUE))),
       (p: (byte, (Str, Str))) => Transform(p.0, p.1.0, p.1.1), (t: Transform) => (t.op, (t.a, t.b)))
  }

  function PrincipalCodec(): Codec<Principal>
  {
    As(Pair(Octet(), Pair(Text(MAX_VALUE), List(1, MAX_TRANSFORMS, TransformCodec()))),
       (p: (byte, (Str, seq<Transform>))) => Principal(p.0, p.1.0, p.1.1),
           (p: Principal) => (p.kind, (p.value, p.transforms)))
  }

  function RuleCodec(): Codec<Rule>
  {
    As(Pair(Text(MAX_RULE_ID), Pair(Text(MAX_VALUE), Pair(List(2, MAX_CONDS, CondCodec()), PrincipalCodec()))),
       (p: (Str, (Str, (seq<Cond>, Principal)))) => Rule(p.0, p.1.0, p.1.1.0, p.1.1.1),
       (r: Rule) => (r.id, (r.issuer, (r.conds, r.principal))))
  }

  function RolesCodec(): Codec<seq<Str>> { List(2, MAX_ROLES, Text(MAX_ROLE_LEN)) }

  function MappingCodec(): Codec<Mapping>
  {
    As(Pair(Text(MAX_VALUE), Pair(Flag(), RolesCodec())),
       (p: (Str, (bool, seq<Str>))) => Mapping(p.0, p.1.0, p.1.1), (m: Mapping) => (m.group, (m.isRegex, m.roles)))
  }

  function RulesCodec(): Codec<seq<Rule>> { List(2, MAX_RULES, RuleCodec()) }

  function MappingsCodec(): Codec<seq<Mapping>> { List(2, MAX_MAPPINGS, MappingCodec()) }

  function DocCodec(): Codec<Doc>
  {
    As(Pair(Text(MAX_CLAIM), Pair(RolesCodec(), Pair(RulesCodec(), MappingsCodec()))),
       (p: (Str, (seq<Str>, (seq<Rule>, seq<Mapping>)))) => Doc(p.1.1.0, p.0, p.1.1.1, p.1.0),
       (d: Doc) => (d.groupClaim, (d.defaultRoles, (d.rules, d.mappings))))
  }

  /** "NSIP" and version 1. */
  const MAGIC: seq<byte> := [0x4e, 0x53, 0x49, 0x50, 1, 0]

  function EncodeIdentityPolicy(re: Regexes, d: Doc): Option<seq<byte>>
  {
    var buf := MAGIC + DocCodec().enc(d);
    if !Compiles(re, d) || |buf| > MAX_FILE then None else Some(buf)
  }

  function DecodeIdentityPolicy(re: Regexes, raw: seq<byte>): Option<Doc>
  {
    if |raw| > MAX_FILE || |raw| < 8 then None
    else
      match WholeFile(MAGIC, DocCodec(), raw)
      case None => None
      case Some(d) => if Compiles(re, d) then Some(d) else None
  }

  lemma PartsLawful()
    ensures Lawful(CondCodec()) && Lawful(TransformCodec()) && Lawful(RolesCodec())
  {
    hide Text, Octet, Pair, List, As, Lawful;
    Pow256Values();
    TextLawful(MAX_CLAIM);
    TextLawful(MAX_VALUE);
    OctetLawful();
    PairLawful(Octet(), Text(MAX_VALUE));
    PairLawful(Text(MAX_CLAIM), Pair(Octet(), Text(MAX_VALUE)));
    AsLawful(Pair(Text(MAX_CLAIM), Pair(Octet(), Text(MAX_VALUE))),
       (p: (Str, (byte, Str))) => Cond(p.0, p.1.0, p.1.1), (c: Cond) => (c.claim, (c.op, c.value)));
    PairLawful(Text(MAX_VALUE), Text(MAX_VALUE));
    PairLawful(Octet(), Pair(Text(MAX_VALUE), Text(MAX_VALUE)));
    AsLawful(Pair(Octet(), Pair(Text(MAX_VALUE), Text(MAX_VALUE))),
       (p: (byte, (Str, Str))) => Transform(p.0, p.1.0, p.1.1), (t: Transform) => (t.op, (t.a, t.b)));
    ListLawful(2, MAX_ROLES, Text(MAX_ROLE_LEN));
  }

  lemma PrincipalLawful()
    ensures Lawful(PrincipalCodec())
  {
    hide Text, Octet, Pair, List, As, Lawful, TransformCodec;
    Pow256Values();
    PartsLawful();
    TextLawful(MAX_VALUE);
    OctetLawful();
    ListLawful(1, MAX_TRANSFORMS, TransformCodec());
    PairLawful(Text(MAX_VALUE), List(1, MAX_TRANSFORMS, TransformCodec()));
    PairLawful(Octet(), Pair(Text(MAX_VALUE), List(1, MAX_TRANSFORMS, TransformCodec())));
    AsLawful(Pair(Octet(), Pair(Text(MAX_VALUE), List(1, MAX_TRANSFORMS, TransformCodec()))),
       (p: (byte, (Str, seq<Transform>))) => Principal(p.0, p.1.0, p.1.1),
           (p: Principal) => (p.kind, (p.value, p.transforms)));
  }

  lemma RuleLawful()
    ensures Lawful(RuleCodec())
  {
    hide Text, Octet, Pair, List, As, Lawful, CondCodec, PrincipalCodec;
    Pow256Values();
    PartsLawful();
    PrincipalLawful();
    TextLawful(MAX_VALUE);
    TextLawful(MAX_RULE_ID);
    ListLawful(2, MAX_CONDS, CondCodec());
    PairLawful(List(2, MAX_CONDS, CondCodec()), PrincipalCodec());
    PairLawful(Text(MAX_VALUE), Pair(List(2, MAX_CONDS, CondCodec()), PrincipalCodec()));
    PairLawful(Text(MAX_RULE_ID), Pair(Text(MAX_VALUE), Pair(List(2, MAX_CONDS, CondCodec()), PrincipalCodec())));
    AsLawful(Pair(Text(MAX_RULE_ID), Pair(Text(MAX_VALUE), Pair(List(2, MAX_CONDS, CondCodec()), PrincipalCodec()))),
       (p: (Str, (Str, (seq<Cond>, Principal)))) => Rule(p.0, p.1.0, p.1.1.0, p.1.1.1),
       (r: Rule) => (r.id, (r.issuer, (r.conds, r.principal))));
  }

  lemma MappingLawful()
    ensures Lawful(MappingCodec())
  {
    hide Text, Flag, Pair, As, Lawful, RolesCodec;
    PartsLawful();
    TextLawful(MAX_VALUE);
    FlagLawful();
    PairLawful(Flag(), RolesCodec());
    PairLawful(Text(MAX_VALUE), Pair(Flag(), RolesCodec()));
    AsLawful(Pair(Text(MAX_VALUE), Pair(Flag(), RolesCodec())),
       (p: (Str, (bool, seq<Str>))) => Mapping(p.0, p.1.0, p.1.1), (m: Mapping) => (m.group, (m.isRegex, m.roles)));
  }

  lemma TablesLawful()
    ensures Lawful(RulesCodec()) && Lawful(MappingsCodec())
  {
    hide List, Lawful, RuleCodec, MappingCodec;
    Pow256Values();
    RuleLawful();
    MappingLawful();
    ListLawful(2, MAX_RULES, RuleCodec());
    ListLawful(2, MAX_MAPPINGS, MappingCodec());
  }

  lemma DocLawful()
    ensures Lawful(DocCodec())
  {
    hide Text, Pair, As, Lawful, RolesCodec, RulesCodec, MappingsCodec;
    PartsLawful();
    TablesLawful();
    TextLawful(MAX_CLAIM);
    PairLawful(RulesCodec(), MappingsCodec());
    PairLawful(RolesCodec(), Pair(RulesCodec(), MappingsCodec()));
    PairLawful(Text(MAX_CLAIM), Pair(RolesCodec(), Pair(RulesCodec(), MappingsCodec())));
    AsLawful(Pair(Text(MAX_CLAIM), Pair(RolesCodec(), Pair(RulesCodec(), MappingsCodec()))),
       (p: (Str, (seq<Str>, (seq<Rule>, seq<Mapping>)))) => Doc(p.1.1.0, p.0, p.1.1.1, p.1.0),
       (d: Doc) => (d.groupClaim, (d.defaultRoles, (d.rules, d.mappings))));
  }

  // ---- the bijection ----

  predicate ShortRoles(roles: seq<Str>) { forall i :: 0 <= i < |roles| ==> |roles[i]| <= MAX_ROLE_LEN }

  /** Role names short enough before trimming, which compilePolicy does not look at. */
  predicate RolesFit(d: Doc)
  {
    ShortRoles(d.defaultRoles) && forall i :: 0 <= i < |d.mappings| ==> ShortRoles(d.mappings[i].roles)
  }

  lemma RolesCodecOk(roles: seq<Str>)
    ensures RolesCodec().ok(roles) <==> |roles| <= MAX_ROLES && ShortRoles(roles)
  {
    var c := Text(MAX_ROLE_LEN);
    forall i | 0 <= i < |roles| ensures c.ok(roles[i]) <==> |roles[i]| <= MAX_ROLE_LEN {}
  }

  lemma RuleCodecOk(re: Regexes, r: Rule)
    requires RuleOk(re, r)
    ensures RuleCodec().ok(r)
  {
    hide Trim, CondOk, CondCodec, PrincipalOk, PrincipalCodec;
    forall i | 0 <= i < |r.conds| ensures CondCodec().ok(r.conds[i]) { CondCodecOk(re, r.conds[i]); }
    PrincipalCodecOk(r.principal);
  }

  lemma CondCodecOk(re: Regexes, c: Cond)
    requires CondOk(re, c)
    ensures CondCodec().ok(c)
  {
    hide ClaimName, Compilable;
    ClaimShort(c.claim);
  }

  lemma PrincipalCodecOk(p: Principal)
    requires PrincipalOk(p)
    ensures PrincipalCodec().ok(p)
  {
    hide ClaimName;
    forall i | 0 <= i < |p.transforms| ensures TransformCodec().ok(p.transforms[i]) {
      assert TransformOk(p.transforms[i]);
    }
  }

  lemma ClaimShort(s: Str)
    requires ClaimName(s)
    ensures |s| <= MAX_CLAIM
  {
  }

  lemma MappingCodecOk(re: Regexes, m: Mapping)
    requires MappingOk(re, m)
    ensures MappingCodec().ok(m) <==> ShortRoles(m.roles)
  {
    hide RolesCodec, Compilable, TemplateOk, RolesAcceptable;
    RolesCodecOk(m.roles);
  }

  lemma DocCodecOk(re: Regexes, d: Doc)
    requires Compiles(re, d)
    ensures DocCodec().ok(d) <==> RolesFit(d)
    ensures RulesCodec().ok(d.rules) && |d.groupClaim| <= MAX_CLAIM
    ensures MappingsCodec().ok(d.mappings) <==> forall i :: 0 <= i < |d.mappings| ==> ShortRoles(d.mappings[i].roles)
  {
    hide RuleCodec, MappingCodec, RuleOk, MappingOk, RolesAcceptable, ClaimName, ShortRoles, RolesCodec;
    if d.groupClaim != [] { ClaimShort(d.groupClaim); }
    RolesCodecOk(d.defaultRoles);
    forall i | 0 <= i < |d.rules| ensures RuleCodec().ok(d.rules[i]) { RuleCodecOk(re, d.rules[i]); }
    forall i | 0 <= i < |d.mappings| ensures MappingCodec().ok(d.mappings[i]) <==> ShortRoles(d.mappings[i].roles) {
      MappingCodecOk(re, d.mappings[i]);
    }
  }

  /** NSIP is a bijection: a file decodes to a policy exactly when it is that policy's encoding and
      the policy's role names fit the format. */
  lemma PolicyBijection(re: Regexes, d: Doc, raw: seq<byte>)
    ensures DecodeIdentityPolicy(re, raw) == Some(d) <==> EncodeIdentityPolicy(re, d) == Some(raw) && RolesFit(d)
  {
    hide DocCodec, Compiles, RolesFit, Lawful;
    DocLawful();
    WholeFileExact(MAGIC, DocCodec(), raw, d);
    if Compiles(re, d) {
      DocCodecOk(re, d);
      DocSizes(d);
    }
  }

  lemma RolesRefused(roles: seq<Str>)
    requires |roles| <= MAX_ROLES && !ShortRoles(roles) && |RolesCodec().enc(roles)| <= MAX_FILE
    ensures Refuses(RolesCodec(), roles)
  {
    hide Lawful, Refuses;
    var c := Text(MAX_ROLE_LEN);
    Pow256Values();
    TextLawful(MAX_ROLE_LEN);
    forall i | 0 <= i < |roles| && !c.ok(roles[i]) ensures Refuses(c, roles[i]) {
      ElementSize(c, roles, i);
      assert |c.enc(roles[i])| == 2 + |roles[i]|;
      TextRefuses(MAX_ROLE_LEN, roles[i]);
    }
    RolesCodecOk(roles);
    ListRefuses(2, MAX_ROLES, c, roles);
  }

  lemma MappingRefused(m: Mapping)
    requires |m.group| <= MAX_VALUE && Refuses(RolesCodec(), m.roles)
    ensures Refuses(MappingCodec(), m)
  {
    hide RolesCodec, Lawful, Refuses, Pair, As, Flag;
    TextLawful(MAX_VALUE);
    FlagLawful();
    FlagOk(m.isRegex);
    PairRefuses(Flag(), RolesCodec(), (m.isRegex, m.roles));
    PairRefuses(Text(MAX_VALUE), Pair(Flag(), RolesCodec()), (m.group, (m.isRegex, m.roles)));
    AsRefuses(Pair(Text(MAX_VALUE), Pair(Flag(), RolesCodec())),
      (p: (Str, (bool, seq<Str>))) => Mapping(p.0, p.1.0, p.1.1), (m: Mapping) => (m.group, (m.isRegex, m.roles)), m);
  }

  lemma FlagOk(b: bool)
    ensures Flag().ok(b)
  {
  }

  lemma MappingsRefused(re: Regexes, ms: seq<Mapping>)
    requires |ms| <= MAX_MAPPINGS && (forall i :: 0 <= i < |ms| ==> MappingOk(re, ms[i])) && !MappingsCodec().ok(ms)
    requires |MappingsCodec().enc(ms)| <= MAX_FILE
    ensures Refuses(MappingsCodec(), ms)
  {
    hide Lawful, Refuses, MappingCodec, RolesCodec, ShortRoles, Compilable, TemplateOk, RolesAcceptable;
    var c := MappingCodec();
    Pow256Values();
    MappingLawful();
    forall i | 0 <= i < |ms| && !c.ok(ms[i]) ensures Refuses(c, ms[i]) {
      MappingCodecOk(re, ms[i]);
      ElementSize(c, ms, i);
      MappingSize(ms[i]);
      RolesRefused(ms[i].roles);
      MappingRefused(ms[i]);
    }
    ListRefuses(2, MAX_MAPPINGS, c, ms);
  }

  lemma MappingSize(m: Mapping)
    ensures |RolesCodec().enc(m.roles)| <= |MappingCodec().enc(m)|
  {
    assert MappingCodec().enc(m) == (U16(|m.group|) + m.group) + (Flag().enc(m.isRegex) + RolesCodec().enc(m.roles));
  }

  lemma DocRefused(re: Regexes, d: Doc)
    requires Compiles(re, d) && !RolesFit(d) && |DocCodec().enc(d)| <= MAX_FILE
    ensures Refuses(DocCodec(), d)
  {
    hide RolesCodec, RulesCodec, MappingsCodec, Compiles, Lawful, Refuses, Pair, As, MappingOk, ShortRoles;
    DocCodecOk(re, d);
    DocSizes(d);
    TextLawful(MAX_CLAIM);
    PartsLawful();
    TablesLawful();
    CompiledCounts(re, d);
    RolesCodecOk(d.defaultRoles);
    if ShortRoles(d.defaultRoles) {
      MappingsRefused(re, d.mappings);
      PairRefuses(RulesCodec(), MappingsCodec(), (d.rules, d.mappings));
    } else {
      RolesRefused(d.defaultRoles);
    }
    PairRefuses(RolesCodec(), Pair(RulesCodec(), MappingsCodec()), (d.defaultRoles, (d.rules, d.mappings)));
    PairRefuses(Text(MAX_CLAIM), Pair(RolesCodec(), Pair(RulesCodec(), MappingsCodec())),
        (d.groupClaim, (d.defaultRoles, (d.rules, d.mappings))));
    AsRefuses(Pair(Text(MAX_CLAIM), Pair(RolesCodec(), Pair(RulesCodec(), MappingsCodec()))),
       (p: (Str, (seq<Str>, (seq<Rule>, seq<Mapping>)))) => Doc(p.1.1.0, p.0, p.1.1.1, p.1.0),
       (d: Doc) => (d.groupClaim, (d.defaultRoles, (d.rules, d.mappings))), d);
  }

  lemma DocSizes(d: Doc)
    ensures |RolesCodec().enc(d.defaultRoles)| + |MappingsCodec().enc(d.mappings)| + 2 <= |DocCodec().enc(d)|
  {
    hide RolesCodec, RulesCodec, MappingsCodec;
    assert DocCodec().enc(d)
      == (U16(|d.groupClaim|) + d.groupClaim)
          + (RolesCodec().enc(d.defaultRoles) + (RulesCodec().enc(d.rules) + MappingsCodec().enc(d.mappings)));
  }

  lemma CompiledCounts(re: Regexes, d: Doc)
    requires Compiles(re, d)
    ensures |d.defaultRoles| <= MAX_ROLES && |d.mappings| <= MAX_MAPPINGS
    ensures forall i :: 0 <= i < |d.mappings| ==> MappingOk(re, d.mappings[i])
  {
  }

  /** What reading back a written policy gives: the policy, or a refusal when a role name is too long. */
  lemma WrittenPolicyReadsBack(re: Regexes, d: Doc)
    requires EncodeIdentityPolicy(re, d).Some?
    ensures DecodeIdentityPolicy(re, EncodeIdentityPolicy(re, d).value) == if RolesFit(d) then Some(d) else None
  {
    hide DocCodec, Compiles, RolesFit;
    var raw := EncodeIdentityPolicy(re, d).value;
    PolicyBijection(re, d, raw);
    if !RolesFit(d) {
      DocRefused(re, d);
      assert raw[|MAGIC|..] == DocCodec().enc(d) + [];
    }
  }

  // ---- a policy that cannot be read back ----

  function Spaces(n: nat): (s: Str)
    ensures |s| == n
  {
    if n == 0 then [] else Spaces(n - 1) + [0x20]
  }

  lemma {:induction false} TrimsSpaces(s: Str, n: nat)
    requires s != [] && !IsSpace(s[0]) && !IsSpace(s[|s| - 1])
    ensures Trim(s + Spaces(n)) == s
  {
    if n > 0 {
      var t := s + Spaces(n);
      TrimsSpaces(s, n - 1);
      assert TrimLeft(t) == t && TrimLeft(s + Spaces(n - 1)) == s + Spaces(n - 1);
      assert t[..|t| - 1] == s + Spaces(n - 1) && t[|t| - 1] == 0x20;
    } else {
      assert s + Spaces(0) == s;
    }
  }

  /** One rule and the default role "r", padded with n spaces. */
  function Padded(n: nat): Doc
  {
    Doc([Rule([0x72], [0x69], [Cond([0x75], 1, [0x76])], Principal(1, [0x70], []))], [], [], [[0x72] + Spaces(n)])
  }

  lemma PaddedCompiles(re: Regexes, n: nat)
    ensures Compiles(re, Padded(n))
  {
    TrimsSpaces([0x72], n);
    TrimsSpaces([0x69], 0);
    assert [0x69] + Spaces(0) == [0x69];
    hide Trim;
    assert Padded(n).rules[0].conds[0].claim == [0x75];
    assert Norm([0x72] + Spaces(n)) == ToLower([0x72]) && |ToLower([0x72])| == 1;
  }

  lemma OneSize<T>(w: nat, max: nat, c: Codec<T>, ts: seq<T>)
    requires |ts| == 1
    ensures |List(w, max, c).enc(ts)| == w + |c.enc(ts[0])|
  {
    assert EncodeAll(c, ts) == c.enc(ts[0]) + EncodeAll(c, ts[1..]) && ts[1..] == [];
  }

  lemma PaddedSize(n: nat)
    ensures |DocCodec().enc(Padded(n))| == n + 31
  {
    hide Text, List, RuleCodec, MappingCodec;
    var d := Padded(n);
    RuleSize(d.rules[0]);
    OneSize(2, MAX_RULES, RuleCodec(), d.rules);
    OneSize(2, MAX_ROLES, Text(MAX_ROLE_LEN), d.defaultRoles);
    TextSize(MAX_ROLE_LEN, d.defaultRoles[0]);
    NoMappings();
    DocParts(d);
  }

  lemma TextSize(max: nat, s: Str)
    ensures |Text(max).enc(s)| == 2 + |s|
  {
  }

  lemma NoMappings()
    ensures |MappingsCodec().enc([])| == 2
  {
  }

  lemma DocParts(d: Doc)
    ensures |DocCodec().enc(d)|
            == 2 + |d.groupClaim| + |RolesCodec().enc(d.defaultRoles)| + |RulesCodec().enc(d.rules)|
                + |MappingsCodec().enc(d.mappings)|
  {
    hide RolesCodec, RulesCodec, MappingsCodec;
    assert DocCodec().enc(d)
      == (U16(|d.groupClaim|) + d.groupClaim)
          + (RolesCodec().enc(d.defaultRoles) + (RulesCodec().enc(d.rules) + MappingsCodec().enc(d.mappings)));
  }

  lemma RuleSize(r: Rule)
    requires |r.conds| == 1 && r.principal.transforms == []
    ensures |RuleCodec().enc(r)|
            == |r.id| + |r.issuer| + |r.conds[0].claim| + |r.conds[0].value| + |r.principal.value| + 15
  {
    var c := r.conds[0];
    assert EncodeAll(CondCodec(), r.conds) == CondCodec().enc(c) + EncodeAll(CondCodec(), []);
    assert |CondCodec().enc(c)| == |c.claim| + |c.value| + 5;
    assert |PrincipalCodec().enc(r.principal)| == |r.principal.value| + 4;
  }

  /** Padding the one role of a small policy: it is written for every padding up to the file limit, and read back only
      while the padded name has at most 128 bytes. */
  lemma PaddedRole(re: Regexes, n: nat)
    requires n <= 65_000
    ensures EncodeIdentityPolicy(re, Padded(n)).Some?
    ensures DecodeIdentityPolicy(re, EncodeIdentityPolicy(re, Padded(n)).value)
            == if n < MAX_ROLE_LEN then Some(Padded(n)) else None
  {
    hide DocCodec, Compiles;
    PaddedCompiles(re, n);
    PaddedSize(n);
    WrittenPolicyReadsBack(re, Padded(n));
    assert |Padded(n).defaultRoles[0]| == n + 1;
  }
}
