/** Applying an identity policy: subject rules, the derived principal, group mapping and the
    intersection with the roles a principal holds. */
module RoleMapping {
  import opened Bytes
  import opened TokenText
  import opened Policy
  import Template = RoleTemplate

  const MAX_GROUPS := 256

  // ---- claims ----

  /** A decoded claim; numbers carry their text. */
  datatype Claim = Word(s: Str) | Truth(b: bool) | Num(text: Str) | Words(ws: seq<Str>) | Items(items: seq<Claim>)
      | Object(fields: map<Str, Claim>) | Null

  const TRUE: Str := [0x74, 0x72, 0x75, 0x65]
  const FALSE: Str := [0x66, 0x61, 0x6c, 0x73, 0x65]

  function Split(s: Str): (parts: seq<Str>)
    ensures parts != []
  {
    match Template.Index(s, 0x2e)
    case None => [s]
    case Some(i) => [s[..i]] + Split(s[i + 1..])
  }

  function Walk(c: Claim, parts: seq<Str>): Option<Claim>
  {
    if parts == [] then Some(c)
    else if !c.Object? || parts[0] !in c.fields then None
    else Walk(c.fields[parts[0]], parts[1..])
  }

  function Lookup(claims: map<Str, Claim>, path: Str): Option<Claim>
  {
    if path == [] then None else Walk(Object(claims), Split(path))
  }

  function ClaimString(claims: map<Str, Claim>, path: Str): Option<Str>
  {
    match Lookup(claims, path)
    case Some(Word(s)) => Some(s)
    case Some(Truth(b)) => Some(if b then TRUE else FALSE)
    case Some(Num(t)) => Some(t)
    case _ => None
  }

  function OnlyWords(items: seq<Claim>): seq<Str>
  {
    if items == [] then [] else (if items[0].Word? then [items[0].s] else []) + OnlyWords(items[1..])
  }

  function ClaimStrings(claims: map<Str, Claim>, path: Str): Option<seq<Str>>
  {
    match Lookup(claims, path)
    case Some(Word(s)) => Some([s])
    case Some(Words(ws)) => Some(ws)
    case Some(Items(items)) => Some(OnlyWords(items))
    case _ => None
  }

  // ---- the subject ----

  predicate CondPasses(re: Regexes, c: Cond, claims: map<Str, Claim>)
  {
    match ClaimString(claims, c.claim)
    case None => false
    case Some(got) =>
      if c.op == 1 then got == c.value
      else if c.op == 2 then c.value <= got
      else if c.op == 3 then |c.value| <= |got| && got[|got| - |c.value|..] == c.value
      else c.op == OP_REGEX && re.find(c.value, got).Some?
  }

  predicate RuleMatches(re: Regexes, r: Rule, issuer: Str, claims: map<Str, Claim>)
  {
    r.issuer == issuer && forall i :: 0 <= i < |r.conds| ==> CondPasses(re, r.conds[i], claims)
  }

  /** The first rule that matches. */
  method MatchRule(re: Regexes, rules: seq<Rule>, issuer: Str, claims: map<Str, Claim>) returns (r: Option<nat>)
    ensures r == FirstMatch(re, rules, issuer, claims)
  {
    hide CondPasses;
    var i := 0;
    while i < |rules|
      invariant 0 <= i <= |rules| && forall k :: 0 <= k < i ==> !RuleMatches(re, rules[k], issuer, claims)
    {
      if rules[i].issuer == issuer {
        var pass, j := true, 0;
        while j < |rules[i].conds| && pass
          invariant 0 <= j <= |rules[i].conds|
          invariant pass <==> forall k :: 0 <= k < j ==> CondPasses(re, rules[i].conds[k], claims)
        {
          pass := CondPasses(re, rules[i].conds[j], claims);
          j := j + 1;
        }
        if pass {
          FirstMatchIs(re, rules, issuer, claims, i);
          return Some(i);
        }
      }
      i := i + 1;
    }
    return None;
  }

  function FirstMatch(re: Regexes, rules: seq<Rule>, issuer: Str, claims: map<Str, Claim>): (r: Option<nat>)
    ensures r.Some? ==> r.value < |rules| && RuleMatches(re, rules[r.value], issuer, claims)
    ensures r.Some? ==> forall k :: 0 <= k < r.value ==> !RuleMatches(re, rules[k], issuer, claims)
    ensures r.None? ==> forall k :: 0 <= k < |rules| ==> !RuleMatches(re, rules[k], issuer, claims)
  {
    if rules == [] then None
    else if RuleMatches(re, rules[0], issuer, claims) then Some(0)
    else match FirstMatch(re, rules[1..], issuer, claims) case None => None case Some(i) => Some(i + 1)
  }

  lemma FirstMatchIs(re: Regexes, rules: seq<Rule>, issuer: Str, claims: map<Str, Claim>, i: nat)
    requires i < |rules| && RuleMatches(re, rules[i], issuer, claims)
             && forall k :: 0 <= k < i ==> !RuleMatches(re, rules[k], issuer, claims)
    ensures FirstMatch(re, rules, issuer, claims) == Some(i)
  {
    hide RuleMatches;
    var r := FirstMatch(re, rules, issuer, claims);
    assert r.Some?;
    assert !(r.value < i) && !(i < r.value);
  }

  function IndexOf(s: Str, a: Str): (r: Option<nat>)
    ensures r.Some? ==> r.value + |a| <= |s|
  {
    if |s| < |a| then None
    else if s[..|a|] == a then Some(0)
    else if s == [] then None
    else match IndexOf(s[1..], a) case None => None case Some(i) => Some(i + 1)
  }

  function ReplaceAll(s: Str, a: Str, b: Str): Str
    requires a != []
    decreases |s|
  {
    if |s| < |a| then s
    else if s[..|a|] == a then b + ReplaceAll(s[|a|..], a, b)
    else [s[0]] + ReplaceAll(s[1..], a, b)
  }

  function ApplyTransform(s: Str, t: Transform): Option<Str>
  {
    if t.op == 1 then Some(ToLower(s))
    else if t.a == [] then None
    else if t.op == 2 then (match IndexOf(s, t.a) case None => None case Some(i) => Some(s[..i]))
    else if t.op == 3 then (match IndexOf(s, t.a) case None => None case Some(i) => Some(s[i + |t.a|..]))
    else if t.op == 4 then Some(ReplaceAll(s, t.a, t.b))
    else None
  }

  function ApplyAll(s: Str, ts: seq<Transform>): Option<Str>
    decreases |ts|
  {
    if ts == [] then Some(s)
    else match ApplyTransform(s, ts[0]) case None => None case Some(next) => ApplyAll(next, ts[1..])
  }

  predicate LoginByte(c: byte) { 0x61 <= c <= 0x7a || 0x30 <= c <= 0x39 || c == 0x2e || c == 0x5f || c == 0x2d }

  predicate ValidLogin(s: Str) { 1 <= |s| <= 128 && forall i :: 0 <= i < |s| ==> LoginByte(s[i]) }

  function DerivePrincipal(p: Principal, claims: map<Str, Claim>): (r: Option<Str>)
    ensures r.Some? ==> ValidLogin(r.value)
  {
    var start :=
      if p.kind == 1 then Some(p.value) else if p.kind == KIND_CLAIM then ClaimString(claims, p.value) else None;
    match start
    case None => None
    case Some(s) =>
      match ApplyAll(s, p.transforms)
      case None => None
      case Some(t) => if ValidLogin(Norm(t)) then Some(Norm(t)) else None
  }

  lemma LoginIsNormal(s: Str)
    requires ValidLogin(s)
    ensures Norm(s) == s
  {
    assert LoginByte(s[0]) && LoginByte(s[|s| - 1]);
    assert TrimLeft(s) == s && TrimRight(s) == s;
    forall i | 0 <= i < |s| ensures Lower(s[i]) == s[i] { assert LoginByte(s[i]); }
  }

  // ---- role lists ----

  /** The normalised, non-blank members that pass, first occurrences in order. */
  function Select(rs: seq<Str>, keep: Str -> bool): seq<Str>
  {
    if rs == [] then []
    else
      var init, r := Select(rs[..|rs| - 1], keep), Norm(rs[|rs| - 1]);
      if r == [] || !keep(r) || r in init then init else init + [r]
  }

  lemma SelectSnoc(rs: seq<Str>, x: Str, keep: Str -> bool)
    ensures Select(rs + [x], keep) ==
              (var r := Norm(x);
               if r == [] || !keep(r) || r in Select(rs, keep) then Select(rs, keep) else Select(rs, keep) + [r])
  {
    assert (rs + [x])[..|rs|] == rs;
  }

  ghost predicate Among(x: Str, rs: seq<Str>) { exists i :: 0 <= i < |rs| && Norm(rs[i]) == x }

  lemma AmongSnoc(x: Str, rs: seq<Str>)
    requires rs != []
    ensures Among(x, rs) <==> Among(x, rs[..|rs| - 1]) || Norm(rs[|rs| - 1]) == x
  {
    hide Norm;
    var init := rs[..|rs| - 1];
    if Among(x, rs) {
      var i :| 0 <= i < |rs| && Norm(rs[i]) == x;
      if i < |init| { assert Norm(init[i]) == x; }
    }
    if Among(x, init) {
      var i :| 0 <= i < |init| && Norm(init[i]) == x;
      assert Norm(rs[i]) == x;
    }
  }

  /** Exactly the members that pass, each once. */
  lemma {:induction false} SelectFacts(rs: seq<Str>, keep: Str -> bool)
    ensures NoDuplicates(Select(rs, keep)) && |Select(rs, keep)| <= |rs|
    ensures forall x :: x in Select(rs, keep) <==> x != [] && keep(x) && Among(x, rs)
  {
    hide Norm, Among;
    if rs != [] {
      SelectFacts(rs[..|rs| - 1], keep);
      forall x ensures x in Select(rs, keep) <==> x != [] && keep(x) && Among(x, rs) { AmongSnoc(x, rs); }
    } else {
      forall x ensures !Among(x, rs) { NotAmong(x); }
    }
  }

  lemma NotAmong(x: Str)
    ensures !Among(x, [])
  {
  }

  function Filter(rs: seq<Str>, keep: Str -> bool): seq<Str>
  {
    if rs == [] then [] else Filter(rs[..|rs| - 1], keep) + (if keep(rs[|rs| - 1]) then [rs[|rs| - 1]] else [])
  }

  /** On a role list of a credential, selection keeps the order: it is the plain filter. */
  lemma {:induction false} SelectIsFilter(rs: seq<Str>, keep: Str -> bool)
    requires GoodRoles(rs)
    ensures Select(rs, keep) == Filter(rs, keep) && GoodRoles(Select(rs, keep))
  {
    hide Norm, Among, Filter;
    SelectFacts(rs, keep);
    forall x | x in Select(rs, keep) ensures GoodRole(x) { AmongGood(x, rs); }
    SelectSame(rs, keep);
  }

  lemma AmongGood(x: Str, rs: seq<Str>)
    requires Among(x, rs) && GoodRoles(rs)
    ensures x in rs && GoodRole(x)
  {
    hide Norm;
    var i :| 0 <= i < |rs| && Norm(rs[i]) == x;
    assert GoodRole(rs[i]);
  }

  lemma {:induction false} SelectSame(rs: seq<Str>, keep: Str -> bool)
    requires GoodRoles(rs)
    ensures Select(rs, keep) == Filter(rs, keep)
  {
    hide Norm, Among;
    if rs != [] {
      var n := |rs| - 1;
      SelectSame(rs[..n], keep);
      assert GoodRole(rs[n]);
      SelectFacts(rs[..n], keep);
      assert rs[n] !in rs[..n];
      if Among(rs[n], rs[..n]) {
        AmongGood(rs[n], rs[..n]);
      }
    }
  }

  // ---- group mapping ----

  function Any(r: Str): bool { true }

  /** The templates that expand, in order; one that fails is skipped. */
  function ExpandAll(roles: seq<Str>, sub: seq<Str>): seq<Str>
  {
    if roles == [] then []
    else
      var x := Template.Expansion(roles[|roles| - 1], sub);
      ExpandAll(roles[..|roles| - 1], sub) + (if x.Some? then [x.value] else [])
  }

  /** What one mapping contributes for one group. */
  function Contribution(re: Regexes, m: Mapping, g: Str): seq<Str>
  {
    if m.isRegex then (match re.find(m.group, g) case None => [] case Some(sub) => ExpandAll(m.roles, sub))
    else if g == m.group then m.roles else []
  }

  function PerGroup(re: Regexes, m: Mapping, groups: seq<Str>): seq<Str>
  {
    if groups == [] then [] else PerGroup(re, m, groups[..|groups| - 1]) + Contribution(re, m, groups[|groups| - 1])
  }

  function Candidates(re: Regexes, ms: seq<Mapping>, groups: seq<Str>): seq<Str>
  {
    if ms == [] then [] else Candidates(re, ms[..|ms| - 1], groups) + PerGroup(re, ms[|ms| - 1], groups)
  }

  /** mapGroups: three nested loops around one list and one set of roles seen. */
  method MapGroups(re: Regexes, ms: seq<Mapping>, groups: seq<Str>) returns (out: seq<Str>)
    ensures out == Select(Candidates(re, ms, groups), Any)
  {
    hide Norm, Select, Contribution, PerGroup, Candidates;
    out := [];
    var seen: set<Str> := {};
    ghost var done: seq<Str> := [];
    SelectNone(Any);
    assert Candidates(re, ms[..0], groups) == [] by { NoCandidates(re, groups); }
    for i := 0 to |ms|
      invariant done == Candidates(re, ms[..i], groups) && Tracks(out, seen, done, Any)
    {
      ghost var before := done;
      NoneYet(re, ms[i]);
      for j := 0 to |groups|
        invariant done == before + PerGroup(re, ms[i], groups[..j]) && Tracks(out, seen, done, Any)
      {
        out, seen := Contribute(re, ms[i], groups[j], out, seen, done);
        NextGroup(re, ms[i], groups, j);
        done := done + Contribution(re, ms[i], groups[j]);
      }
      assert groups[..|groups|] == groups;
      NextMapping(re, ms, groups, i);
    }
    assert ms[..|ms|] == ms;
  }

  ghost predicate Tracks(out: seq<Str>, seen: set<Str>, done: seq<Str>, keep: Str -> bool)
  {
    out == Select(done, keep) && forall x :: x in seen <==> x in out
  }

  /** The body of the two outer loops: the innermost loops over the mapping's roles. */
  method Contribute(re: Regexes, m: Mapping, g: Str, out0: seq<Str>, seen0: set<Str>, ghost done: seq<Str>)
      returns (out: seq<Str>, seen: set<Str>)
    requires Tracks(out0, seen0, done, Any)
    ensures Tracks(out, seen, done + Contribution(re, m, g), Any)
  {
    hide Norm, Select, ExpandAll, Template.Expansion;
    out, seen := out0, seen0;
    assert done + [] == done;
    if m.isRegex {
      var sub := re.find(m.group, g);
      if sub.None? { return; }
      NoExpansion(sub.value);
      for k := 0 to |m.roles|
        invariant Tracks(out, seen, done + ExpandAll(m.roles[..k], sub.value), Any)
      {
        var role := Template.ExpandRoleTemplate(m.roles[k], sub.value);
        NextExpansion(m.roles, k, sub.value);
        if role.None? {
          assert ExpandAll(m.roles[..k], sub.value) + [] == ExpandAll(m.roles[..k], sub.value);
          continue;
        }
        out, seen := Add(role.value, out, seen, done + ExpandAll(m.roles[..k], sub.value));
        assert done + (ExpandAll(m.roles[..k], sub.value) + [role.value])
          == (done + ExpandAll(m.roles[..k], sub.value)) + [role.value];
      }
      assert m.roles[..|m.roles|] == m.roles;
    } else if g == m.group {
      for k := 0 to |m.roles|
        invariant Tracks(out, seen, done + m.roles[..k], Any)
      {
        out, seen := Add(m.roles[k], out, seen, done + m.roles[..k]);
        assert done + m.roles[..k + 1] == (done + m.roles[..k]) + [m.roles[k]];
      }
      assert m.roles[..|m.roles|] == m.roles;
    }
  }

  method Add(role: Str, out0: seq<Str>, seen0: set<Str>, ghost done: seq<Str>) returns (out: seq<Str>, seen: set<Str>)
    requires Tracks(out0, seen0, done, Any)
    ensures Tracks(out, seen, done + [role], Any)
  {
    hide Norm, Select;
    SelectSnoc(done, role, Any);
    var r := Norm(role);
    out, seen := out0, seen0;
    if r == [] || r in seen { return; }
    seen := seen + {r};
    out := out + [r];
  }

  lemma SelectNone(keep: Str -> bool)
    ensures Select([], keep) == []
  {
  }

  lemma NoCandidates(re: Regexes, groups: seq<Str>)
    ensures Candidates(re, [], groups) == []
  {
  }

  lemma NoneYet(re: Regexes, m: Mapping)
    ensures PerGroup(re, m, []) == []
  {
  }

  lemma NoExpansion(sub: seq<Str>)
    ensures ExpandAll([], sub) == []
  {
  }

  lemma NextGroup(re: Regexes, m: Mapping, groups: seq<Str>, j: nat)
    requires j < |groups|
    ensures PerGroup(re, m, groups[..j + 1]) == PerGroup(re, m, groups[..j]) + Contribution(re, m, groups[j])
  {
    assert groups[..j + 1][..j] == groups[..j];
  }

  lemma NextMapping(re: Regexes, ms: seq<Mapping>, groups: seq<Str>, i: nat)
    requires i < |ms|
    ensures Candidates(re, ms[..i + 1], groups) == Candidates(re, ms[..i], groups) + PerGroup(re, ms[i], groups)
  {
    assert ms[..i + 1][..i] == ms[..i];
  }

  lemma NextExpansion(roles: seq<Str>, k: nat, sub: seq<Str>)
    requires k < |roles|
    ensures ExpandAll(roles[..k + 1], sub) == ExpandAll(roles[..k], sub)
              + (var x := Template.Expansion(roles[k], sub); if x.Some? then [x.value] else [])
  {
    assert roles[..k + 1][..k] == roles[..k];
  }

  /** In a compiled policy no template is ever skipped. */
  lemma NothingSkipped(re: Regexes, m: Mapping, g: Str)
    requires WellBehaved(re) && MappingOk(re, m) && m.isRegex && re.find(m.group, g).Some?
    ensures var sub := re.find(m.group, g).value;
            && |Contribution(re, m, g)| == |m.roles|
            && forall i :: 0 <= i < |m.roles| ==> Template.Expansion(m.roles[i], sub) == Some(Contribution(re, m, g)[i])
  {
    hide Template.Valid, Template.Expansion;
    var sub := re.find(m.group, g).value;
    forall i | 0 <= i < |m.roles| ensures Template.Expansion(m.roles[i], sub).Some? {
      assert TemplateOk(m.roles[i], re.groups(m.group).value);
      Template.AcceptedExpands(m.roles[i], |sub| - 1, sub);
    }
    AllExpand(m.roles, sub);
  }

  lemma {:induction false} AllExpand(roles: seq<Str>, sub: seq<Str>)
    requires forall i :: 0 <= i < |roles| ==> Template.Expansion(roles[i], sub).Some?
    ensures |ExpandAll(roles, sub)| == |roles|
    ensures forall i :: 0 <= i < |roles| ==> Template.Expansion(roles[i], sub) == Some(ExpandAll(roles, sub)[i])
  {
    hide Template.Expansion;
    if roles != [] { AllExpand(roles[..|roles| - 1], sub); }
  }

  // ---- where a mapped role comes from ----

  /** The mapping grants the role to members of the group. */
  ghost predicate Grants(re: Regexes, m: Mapping, g: Str, role: Str)
  {
    role != [] && Among(role, Contribution(re, m, g))
  }

  ghost predicate GrantedBySome(re: Regexes, ms: seq<Mapping>, groups: seq<Str>, role: Str)
  {
    exists i, j :: 0 <= i < |ms| && 0 <= j < |groups| && Grants(re, ms[i], groups[j], role)
  }

  lemma AmongConcat(x: Str, a: seq<Str>, b: seq<Str>)
    ensures Among(x, a + b) <==> Among(x, a) || Among(x, b)
  {
    hide Norm;
    if Among(x, a + b) {
      var i :| 0 <= i < |a + b| && Norm((a + b)[i]) == x;
      if i < |a| { assert Norm(a[i]) == x; } else { assert Norm(b[i - |a|]) == x; }
    }
    if Among(x, a) {
      var i :| 0 <= i < |a| && Norm(a[i]) == x;
      assert Norm((a + b)[i]) == x;
    }
    if Among(x, b) {
      var i :| 0 <= i < |b| && Norm(b[i]) == x;
      assert Norm((a + b)[|a| + i]) == x;
    }
  }

  ghost predicate GroupGrants(re: Regexes, m: Mapping, groups: seq<Str>, role: Str)
  {
    exists j :: 0 <= j < |groups| && Grants(re, m, groups[j], role)
  }

  lemma {:induction false} PerGroupGrants(re: Regexes, m: Mapping, groups: seq<Str>, x: Str)
    requires x != []
    ensures Among(x, PerGroup(re, m, groups)) <==> GroupGrants(re, m, groups, x)
  {
    hide Among, Contribution;
    if groups == [] {
      NotAmong(x);
    } else {
      var n := |groups| - 1;
      PerGroupGrants(re, m, groups[..n], x);
      AmongConcat(x, PerGroup(re, m, groups[..n]), Contribution(re, m, groups[n]));
      if GroupGrants(re, m, groups[..n], x) {
        var j :| 0 <= j < n && Grants(re, m, groups[..n][j], x);
        assert Grants(re, m, groups[j], x);
      }
      if GroupGrants(re, m, groups, x) {
        var j :| 0 <= j < |groups| && Grants(re, m, groups[j], x);
        if j < n { assert Grants(re, m, groups[..n][j], x); }
      }
    }
  }

  lemma {:induction false} CandidatesGrants(re: Regexes, ms: seq<Mapping>, groups: seq<Str>, x: Str)
    requires x != []
    ensures Among(x, Candidates(re, ms, groups)) <==> GrantedBySome(re, ms, groups, x)
  {
    hide Among, PerGroup, Grants;
    if ms == [] {
      NotAmong(x);
    } else {
      var n := |ms| - 1;
      CandidatesGrants(re, ms[..n], groups, x);
      PerGroupGrants(re, ms[n], groups, x);
      AmongConcat(x, Candidates(re, ms[..n], groups), PerGroup(re, ms[n], groups));
      if GrantedBySome(re, ms[..n], groups, x) {
        var i, j :| 0 <= i < n && 0 <= j < |groups| && Grants(re, ms[..n][i], groups[j], x);
        assert Grants(re, ms[i], groups[j], x);
      }
      if GrantedBySome(re, ms, groups, x) {
        var i, j :| 0 <= i < |ms| && 0 <= j < |groups| && Grants(re, ms[i], groups[j], x);
        if i < n { assert Grants(re, ms[..n][i], groups[j], x); }
      }
    }
  }

  /** The mapped roles are exactly the ones some mapping grants for some group, each once. */
  lemma MappedRolesExactly(re: Regexes, ms: seq<Mapping>, groups: seq<Str>, x: Str)
    ensures x in Select(Candidates(re, ms, groups), Any) <==> GrantedBySome(re, ms, groups, x)
    ensures NoDuplicates(Select(Candidates(re, ms, groups), Any))
  {
    hide Select, Candidates, Among;
    SelectFacts(Candidates(re, ms, groups), Any);
    if x != [] { CandidatesGrants(re, ms, groups, x); }
  }

  // ---- Map and Authorize ----

  datatype Mapped = Mapped(ruleID: Str, principal: Str, roles: seq<Str>)

  function GroupsOf(groups: seq<Str>): seq<Str> { if |groups| > MAX_GROUPS then groups[..MAX_GROUPS] else groups }

  /** The role list before it is normalised, or None when the group claim is absent. */
  function RawRoles(re: Regexes, d: Doc, claims: map<Str, Claim>): Option<seq<Str>>
  {
    if d.groupClaim == [] then Some(d.defaultRoles)
    else
      match ClaimStrings(claims, d.groupClaim)
      case None => None
      case Some(groups) =>
        var roles := Select(Candidates(re, d.mappings, GroupsOf(groups)), Any);
        Some(if roles == [] then d.defaultRoles else roles)
  }

  function Map(re: Regexes, d: Doc, issuer: Str, claims: map<Str, Claim>): Option<Mapped>
  {
    if Trim(issuer) == [] then None
    else
      match FirstMatch(re, d.rules, Trim(issuer), claims)
      case None => None
      case Some(i) =>
        match DerivePrincipal(d.rules[i].principal, claims)
        case None => None
        case Some(principal) =>
          match RawRoles(re, d, claims)
          case None => None
          case Some(roles) =>
            if !RolesAcceptable(roles) || roles == [] then None
            else Some(Mapped(d.rules[i].id, principal, Dedup(roles)))
  }

  /** Map, step by step. */
  method MapIdentity(re: Regexes, d: Doc, issuer: Str, claims: map<Str, Claim>) returns (r: Option<Mapped>)
    ensures r == Map(re, d, issuer, claims)
  {
    hide Norm, Trim, Select, Candidates, FirstMatch, DerivePrincipal, RolesAcceptable, Dedup, ClaimStrings;
    var name := Trim(issuer);
    if name == [] { return None; }
    var i := MatchRule(re, d.rules, name, claims);
    if i.None? { return None; }
    var principal := DerivePrincipal(d.rules[i.value].principal, claims);
    if principal.None? { return None; }
    var roles: seq<Str>;
    if d.groupClaim == [] {
      roles := d.defaultRoles;
    } else {
      var groups := ClaimStrings(claims, d.groupClaim);
      if groups.None? { return None; }
      roles := MapGroups(re, d.mappings, GroupsOf(groups.value));
      if roles == [] { roles := d.defaultRoles; }
    }
    var normal := NormTokenRoles(roles);
    if normal.None? { return None; }
    DedupEmpty(roles);
    if normal.value == [] { return None; }
    return Some(Mapped(d.rules[i.value].id, principal.value, normal.value));
  }

  lemma DedupEmpty(rs: seq<Str>)
    ensures Dedup(rs) == [] <==> rs == []
  {
    DedupFacts(rs);
    if rs != [] { assert Norm(rs[0]) in Dedup(rs); }
  }

  /** The policy gives this identity the role: by a mapping for one of its groups, or by default when
      no mapping applies. */
  ghost predicate PolicyGrants(re: Regexes, d: Doc, claims: map<Str, Claim>, role: Str)
  {
    if d.groupClaim == [] then Among(role, d.defaultRoles)
    else
      var groups := ClaimStrings(claims, d.groupClaim);
      groups.Some? &&
      (GrantedBySome(re, d.mappings, GroupsOf(groups.value), role)
       || (Among(role, d.defaultRoles) && forall x :: !GrantedBySome(re, d.mappings, GroupsOf(groups.value), x)))
  }

  lemma RawRolesGranted(re: Regexes, d: Doc, claims: map<Str, Claim>, x: Str)
    requires RawRoles(re, d, claims).Some?
    ensures Among(x, RawRoles(re, d, claims).value) <==> PolicyGrants(re, d, claims, x)
  {
    hide Among, Select, Candidates, Grants;
    if d.groupClaim != [] {
      var groups := GroupsOf(ClaimStrings(claims, d.groupClaim).value);
      var roles := Select(Candidates(re, d.mappings, groups), Any);
      MappedRolesExactly(re, d.mappings, groups, x);
      if roles == [] {
        forall x ensures !GrantedBySome(re, d.mappings, groups, x) { MappedRolesExactly(re, d.mappings, groups, x); }
      } else {
        SelectAmong(Candidates(re, d.mappings, groups), x);
        assert roles[0] in roles;
        MappedRolesExactly(re, d.mappings, groups, roles[0]);
      }
    }
  }

  lemma SelectAmong(rs: seq<Str>, x: Str)
    ensures Among(x, Select(rs, Any)) <==> x in Select(rs, Any)
  {
    var out := Select(rs, Any);
    SelectFacts(rs, Any);
    if Among(x, out) {
      var i :| 0 <= i < |out| && Norm(out[i]) == x;
      assert out[i] in out;
      AmongNormal(out[i], rs);
    }
    if x in out {
      var i :| 0 <= i < |out| && out[i] == x;
      AmongNormal(x, rs);
      AmongIntro(x, out, i);
    }
  }

  lemma AmongNormal(x: Str, rs: seq<Str>)
    requires Among(x, rs)
    ensures Norm(x) == x
  {
    var i :| 0 <= i < |rs| && Norm(rs[i]) == x;
    NormFixed(rs[i]);
  }

  /** Whatever the policy, the claims and the issuer: a mapped identity has a valid login and between one
      and sixteen distinct roles, which are exactly those the policy grants. */
  lemma MapIsSound(re: Regexes, d: Doc, issuer: Str, claims: map<Str, Claim>)
    requires Map(re, d, issuer, claims).Some?
    ensures var m := Map(re, d, issuer, claims).value;
            && ValidLogin(m.principal) && m.roles != [] && GoodRoles(m.roles)
            && forall x :: x in m.roles <==> PolicyGrants(re, d, claims, x)
  {
    hide Norm, Trim, FirstMatch, DerivePrincipal, RawRoles, PolicyGrants;
    var m := Map(re, d, issuer, claims).value;
    var roles := RawRoles(re, d, claims).value;
    DedupGood(roles);
    DedupFacts(roles);
    assert Norm(roles[0]) in Dedup(roles);
    forall x ensures x in m.roles <==> PolicyGrants(re, d, claims, x) {
      assert x in m.roles <==> Among(x, roles);
      RawRolesGranted(re, d, claims, x);
    }
  }

  /** The roles held, as IntersectRoles looks them up. */
  function HeldSet(held: seq<Str>): set<Str> { set i | 0 <= i < |held| && Norm(held[i]) != [] :: Norm(held[i]) }

  /** IntersectRoles: both loops. */
  method IntersectRoles(mapped: seq<Str>, held: seq<Str>) returns (out: seq<Str>)
    ensures out == Select(mapped, r => r in HeldSet(held))
  {
    hide Norm, Select;
    var h: set<Str> := {};
    for i := 0 to |held|
      invariant h == HeldSet(held[..i])
    {
      var r := Norm(held[i]);
      NextHeld(held, i);
      if r != [] { h := h + {r}; }
    }
    assert held[..|held|] == held;
    var keep := r => r in HeldSet(held);
    out := [];
    var seen: set<Str> := {};
    SelectNone(keep);
    for i := 0 to |mapped|
      invariant Tracks(out, seen, mapped[..i], keep)
    {
      var r := Norm(mapped[i]);
      SelectSnoc(mapped[..i], mapped[i], keep);
      assert mapped[..i + 1] == mapped[..i] + [mapped[i]];
      if r == [] { continue; }
      if r !in h { continue; }
      if r in seen { continue; }
      seen := seen + {r};
      out := out + [r];
    }
    assert mapped[..|mapped|] == mapped;
  }

  lemma NextHeld(held: seq<Str>, i: nat)
    requires i < |held|
    ensures HeldSet(held[..i + 1]) == HeldSet(held[..i]) + (if Norm(held[i]) != [] then {Norm(held[i])} else {})
  {
    hide Norm;
    var next, prev := held[..i + 1], held[..i];
    forall x | x in HeldSet(next) ensures x in HeldSet(prev) || x == Norm(held[i]) {
      var k :| 0 <= k < |next| && Norm(next[k]) != [] && Norm(next[k]) == x;
      if k < i { assert Norm(prev[k]) == x; }
    }
    forall x | x in HeldSet(prev) ensures x in HeldSet(next) {
      var k :| 0 <= k < |prev| && Norm(prev[k]) != [] && Norm(prev[k]) == x;
      assert Norm(next[k]) == x;
    }
    if Norm(held[i]) != [] { assert Norm(next[i]) == Norm(held[i]); }
  }

  /** No escalation: the intersection keeps exactly the mapped roles that are held, in mapped order. */
  lemma NoEscalation(mapped: seq<Str>, held: seq<Str>)
    requires GoodRoles(mapped)
    ensures var out := Select(mapped, r => r in HeldSet(held));
            && GoodRoles(out) && out == Filter(mapped, r => r in HeldSet(held))
            && forall x :: x in out <==> x in mapped && Among(x, held)
  {
    hide Norm, Among, Select, Filter;
    var keep := r => r in HeldSet(held);
    SelectIsFilter(mapped, keep);
    SelectFacts(mapped, keep);
    forall x ensures x in Select(mapped, keep) <==> x in mapped && Among(x, held) {
      if x in mapped {
        var i :| 0 <= i < |mapped| && mapped[i] == x;
        assert GoodRole(mapped[i]);
        AmongIntro(x, mapped, i);
        HeldAmong(x, held);
      }
      if x in Select(mapped, keep) {
        AmongGood(x, mapped);
        HeldAmong(x, held);
      }
    }
  }

  lemma AmongIntro(x: Str, rs: seq<Str>, i: nat)
    requires i < |rs| && Norm(rs[i]) == x
    ensures Among(x, rs)
  {
  }

  lemma HeldAmong(x: Str, held: seq<Str>)
    requires x != []
    ensures x in HeldSet(held) <==> Among(x, held)
  {
  }

  function Authorize(re: Regexes, d: Doc, issuer: Str, claims: map<Str, Claim>, held: seq<Str>): Option<Mapped>
  {
    match Map(re, d, issuer, claims)
    case None => None
    case Some(m) =>
      var roles := Select(m.roles, r => r in HeldSet(held));
      if roles == [] then None else Some(m.(roles := roles))
  }

  /** Authorize: exactly the roles that the policy grants and the principal holds, in the order of the policy. */
  lemma AuthorizeIsSound(re: Regexes, d: Doc, issuer: Str, claims: map<Str, Claim>, held: seq<Str>)
    ensures Authorize(re, d, issuer, claims, held).Some? <==>
              && Map(re, d, issuer, claims).Some?
              && exists x :: x in Map(re, d, issuer, claims).value.roles && Among(x, held)
    ensures Authorize(re, d, issuer, claims, held).Some? ==>
              var a := Authorize(re, d, issuer, claims, held).value;
              && ValidLogin(a.principal) && a.roles != [] && GoodRoles(a.roles)
              && forall x :: x in a.roles <==> PolicyGrants(re, d, claims, x) && Among(x, held)
  {
    hide Map, Among, Select, Filter, PolicyGrants, Norm, GoodRoles;
    var m := Map(re, d, issuer, claims);
    if m.Some? {
      MapIsSound(re, d, issuer, claims);
      NoEscalation(m.value.roles, held);
      var out := Select(m.value.roles, r => r in HeldSet(held));
      if out != [] { assert out[0] in out; }
    }
  }
}
