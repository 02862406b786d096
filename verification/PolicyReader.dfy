/** The bounds-checked cursor that reads a policy file field by field, and its agreement with the format. */
module PolicyReader {
  import opened Bytes
  import opened Format
  import opened TokenText
  import opened Policy

  /** What a read returned is what the format says of the bytes it started from. */
  ghost predicate Reads<T(!new)>(c: Codec<T>, before: seq<byte>, r: Option<T>, after: seq<byte>)
  {
    c.dec(before) == if r.Some? then Parsed(r.value, after) else Bad
  }

  ghost function Continue<T>(out: seq<T>, p: Parsed<seq<T>>): Parsed<seq<T>>
  {
    if p.Bad? then Bad else Parsed(out + p.value, p.rest)
  }

  lemma ContinueStart<T>(p: Parsed<seq<T>>)
    ensures Continue([], p) == p
  {
    if p.Parsed? { assert [] + p.value == p.value; }
  }

  lemma ContinueStep<T(!new)>(c: Codec<T>, out: seq<T>, k: nat, before: seq<byte>, r: Option<T>, after: seq<byte>)
    requires Reads(c, before, r, after) && k > 0
    ensures r.None? ==> Continue(out, DecodeAll(c, k, before)) == Bad
    ensures r.Some? ==> Continue(out, DecodeAll(c, k, before)) == Continue(out + [r.value], DecodeAll(c, k - 1, after))
  {
    if r.Some? {
      var p := DecodeAll(c, k - 1, after);
      if p.Parsed? { assert out + ([r.value] + p.value) == (out + [r.value]) + p.value; }
    }
  }

  lemma ContinueEnd<T>(c: Codec<T>, out: seq<T>, rest: seq<byte>)
    ensures Continue(out, DecodeAll(c, 0, rest)) == Parsed(out, rest)
  {
    assert out + [] == out;
  }

  /** A counted list read as a count and then its elements. */
  lemma CountedList<T(!new)>(w: nat, max: nat, c: Codec<T>, before: seq<byte>, n: Option<nat>, after: seq<byte>)
    requires Reads(UInt(w, Pow256(w) - 1), before, n, after)
    ensures List(w, max, c).dec(before) == if n.Some? && n.value <= max then DecodeAll(c, n.value, after) else Bad
  {
    hide GetLE, Pow256;
    if |before| >= w {
      PutGet(before[..w]);
      assert n == Some(GetLE(before[..w])) && after == before[w..];
    } else {
      assert n == None;
    }
    assert UInt(w, max).dec(before) == if n.Some? && n.value <= max then Parsed(n.value, after) else Bad;
  }

  class Cursor {
    const raw: seq<byte>
    var off: nat

    ghost predicate Valid()
      reads this
    {
      off <= |raw|
    }

    ghost function Rest(): seq<byte>
      reads this
      requires Valid()
    {
      raw[off..]
    }

    constructor (raw: seq<byte>, off: nat)
      requires off <= |raw|
      ensures Valid() && this.raw == raw && Rest() == raw[off..]
    {
      this.raw, this.off := raw, off;
    }

    method Byte() returns (r: Option<byte>)
      requires Valid()
      modifies this
      ensures Valid() && Reads(Octet(), old(Rest()), r, Rest())
    {
      if off + 1 > |raw| { return None; }
      off := off + 1;
      return Some(raw[off - 1]);
    }

    method Bool() returns (r: Option<bool>)
      requires Valid()
      modifies this
      ensures Valid() && Reads(Flag(), old(Rest()), r, Rest())
    {
      var b := Byte();
      if b.None? || b.value > 1 { return None; }
      return Some(b.value == 1);
    }

    /** A one-byte or two-byte count. */
    method Count(w: nat) returns (r: Option<nat>)
      requires Valid() && w > 0
      modifies this
      ensures Valid() && Reads(UInt(w, Pow256(w) - 1), old(Rest()), r, Rest())
    {
      hide GetLE, Pow256;
      if off + w > |raw| { return None; }
      assert raw[off..][..w] == raw[off..off + w];
      PutGet(raw[off..off + w]);
      off := off + w;
      return Some(GetLE(raw[off - w..off]));
    }

    method String(max: nat) returns (r: Option<Str>)
      requires Valid()
      modifies this
      ensures Valid() && Reads(Text(max), old(Rest()), r, Rest())
    {
      hide GetLE;
      if off + 2 > |raw| { return None; }
      assert raw[off..][..2] == raw[off..off + 2];
      var n := GetLE(raw[off..off + 2]);
      if n > max || off + 2 + n > |raw| { return None; }
      assert raw[off..][2..2 + n] == raw[off + 2..off + 2 + n];
      off := off + 2 + n;
      return Some(raw[off - n..off]);
    }

    method Roles() returns (r: Option<seq<Str>>)
      requires Valid()
      modifies this
      ensures Valid() && Reads(RolesCodec(), old(Rest()), r, Rest())
    {
      hide Text, UInt, DecodeAll;
      ghost var start, c := Rest(), Text(MAX_ROLE_LEN);
      Pow256Values();
      var n := Count(2);
      CountedList(2, MAX_ROLES, c, start, n, Rest());
      if n.None? || n.value > MAX_ROLES { return None; }
      ghost var body := Rest();
      var out: seq<Str> := [];
      ContinueStart(DecodeAll(c, n.value, body));
      for i := 0 to n.value
        invariant Valid() && DecodeAll(c, n.value, body) == Continue(out, DecodeAll(c, n.value - i, Rest()))
      {
        ghost var here := Rest();
        var s := String(MAX_ROLE_LEN);
        ContinueStep(c, out, n.value - i, here, s, Rest());
        if s.None? { return None; }
        out := out + [s.value];
      }
      ContinueEnd(c, out, Rest());
      return Some(out);
    }

    method Condition() returns (r: Option<Cond>)
      requires Valid()
      modifies this
      ensures Valid() && Reads(CondCodec(), old(Rest()), r, Rest())
    {
      hide Text, Octet;
      var claim := String(MAX_CLAIM);
      if claim.None? { return None; }
      var op := Byte();
      if op.None? { return None; }
      var value := String(MAX_VALUE);
      if value.None? { return None; }
      return Some(Cond(claim.value, op.value, value.value));
    }

    method Conditions() returns (r: Option<seq<Cond>>)
      requires Valid()
      modifies this
      ensures Valid() && Reads(List(2, MAX_CONDS, CondCodec()), old(Rest()), r, Rest())
    {
      hide CondCodec, UInt, DecodeAll;
      ghost var start, c := Rest(), CondCodec();
      var n := Count(2);
      CountedList(2, MAX_CONDS, c, start, n, Rest());
      if n.None? || n.value > MAX_CONDS { return None; }
      ghost var body := Rest();
      var out: seq<Cond> := [];
      ContinueStart(DecodeAll(c, n.value, body));
      for i := 0 to n.value
        invariant Valid() && DecodeAll(c, n.value, body) == Continue(out, DecodeAll(c, n.value - i, Rest()))
      {
        ghost var here := Rest();
        var x := Condition();
        ContinueStep(c, out, n.value - i, here, x, Rest());
        if x.None? { return None; }
        out := out + [x.value];
      }
      ContinueEnd(c, out, Rest());
      return Some(out);
    }

    method OneTransform() returns (r: Option<Transform>)
      requires Valid()
      modifies this
      ensures Valid() && Reads(TransformCodec(), old(Rest()), r, Rest())
    {
      hide Text, Octet;
      var op := Byte();
      if op.None? { return None; }
      var a := String(MAX_VALUE);
      if a.None? { return None; }
      var b := String(MAX_VALUE);
      if b.None? { return None; }
      return Some(Transform(op.value, a.value, b.value));
    }

    method Transforms() returns (r: Option<seq<Transform>>)
      requires Valid()
      modifies this
      ensures Valid() && Reads(List(1, MAX_TRANSFORMS, TransformCodec()), old(Rest()), r, Rest())
    {
      hide TransformCodec, UInt, DecodeAll;
      ghost var start, c := Rest(), TransformCodec();
      var n := Count(1);
      CountedList(1, MAX_TRANSFORMS, c, start, n, Rest());
      if n.None? || n.value > MAX_TRANSFORMS { return None; }
      ghost var body := Rest();
      var out: seq<Transform> := [];
      ContinueStart(DecodeAll(c, n.value, body));
      for i := 0 to n.value
        invariant Valid() && DecodeAll(c, n.value, body) == Continue(out, DecodeAll(c, n.value - i, Rest()))
      {
        ghost var here := Rest();
        var x := OneTransform();
        ContinueStep(c, out, n.value - i, here, x, Rest());
        if x.None? { return None; }
        out := out + [x.value];
      }
      ContinueEnd(c, out, Rest());
      return Some(out);
    }

    method OnePrincipal() returns (r: Option<Principal>)
      requires Valid()
      modifies this
      ensures Valid() && Reads(PrincipalCodec(), old(Rest()), r, Rest())
    {
      hide Text, Octet, List, TransformCodec;
      var kind := Byte();
      if kind.None? { return None; }
      var value := String(MAX_VALUE);
      if value.None? { return None; }
      var transforms := Transforms();
      if transforms.None? { return None; }
      return Some(Principal(kind.value, value.value, transforms.value));
    }

    method OneRule() returns (r: Option<Rule>)
      requires Valid()
      modifies this
      ensures Valid() && Reads(RuleCodec(), old(Rest()), r, Rest())
    {
      hide Text, List, CondCodec, PrincipalCodec;
      var id := String(MAX_RULE_ID);
      if id.None? { return None; }
      var issuer := String(MAX_VALUE);
      if issuer.None? { return None; }
      var conds := Conditions();
      if conds.None? { return None; }
      var principal := OnePrincipal();
      if principal.None? { return None; }
      return Some(Rule(id.value, issuer.value, conds.value, principal.value));
    }

    method Rules() returns (r: Option<seq<Rule>>)
      requires Valid()
      modifies this
      ensures Valid() && Reads(RulesCodec(), old(Rest()), r, Rest())
    {
      hide RuleCodec, UInt, DecodeAll;
      ghost var start, c := Rest(), RuleCodec();
      var n := Count(2);
      CountedList(2, MAX_RULES, c, start, n, Rest());
      if n.None? || n.value > MAX_RULES { return None; }
      ghost var body := Rest();
      var out: seq<Rule> := [];
      ContinueStart(DecodeAll(c, n.value, body));
      for i := 0 to n.value
        invariant Valid() && DecodeAll(c, n.value, body) == Continue(out, DecodeAll(c, n.value - i, Rest()))
      {
        ghost var here := Rest();
        var x := OneRule();
        ContinueStep(c, out, n.value - i, here, x, Rest());
        if x.None? { return None; }
        out := out + [x.value];
      }
      ContinueEnd(c, out, Rest());
      return Some(out);
    }

    method OneMapping() returns (r: Option<Mapping>)
      requires Valid()
      modifies this
      ensures Valid() && Reads(MappingCodec(), old(Rest()), r, Rest())
    {
      hide Text, Flag, RolesCodec;
      var group := String(MAX_VALUE);
      if group.None? { return None; }
      var isRegex := Bool();
      if isRegex.None? { return None; }
      var roles := Roles();
      if roles.None? { return None; }
      return Some(Mapping(group.value, isRegex.value, roles.value));
    }

    method Mappings() returns (r: Option<seq<Mapping>>)
      requires Valid()
      modifies this
      ensures Valid() && Reads(MappingsCodec(), old(Rest()), r, Rest())
    {
      hide MappingCodec, UInt, DecodeAll;
      ghost var start, c := Rest(), MappingCodec();
      var n := Count(2);
      CountedList(2, MAX_MAPPINGS, c, start, n, Rest());
      if n.None? || n.value > MAX_MAPPINGS { return None; }
      ghost var body := Rest();
      var out: seq<Mapping> := [];
      ContinueStart(DecodeAll(c, n.value, body));
      for i := 0 to n.value
        invariant Valid() && DecodeAll(c, n.value, body) == Continue(out, DecodeAll(c, n.value - i, Rest()))
      {
        ghost var here := Rest();
        var x := OneMapping();
        ContinueStep(c, out, n.value - i, here, x, Rest());
        if x.None? { return None; }
        out := out + [x.value];
      }
      ContinueEnd(c, out, Rest());
      return Some(out);
    }
  }

  /** decodeIdentityPolicy, one cursor read after another, accepts what the format accepts. */
  method ReadIdentityPolicy(re: Regexes, raw: seq<byte>) returns (r: Option<Doc>)
    ensures r == DecodeIdentityPolicy(re, raw)
  {
    hide Text, RolesCodec, RulesCodec, MappingsCodec, Compiles;
    if |raw| > MAX_FILE || |raw| < 8 || raw[..6] != MAGIC { return None; }
    var d := new Cursor(raw, 6);
    var groupClaim := d.String(MAX_CLAIM);
    if groupClaim.None? { return None; }
    var defaultRoles := d.Roles();
    if defaultRoles.None? { return None; }
    var rules := d.Rules();
    if rules.None? { return None; }
    var mappings := d.Mappings();
    if mappings.None? || d.off != |raw| { return None; }
    var doc := Doc(rules.value, groupClaim.value, mappings.value, defaultRoles.value);
    if !Compiles(re, doc) { return None; }
    return Some(doc);
  }
}
