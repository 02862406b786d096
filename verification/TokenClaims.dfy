/** The signed region and the wire text of a short-lived credential. */
module TokenClaims {
  import opened Bytes
  import opened Format
  import opened TokenText
  import B64 = Base64url

  const MAX_PRINCIPAL := 128
  const MAX_SCOPE := 128
  const MAX_BLOB := 4096
  const SIG_SIZE := 64
  const ID_SIZE := 16
  const HEADER_SIZE := 50

  // ---- times ----

  const SECOND := 1_000_000_000

  /** Unix seconds, rounded down. */
  function Unix(t: int): int { t / SECOND }

  /** An instant in nanoseconds whose Unix seconds fit 64 bits. */
  type Time = t: int | FitsI64(Unix(t)) witness 0

  /** What survives a trip through Unix seconds. */
  function Cut(t: Time): (r: Time)
    ensures r <= t < r + SECOND && r % SECOND == 0
  {
    Unix(t) * SECOND
  }

  predicate Whole(t: int) { t % SECOND == 0 }

  datatype Claims = Claims(
    keyID: nat,
    tokenID: seq<byte>,
    issuedAt: Time,
    notBefore: Time,
    expiresAt: Time,
    principal: Str,
    audience: Str,
    database: Str,
    realm: Str,
    roles: seq<Str>)

  // ---- layout ----

  type Scope = (Str, (Str, (Str, (Str, seq<Str>))))
  type Fields = (nat, (seq<byte>, (int, (int, (int, Scope)))))

  function ScopeCodec(): Codec<Scope>
  {
    Pair(Text(MAX_PRINCIPAL), Pair(Text(MAX_SCOPE), Pair(Text(MAX_SCOPE), Pair(Text(MAX_SCOPE),
      List(2, MAX_ROLES, Text(MAX_ROLE_LEN))))))
  }

  function FieldsCodec(): Codec<Fields>
  {
    Pair(UInt(4, 0xffff_ffff), Pair(Raw(ID_SIZE), Pair(Int64(), Pair(Int64(), Pair(Int64(), ScopeCodec())))))
  }

  lemma ScopeLawful()
    ensures Lawful(ScopeCodec())
  {
    hide Text, List, Pair, Lawful;
    Pow256Values();
    TextLawful(128);
    ListLawful(2, MAX_ROLES, Text(MAX_ROLE_LEN));
    var roles := List(2, MAX_ROLES, Text(MAX_ROLE_LEN));
    PairLawful(Text(MAX_SCOPE), roles);
    PairLawful(Text(MAX_SCOPE), Pair(Text(MAX_SCOPE), roles));
    PairLawful(Text(MAX_SCOPE), Pair(Text(MAX_SCOPE), Pair(Text(MAX_SCOPE), roles)));
    PairLawful(Text(MAX_PRINCIPAL), Pair(Text(MAX_SCOPE), Pair(Text(MAX_SCOPE), Pair(Text(MAX_SCOPE), roles))));
  }

  lemma FieldsLawful()
    ensures Lawful(FieldsCodec())
  {
    hide Text, List, Pair, Lawful, UInt, Raw, Int64, ScopeCodec;
    Pow256Values();
    ScopeLawful();
    UIntLawful(4, 0xffff_ffff);
    RawLawful(ID_SIZE);
    Int64Lawful();
    var c1 := Pair(Int64(), ScopeCodec());
    PairLawful(Int64(), ScopeCodec());
    PairLawful(Int64(), c1);
    PairLawful(Int64(), Pair(Int64(), c1));
    PairLawful(Raw(ID_SIZE), Pair(Int64(), Pair(Int64(), c1)));
    PairLawful(UInt(4, 0xffff_ffff), Pair(Raw(ID_SIZE), Pair(Int64(), Pair(Int64(), c1))));
  }

  function FieldsOf(c: Claims): Fields
  {
    (c.keyID, (c.tokenID, (Unix(c.issuedAt), (Unix(c.notBefore), (Unix(c.expiresAt),
      (c.principal, (c.audience, (c.database, (c.realm, c.roles)))))))))
  }

  /** "NSSC" and version 1. */
  const MAGIC: seq<byte> := [0x4e, 0x53, 0x53, 0x43, 1, 0]

  /** The claims as the region stores them: names normalised, times cut to seconds, roles distinct. */
  function Normalised(c: Claims): Claims
  {
    Claims(c.keyID, c.tokenID, Cut(c.issuedAt), Cut(c.notBefore), Cut(c.expiresAt),
           Norm(c.principal), Norm(c.audience), Norm(c.database), Norm(c.realm), Dedup(c.roles))
  }

  predicate Encodable(c: Claims)
  {
    && 1 <= |Norm(c.principal)| <= MAX_PRINCIPAL && |Norm(c.audience)| <= MAX_SCOPE
    && |Norm(c.database)| <= MAX_SCOPE && |Norm(c.realm)| <= MAX_SCOPE
    && RolesAcceptable(c.roles) && c.keyID <= 0xffff_ffff && |c.tokenID| == ID_SIZE
  }

  function EncodeTokenClaims(c: Claims): (r: Option<seq<byte>>)
  {
    if !Encodable(c) then None else Some(MAGIC + FieldsCodec().enc(FieldsOf(Normalised(c))))
  }

  function DecodeTokenClaims(raw: seq<byte>): Option<Claims>
  {
    if |raw| < HEADER_SIZE then None
    else
      var f := WholeFile(MAGIC, FieldsCodec(), raw);
      if f.None? then None
      else
        var t, scope := f.value.1.1, f.value.1.1.1.1.1;
        if !FitsI64(t.0) || !FitsI64(t.1.0) || !FitsI64(t.1.1.0) || Norm(scope.0) == [] then None
        else Some(Claims(f.value.0, f.value.1.0, At(t.0), At(t.1.0), At(t.1.1.0),
                         scope.0, scope.1.0, scope.1.1.0, scope.1.1.1.0, scope.1.1.1.1))
  }

  /** The instant of a stored second. */
  function At(s: int): (t: Time)
    requires FitsI64(s)
    ensures Unix(t) == s && Whole(t)
  {
    s * SECOND
  }

  lemma NormalisedFields(c: Claims)
    requires Encodable(c)
    ensures FieldsCodec().ok(FieldsOf(Normalised(c)))
    ensures GoodRoles(Normalised(c).roles)
  {
    hide Norm, Dedup, ScopeCodec;
    DedupGood(c.roles);
    var n := Normalised(c);
    ScopeOk((n.principal, (n.audience, (n.database, (n.realm, n.roles)))));
  }

  lemma ScopeOk(s: Scope)
    requires |s.0| <= MAX_PRINCIPAL && |s.1.0| <= MAX_SCOPE && |s.1.1.0| <= MAX_SCOPE && |s.1.1.1.0| <= MAX_SCOPE
             && GoodRoles(s.1.1.1.1)
    ensures ScopeCodec().ok(s)
  {
    hide Norm;
    var roles := s.1.1.1.1;
    assert AllOk(Text(MAX_ROLE_LEN), roles) by {
      forall i | 0 <= i < |roles| ensures |roles[i]| <= MAX_ROLE_LEN { assert GoodRole(roles[i]); }
    }
  }

  /** Decoding an encoded region returns the normalised claims, and the region fits the wire limit. */
  lemma ClaimsRoundTrip(c: Claims)
    requires Encodable(c)
    ensures DecodeTokenClaims(EncodeTokenClaims(c).value) == Some(Normalised(c))
    ensures HEADER_SIZE <= |EncodeTokenClaims(c).value| && |EncodeTokenClaims(c).value| + SIG_SIZE <= MAX_BLOB
  {
    hide Norm, Dedup, FieldsCodec, Lawful;
    var n, raw := Normalised(c), EncodeTokenClaims(c).value;
    NormalisedFields(c);
    FieldsLawful();
    WholeFileExact(MAGIC, FieldsCodec(), raw, FieldsOf(n));
    RegionSize(n);
    NormFixed(c.principal);
    assert At(Unix(n.issuedAt)) == n.issuedAt && At(Unix(n.notBefore)) == n.notBefore
      && At(Unix(n.expiresAt)) == n.expiresAt;
  }

  lemma RegionSize(n: Claims)
    requires FieldsCodec().ok(FieldsOf(n))
    ensures 44 + 10 <= |FieldsCodec().enc(FieldsOf(n))| <= 44 + 4 * 130 + 2 + 16 * 130
  {
    RolesSize(n.roles);
    var scope := (n.principal, (n.audience, (n.database, (n.realm, n.roles))));
    ScopeSize(scope);
    assert FieldsCodec().enc(FieldsOf(n)) == PutLE(n.keyID, 4) + (n.tokenID + (I64(Unix(n.issuedAt))
      + (I64(Unix(n.notBefore)) + (I64(Unix(n.expiresAt)) + ScopeCodec().enc(scope)))));
  }

  lemma ScopeSize(s: Scope)
    requires ScopeCodec().ok(s)
    ensures 10 <= |ScopeCodec().enc(s)| <= 4 * 130 + 2 + 16 * 130
  {
    RolesSize(s.1.1.1.1);
    assert ScopeCodec().enc(s)
      == (U16(|s.0|) + s.0) + ((U16(|s.1.0|) + s.1.0) + ((U16(|s.1.1.0|) + s.1.1.0) + ((U16(|s.1.1.1.0|) + s.1.1.1.0)
      + (PutLE(|s.1.1.1.1|, 2) + EncodeAll(Text(MAX_ROLE_LEN), s.1.1.1.1)))));
  }

  lemma {:induction false} RolesSize(rs: seq<Str>)
    requires AllOk(Text(MAX_ROLE_LEN), rs)
    ensures |EncodeAll(Text(MAX_ROLE_LEN), rs)| <= 130 * |rs|
  {
    if rs != [] {
      assert Text(MAX_ROLE_LEN).ok(rs[0]);
      assert |Text(MAX_ROLE_LEN).enc(rs[0])| <= 130;
      RolesSize(rs[1..]);
    }
  }

  // ---- wire text ----

  /** "NSSC1." */
  const PREFIX: string := "NSSC1."

  function EncodeToken(signed: seq<byte>, sig: seq<byte>): string { PREFIX + B64.Encode(signed + sig) }

  /** The signed region and the signature behind it. */
  function SplitToken(token: string): Option<(seq<byte>, seq<byte>)>
  {
    if |token| < 6 || token[..6] != PREFIX then None
    else
      var body := token[6..];
      if body == "" || 3 * |body| / 4 > MAX_BLOB then None
      else
        match B64.Decode(body)
        case None => None
        case Some(blob) =>
          if |body| % 4 == 1 || |blob| < HEADER_SIZE + SIG_SIZE then None
          else Some((blob[..|blob| - SIG_SIZE], blob[|blob| - SIG_SIZE..]))
  }

  lemma TokenRoundTrip(signed: seq<byte>, sig: seq<byte>)
    requires |sig| == SIG_SIZE && HEADER_SIZE <= |signed| && |signed| + SIG_SIZE <= MAX_BLOB
    ensures SplitToken(EncodeToken(signed, sig)) == Some((signed, sig))
  {
    hide B64.Encode, B64.Decode;
    var blob := signed + sig;
    var body := B64.Encode(blob);
    B64.DecodeEncode(blob);
    var token := EncodeToken(signed, sig);
    assert token[..6] == PREFIX && token[6..] == body;
    assert blob[..|blob| - SIG_SIZE] == signed && blob[|blob| - SIG_SIZE..] == sig;
  }
}
