/** The signing keyset: rotation, retirement, its file, and who can sign and verify. */
module TokenKeys {
  import opened Bytes
  import opened Format
  import opened TokenClaims

  const MAX_KEYS := 64
  const KEY_SIZE := 32

  datatype TokenKey = TokenKey(id: nat, created: Time, retired: bool, current: bool, public: seq<byte>,
      seed: Option<seq<byte>>)

  /** Ed25519 as functions: the public key of a seed, and signatures that verify under it. */
  datatype Ed25519 = Ed25519(
    public: seq<byte> -> seq<byte>,
    sign: (seq<byte>, seq<byte>) -> seq<byte>,
    verify: (seq<byte>, seq<byte>, seq<byte>) -> bool)

  ghost predicate Correct(e: Ed25519)
  {
    && (forall seed :: |e.public(seed)| == KEY_SIZE)
    && (forall seed, m :: |e.sign(seed, m)| == SIG_SIZE && e.verify(e.public(seed), m, e.sign(seed, m)))
  }

  // ---- the operations on the key list ----

  function ClearCurrent(keys: seq<TokenKey>): (r: seq<TokenKey>)
    ensures |r| == |keys| && forall i :: 0 <= i < |keys| ==> r[i] == keys[i].(current := false)
  {
    seq(|keys|, i requires 0 <= i < |keys| => keys[i].(current := false))
  }

  function MaxID(keys: seq<TokenKey>): (m: nat)
    ensures forall i :: 0 <= i < |keys| ==> keys[i].id <= m
  {
    if keys == [] then 0
    else
      var m := MaxID(keys[..|keys| - 1]);
      if keys[|keys| - 1].id > m then keys[|keys| - 1].id else m
  }

  lemma NextMax(keys: seq<TokenKey>, i: nat)
    requires i < |keys|
    ensures MaxID(keys[..i + 1]) == if keys[i].id > MaxID(keys[..i]) then keys[i].id else MaxID(keys[..i])
  {
    assert keys[..i + 1][..i] == keys[..i];
  }

  /** Key ids are 32-bit; the sum wraps. */
  function Added(e: Ed25519, keys: seq<TokenKey>, seed: seq<byte>, now: Time): Option<seq<TokenKey>>
  {
    if |keys| >= MAX_KEYS then None
    else Some(ClearCurrent(keys)
        + [TokenKey((MaxID(keys) + 1) % 0x1_0000_0000, now, false, true, e.public(seed), Some(seed))])
  }

  function Live(keys: seq<TokenKey>): nat
  {
    if keys == [] then 0 else Live(keys[..|keys| - 1]) + (if keys[|keys| - 1].retired then 0 else 1)
  }

  /** The last index with this id. */
  function LastWithID(keys: seq<TokenKey>, id: nat): (r: Option<nat>)
    ensures r.Some? ==> r.value < |keys| && keys[r.value].id == id
    ensures r.None? ==> forall i :: 0 <= i < |keys| ==> keys[i].id != id
  {
    if keys == [] then None
    else if keys[|keys| - 1].id == id then Some(|keys| - 1)
    else LastWithID(keys[..|keys| - 1], id)
  }

  /** The live key with the greatest id, the first one of equals. */
  function Newest(keys: seq<TokenKey>): (r: Option<nat>)
    ensures r.Some? ==> r.value < |keys| && !keys[r.value].retired
    ensures r.Some? ==> forall i :: 0 <= i < |keys| && !keys[i].retired ==> keys[i].id <= keys[r.value].id
    ensures r.None? ==> forall i :: 0 <= i < |keys| ==> keys[i].retired
  {
    if keys == [] then None
    else
      var n := |keys| - 1;
      var best := Newest(keys[..n]);
      if keys[n].retired then best
      else if best.None? || keys[n].id > keys[best.value].id then Some(n)
      else best
  }

  datatype Retirement = Unknown | Already | LastActive | Retired(keys: seq<TokenKey>)

  function Retire(keys: seq<TokenKey>, id: nat): Retirement
  {
    match LastWithID(keys, id)
    case None => Unknown
    case Some(i) =>
      if keys[i].retired then Already
      else if Live(keys) <= 1 then LastActive
      else
        var k := keys[i := keys[i].(retired := true, current := false)];
        if !keys[i].current then Retired(k)
        else match Newest(k)
          case None => Retired(k)
          case Some(j) => Retired(k[j := k[j].(current := true)])
  }

  function AfterRetire(keys: seq<TokenKey>, id: nat): seq<TokenKey>
  {
    var r := Retire(keys, id);
    if r.Retired? then r.keys else keys
  }

  /** The keyset object. Each method holds the lock throughout. */
  class TokenKeyset {
    var keys: seq<TokenKey>

    constructor (e: Ed25519, seed: seq<byte>, now: Time)
      requires Correct(e) && |seed| == KEY_SIZE
      ensures Good(e, keys) && keys == Added(e, [], seed, now).value
    {
      keys := [];
      new;
      var id := AddKey(e, seed, now);
      StartGood(e, seed, now);
    }

    method AddKey(e: Ed25519, seed: seq<byte>, now: Time) returns (id: Option<nat>)
      modifies this
      ensures id.None? <==> Added(e, old(keys), seed, now).None?
      ensures id.None? ==> keys == old(keys)
      ensures id.Some? ==> keys == Added(e, old(keys), seed, now).value && id.value == keys[|keys| - 1].id
    {
      hide ClearCurrent;
      if |keys| >= MAX_KEYS { return None; }
      ghost var before := keys;
      var maxID := 0;
      var i := 0;
      while i < |keys|
        invariant 0 <= i <= |keys| == |before| && maxID == MaxID(before[..i])
        invariant forall k :: 0 <= k < i ==> keys[k] == before[k].(current := false)
        invariant forall k :: i <= k < |keys| ==> keys[k] == before[k]
      {
        NextMax(before, i);
        keys := keys[i := keys[i].(current := false)];
        if keys[i].id > maxID { maxID := keys[i].id; }
        i := i + 1;
      }
      assert before[..|before|] == before && keys == ClearCurrent(before);
      keys := keys + [TokenKey((maxID + 1) % 0x1_0000_0000, now, false, true, e.public(seed), Some(seed))];
      return Some((maxID + 1) % 0x1_0000_0000);
    }

    method RetireKey(id: nat) returns (r: Retirement)
      modifies this
      ensures r == Retire(old(keys), id) && keys == AfterRetire(old(keys), id)
    {
      hide Live, Newest, LastWithID;
      var found, live := Scan(id);
      if found < 0 { return Unknown; }
      if keys[found].retired { return Already; }
      if live <= 1 { return LastActive; }
      var wasCurrent := keys[found].current;
      keys := keys[found := keys[found].(retired := true)];
      if wasCurrent {
        keys := keys[found := keys[found].(current := false)];
        assert keys == old(keys)[found := old(keys)[found].(retired := true, current := false)];
        var newest := FindNewest();
        if newest >= 0 {
          keys := keys[newest := keys[newest].(current := true)];
        }
      }
      return Retired(keys);
    }

    /** The first loop of Retire: the last index of the id, and the number of live keys. */
    method Scan(id: nat) returns (found: int, live: nat)
      ensures live == Live(keys) && found == Position(LastWithID(keys, id))
    {
      found, live := -1, 0;
      var i := 0;
      while i < |keys|
        invariant 0 <= i <= |keys|
        invariant live == Live(keys[..i]) && found == Position(LastWithID(keys[..i], id))
      {
        assert keys[..i + 1][..i] == keys[..i];
        if !keys[i].retired { live := live + 1; }
        if keys[i].id == id { found := i; }
        i := i + 1;
      }
      assert keys[..|keys|] == keys;
    }

    /** The second loop of Retire. */
    method FindNewest() returns (newest: int)
      ensures newest == Position(Newest(keys))
    {
      newest := -1;
      var i := 0;
      while i < |keys|
        invariant 0 <= i <= |keys| && newest == Position(Newest(keys[..i]))
      {
        assert keys[..i + 1][..i] == keys[..i];
        if !keys[i].retired && (newest < 0 || keys[i].id > keys[newest].id) { newest := i; }
        i := i + 1;
      }
      assert keys[..|keys|] == keys;
    }
  }

  function Position(o: Option<nat>): int { if o.None? then -1 else o.value }

  function VerifierOf(keys: seq<TokenKey>, id: nat): Option<seq<byte>>
  {
    if keys == [] then None
    else if keys[0].id == id then if keys[0].retired then None else Some(keys[0].public)
    else VerifierOf(keys[1..], id)
  }

  function SignerOf(keys: seq<TokenKey>): Option<(seq<byte>, nat)>
  {
    if keys == [] then None
    else if keys[0].current && !keys[0].retired then
      if keys[0].seed.Some? && |keys[0].seed.value| == KEY_SIZE then Some((keys[0].seed.value, keys[0].id)) else None
    else SignerOf(keys[1..])
  }

  // ---- every run ----

  /** Ids count up from one, every key can sign, and the current key is the newest live one. */
  ghost predicate Good(e: Ed25519, keys: seq<TokenKey>)
  {
    && 1 <= |keys| <= MAX_KEYS
    && (forall i :: 0 <= i < |keys| ==> keys[i].id == i + 1)
    && (forall i :: 0 <= i < |keys| ==>
          keys[i].seed.Some? && |keys[i].seed.value| == KEY_SIZE && keys[i].public == e.public(keys[i].seed.value))
    && exists c :: Sole(keys, c)
  }

  /** c is current, live, and the last live key; nothing else is current. */
  ghost predicate Sole(keys: seq<TokenKey>, c: nat)
  {
    && c < |keys| && keys[c].current && !keys[c].retired
    && (forall i :: 0 <= i < |keys| && i != c ==> !keys[i].current)
    && (forall i :: c < i < |keys| ==> keys[i].retired)
  }

  lemma StartGood(e: Ed25519, seed: seq<byte>, now: Time)
    requires |seed| == KEY_SIZE
    ensures Good(e, Added(e, [], seed, now).value)
  {
    assert Sole(Added(e, [], seed, now).value, 0);
  }

  lemma {:induction false} CountedMax(keys: seq<TokenKey>)
    requires forall i :: 0 <= i < |keys| ==> keys[i].id == i + 1
    ensures MaxID(keys) == |keys|
  {
    if keys != [] { CountedMax(keys[..|keys| - 1]); }
  }

  lemma AddKeepsGood(e: Ed25519, keys: seq<TokenKey>, seed: seq<byte>, now: Time)
    requires Good(e, keys) && |seed| == KEY_SIZE && Added(e, keys, seed, now).Some?
    ensures Good(e, Added(e, keys, seed, now).value)
  {
    CountedMax(keys);
    var r := Added(e, keys, seed, now).value;
    assert Sole(r, |keys|);
  }

  lemma {:induction false} LiveCount(keys: seq<TokenKey>, i: nat, j: nat)
    requires i < j < |keys| && !keys[i].retired && !keys[j].retired
    ensures Live(keys) >= 2
  {
    if j < |keys| - 1 {
      LiveCount(keys[..|keys| - 1], i, j);
    } else {
      LiveOne(keys[..j], i);
    }
  }

  lemma {:induction false} LiveOne(keys: seq<TokenKey>, i: nat)
    requires i < |keys| && !keys[i].retired
    ensures Live(keys) >= 1
  {
    if i < |keys| - 1 { LiveOne(keys[..|keys| - 1], i); }
  }

  lemma {:induction false} LiveTwo(keys: seq<TokenKey>, c: nat) returns (o: nat)
    requires c < |keys| && Live(keys) >= 2
    ensures o < |keys| && o != c && !keys[o].retired
  {
    var n := |keys| - 1;
    if !keys[n].retired && n != c {
      o := n;
    } else if n == c {
      o := LiveSome(keys[..n]);
    } else {
      o := LiveTwo(keys[..n], c);
    }
  }

  lemma {:induction false} LiveSome(keys: seq<TokenKey>) returns (o: nat)
    requires Live(keys) >= 1
    ensures o < |keys| && !keys[o].retired
  {
    var n := |keys| - 1;
    if !keys[n].retired { o := n; } else { o := LiveSome(keys[..n]); }
  }

  lemma RetireKeepsGood(e: Ed25519, keys: seq<TokenKey>, id: nat)
    requires Good(e, keys)
    ensures Good(e, AfterRetire(keys, id))
  {
    hide Live, Newest, LastWithID;
    var c :| Sole(keys, c);
    var r := Retire(keys, id);
    if r.Retired? {
      var i := LastWithID(keys, id).value;
      if i == c {
        var k := keys[i := keys[i].(retired := true, current := false)];
        var o := LiveTwo(keys, c);
        assert !k[o].retired;
        var j := Newest(k).value;
        assert Sole(r.keys, j);
      } else {
        assert Sole(r.keys, c);
      }
    }
  }

  lemma GoodFileable(e: Ed25519, keys: seq<TokenKey>)
    requires Correct(e) && Good(e, keys)
    ensures Fileable(e, keys)
  {
  }

  datatype Op = AddOp(seed: seq<byte>, now: Time) | RetireOp(id: nat) | ReloadOp

  function Apply(e: Ed25519, keys: seq<TokenKey>, op: Op): seq<TokenKey>
  {
    match op
    case AddOp(seed, now) => var r := Added(e, keys, seed, now); if r.Some? then r.value else keys
    case RetireOp(id) => AfterRetire(keys, id)
    case ReloadOp => var r := DecodeTokenKeys(e, EncodeTokenKeys(keys)); if r.Some? then r.value else keys
  }

  function Run(e: Ed25519, keys: seq<TokenKey>, ops: seq<Op>): seq<TokenKey>
  {
    if ops == [] then keys else Apply(e, Run(e, keys, ops[..|ops| - 1]), ops[|ops| - 1])
  }

  /** What no operation changes: the public key of an id once issued; and retirement is final. */
  ghost predicate Extends(old_: seq<TokenKey>, new_: seq<TokenKey>)
  {
    && |old_| <= |new_|
    && forall i :: 0 <= i < |old_| ==>
         new_[i].id == old_[i].id && new_[i].public == old_[i].public && (old_[i].retired ==> new_[i].retired)
  }

  lemma ApplyKeeps(e: Ed25519, keys: seq<TokenKey>, op: Op)
    requires Correct(e) && Good(e, keys) && (op.AddOp? ==> |op.seed| == KEY_SIZE)
    ensures Good(e, Apply(e, keys, op)) && Extends(keys, Apply(e, keys, op))
  {
    hide Good, Correct, Live, Newest, LastWithID, DecodeTokenKeys, EncodeTokenKeys;
    match op
    case AddOp(seed, now) =>
      if Added(e, keys, seed, now).Some? { AddKeepsGood(e, keys, seed, now); }
    case RetireOp(id) => RetireKeepsGood(e, keys, id);
    case ReloadOp =>
      GoodFileable(e, keys);
      KeysRoundTrip(e, keys);
      CutKeepsGood(e, keys);
  }

  /** Every run of AddKey, Retire and Reload of its own file from a created keyset: one current key,
      the newest live one, so there is always a signer; ids distinct; retirement final. */
  lemma {:induction false} RunKeeps(e: Ed25519, keys: seq<TokenKey>, ops: seq<Op>)
    requires Correct(e) && Good(e, keys) && forall i :: 0 <= i < |ops| && ops[i].AddOp? ==> |ops[i].seed| == KEY_SIZE
    ensures Good(e, Run(e, keys, ops)) && Extends(keys, Run(e, keys, ops))
  {
    hide Good, Correct, Apply;
    if ops != [] {
      var init := ops[..|ops| - 1];
      RunKeeps(e, keys, init);
      ApplyKeeps(e, Run(e, keys, init), ops[|ops| - 1]);
    }
  }

  lemma {:induction false} VerifierAt(keys: seq<TokenKey>, base: nat, i: nat)
    requires (forall k :: 0 <= k < |keys| ==> keys[k].id == base + k + 1) && i < |keys|
    ensures VerifierOf(keys, base + i + 1) == if keys[i].retired then None else Some(keys[i].public)
  {
    if i > 0 { VerifierAt(keys[1..], base + 1, i - 1); }
  }

  lemma {:induction false} SignerAt(keys: seq<TokenKey>, c: nat)
    requires c < |keys| && keys[c].current && !keys[c].retired
             && (forall i :: 0 <= i < |keys| && i != c ==> !keys[i].current)
    requires keys[c].seed.Some? && |keys[c].seed.value| == KEY_SIZE
    ensures SignerOf(keys) == Some((keys[c].seed.value, keys[c].id))
  {
    if c > 0 { SignerAt(keys[1..], c - 1); }
  }

  /** A good keyset can sign, with a key its verifiers accept. */
  lemma AlwaysSigns(e: Ed25519, keys: seq<TokenKey>)
    requires Good(e, keys)
    ensures SignerOf(keys).Some?
    ensures var (seed, id) := SignerOf(keys).value;
            1 <= id <= |keys| && |seed| == KEY_SIZE && keys[id - 1].public == e.public(seed)
                && VerifierOf(keys, id) == Some(e.public(seed))
  {
    var c :| Sole(keys, c);
    SignerAt(keys, c);
    VerifierAt(keys, 0, c);
  }

  /** A retired id verifies nothing, in this state or any later one. */
  lemma RetiredForever(e: Ed25519, keys: seq<TokenKey>, ops: seq<Op>, i: nat)
    requires Correct(e) && Good(e, keys) && (forall k :: 0 <= k < |ops| && ops[k].AddOp? ==> |ops[k].seed| == KEY_SIZE)
    requires i < |keys| && keys[i].retired
    ensures VerifierOf(Run(e, keys, ops), i + 1) == None
  {
    hide Run;
    RunKeeps(e, keys, ops);
    VerifierAt(Run(e, keys, ops), 0, i);
  }

  // ---- file ----

  function Flags(k: TokenKey): nat
  {
    (if k.retired then 1 else 0) + (if k.current then 2 else 0) + (if k.seed.Some? then 4 else 0)
  }

  function EncodeKey(k: TokenKey): seq<byte>
  {
    PutLE(k.id, 4)
        + ([Flags(k) as byte] + (I64(Unix(k.created)) + (k.public + (if k.seed.Some? then k.seed.value else []))))
  }

  /** "NSTK" and version 1. */
  const MAGIC: seq<byte> := [0x4e, 0x53, 0x54, 0x4b, 1, 0]

  function EncodeKeysFrom(keys: seq<TokenKey>): seq<byte>
  {
    if keys == [] then [] else EncodeKey(keys[0]) + EncodeKeysFrom(keys[1..])
  }

  function EncodeTokenKeys(keys: seq<TokenKey>): seq<byte> { MAGIC + U16(|keys|) + EncodeKeysFrom(keys) }

  function DecodeKey(e: Ed25519, raw: seq<byte>): Parsed<TokenKey>
  {
    if |raw| < 45 then Bad
    else
      var flags := raw[4] as int;
      var public, rest := raw[13..45], raw[45..];
      I64Exact(raw[5..13]);
      var k := TokenKey(GetLE(raw[..4]), At(GetI64(raw[5..13])), flags % 2 == 1, flags / 2 % 2 == 1, public, None);
      if flags / 4 % 2 == 0 then Parsed(k, rest)
      else if |rest| < KEY_SIZE || e.public(rest[..KEY_SIZE]) != public then Bad
      else Parsed(k.(seed := Some(rest[..KEY_SIZE])), rest[KEY_SIZE..])
  }

  function DecodeKeysFrom(e: Ed25519, n: nat, raw: seq<byte>): Parsed<seq<TokenKey>>
  {
    if n == 0 then Parsed([], raw)
    else
      match DecodeKey(e, raw)
      case Bad => Bad
      case Parsed(k, r1) =>
        match DecodeKeysFrom(e, n - 1, r1)
        case Bad => Bad
        case Parsed(ks, r2) => Parsed([k] + ks, r2)
  }

  predicate DistinctIDs(keys: seq<TokenKey>) { forall i, j :: 0 <= i < j < |keys| ==> keys[i].id != keys[j].id }

  predicate AtMostOneCurrent(keys: seq<TokenKey>)
  {
    forall i, j :: 0 <= i < j < |keys| ==> !(keys[i].current && !keys[i].retired && keys[j].current && !keys[j].retired)
  }

  function DecodeTokenKeys(e: Ed25519, raw: seq<byte>): Option<seq<TokenKey>>
  {
    if |raw| < 8 || raw[..6] != MAGIC || GetLE(raw[6..8]) > MAX_KEYS then None
    else
      match DecodeKeysFrom(e, GetLE(raw[6..8]), raw[8..])
      case Bad => None
      case Parsed(keys, rest) =>
        if rest != [] || keys == [] || !DistinctIDs(keys) || !AtMostOneCurrent(keys) then None else Some(keys)
  }

  function CutKey(k: TokenKey): TokenKey { k.(created := Cut(k.created)) }

  function CutKeys(keys: seq<TokenKey>): (r: seq<TokenKey>)
    ensures |r| == |keys| && forall i :: 0 <= i < |keys| ==> r[i] == CutKey(keys[i])
  {
    seq(|keys|, i requires 0 <= i < |keys| => CutKey(keys[i]))
  }

  ghost predicate Storable(e: Ed25519, k: TokenKey)
  {
    k.id < 0x1_0000_0000 && |k.public| == KEY_SIZE
        && (k.seed.Some? ==> |k.seed.value| == KEY_SIZE && e.public(k.seed.value) == k.public)
  }

  lemma KeyRoundTrip(e: Ed25519, k: TokenKey, rest: seq<byte>)
    requires Storable(e, k)
    ensures DecodeKey(e, EncodeKey(k) + rest) == Parsed(CutKey(k), rest)
  {
    hide PutLE, GetLE, I64, GetI64;
    var raw := EncodeKey(k) + rest;
    Pow256Values();
    GetPut(k.id, 4);
    I64RoundTrip(Unix(k.created));
    assert raw[..4] == PutLE(k.id, 4) && raw[4] == Flags(k) as byte && raw[5..13] == I64(Unix(k.created))
      && raw[13..45] == k.public;
    var tail := if k.seed.Some? then k.seed.value else [];
    assert raw[45..] == tail + rest;
    if k.seed.Some? {
      assert (tail + rest)[..KEY_SIZE] == tail && (tail + rest)[KEY_SIZE..] == rest;
    }
  }

  lemma {:induction false} KeysFromRoundTrip(e: Ed25519, keys: seq<TokenKey>)
    requires forall i :: 0 <= i < |keys| ==> Storable(e, keys[i])
    ensures DecodeKeysFrom(e, |keys|, EncodeKeysFrom(keys)) == Parsed(CutKeys(keys), [])
  {
    hide EncodeKey, DecodeKey, CutKey, Storable;
    if keys != [] {
      KeysFromRoundTrip(e, keys[1..]);
      KeyRoundTrip(e, keys[0], EncodeKeysFrom(keys[1..]));
      assert CutKeys(keys) == [CutKey(keys[0])] + CutKeys(keys[1..]);
    }
  }

  /** What the decoder accepts besides well-formed records. */
  ghost predicate Fileable(e: Ed25519, keys: seq<TokenKey>)
  {
    && 1 <= |keys| <= MAX_KEYS && DistinctIDs(keys) && AtMostOneCurrent(keys)
    && forall i :: 0 <= i < |keys| ==> Storable(e, keys[i])
  }

  /** The file decodes to the keyset, times cut to seconds. */
  lemma KeysRoundTrip(e: Ed25519, keys: seq<TokenKey>)
    requires Fileable(e, keys)
    ensures DecodeTokenKeys(e, EncodeTokenKeys(keys)) == Some(CutKeys(keys))
  {
    hide EncodeKeysFrom, DecodeKeysFrom, GetLE, PutLE;
    var raw := EncodeTokenKeys(keys);
    Pow256Values();
    GetPut(|keys|, 2);
    assert raw[..6] == MAGIC && raw[6..8] == U16(|keys|) && raw[8..] == EncodeKeysFrom(keys);
    KeysFromRoundTrip(e, keys);
  }

  /** The copy handed to verifying servers. */
  function PublicOnly(keys: seq<TokenKey>): (r: seq<TokenKey>)
    ensures |r| == |keys| && forall i :: 0 <= i < |keys| ==> r[i] == keys[i].(seed := None)
  {
    seq(|keys|, i requires 0 <= i < |keys| => keys[i].(seed := None))
  }

  lemma {:induction false} SameVerifiers(a: seq<TokenKey>, b: seq<TokenKey>, id: nat)
    requires |a| == |b|
             && forall i :: 0 <= i < |a| ==>
                  a[i].id == b[i].id && a[i].retired == b[i].retired && a[i].public == b[i].public
    ensures VerifierOf(a, id) == VerifierOf(b, id)
  {
    if a != [] { SameVerifiers(a[1..], b[1..], id); }
  }

  lemma {:induction false} NoSeedNoSigner(keys: seq<TokenKey>)
    requires forall i :: 0 <= i < |keys| ==> keys[i].seed.None?
    ensures SignerOf(keys).None?
  {
    if keys != [] { NoSeedNoSigner(keys[1..]); }
  }

  /** A server that loads the published file verifies exactly what the issuer verifies, and cannot sign. */
  lemma PublishedKeys(e: Ed25519, keys: seq<TokenKey>, id: nat)
    requires Fileable(e, keys)
    ensures var served := DecodeTokenKeys(e, EncodeTokenKeys(PublicOnly(keys)));
            served.Some? && VerifierOf(served.value, id) == VerifierOf(keys, id) && SignerOf(served.value).None?
  {
    hide EncodeTokenKeys, DecodeTokenKeys, VerifierOf, SignerOf, PublicOnly, CutKeys;
    var pub := PublicOnly(keys);
    KeysRoundTrip(e, pub);
    SameVerifiers(CutKeys(pub), keys, id);
    NoSeedNoSigner(CutKeys(pub));
  }

  lemma CutKeepsGood(e: Ed25519, keys: seq<TokenKey>)
    requires Good(e, keys)
    ensures Good(e, CutKeys(keys)) && Extends(keys, CutKeys(keys))
  {
    var c :| Sole(keys, c);
    assert Sole(CutKeys(keys), c);
  }
}
