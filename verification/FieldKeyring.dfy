/** The durable field keyring of the Go driver: rotation, revocation, and its file. */
module FieldKeyring {
  import opened Bytes
  import opened Format
  import opened TokenClaims

  const MAX_KEYS := 64
  const MAX_ID := 64
  const MATERIAL := 32

  datatype FieldKey = FieldKey(id: seq<byte>, material: seq<byte>)
  datatype Key = Key(id: seq<byte>, created: Time, current: bool, revoked: bool, material: seq<byte>)

  /** Thirty-two zero bytes. */
  function Zero(): (z: seq<byte>)
    ensures |z| == MATERIAL && forall i :: 0 <= i < MATERIAL ==> z[i] == 0
  {
    [0, 0, 0, 0, 0, 0, 0, 0, 0, 0, 0, 0, 0, 0, 0, 0, 0, 0, 0, 0, 0, 0, 0, 0, 0, 0, 0, 0, 0, 0, 0, 0]
  }

  predicate IdByte(c: byte)
  {
    0x61 <= c <= 0x7a || 0x41 <= c <= 0x5a || 0x30 <= c <= 0x39 || c == 0x2e || c == 0x5f || c == 0x2d
  }

  predicate ValidId(id: seq<byte>) { 1 <= |id| <= MAX_ID && forall i :: 0 <= i < |id| ==> IdByte(id[i]) }

  /** validateFieldKeyForKeyring; the material is a 32-byte array. */
  predicate Usable(k: FieldKey) { ValidId(k.id) && k.material != Zero() }

  // ---- operations on the record list ----

  function Find(keys: seq<Key>, id: seq<byte>): (r: Option<nat>)
    ensures r.Some? ==> r.value < |keys| && keys[r.value].id == id && forall k :: 0 <= k < r.value ==> keys[k].id != id
    ensures r.None? ==> forall k :: 0 <= k < |keys| ==> keys[k].id != id
  {
    if keys == [] then None
    else if keys[0].id == id then Some(0)
    else match Find(keys[1..], id) case None => None case Some(i) => Some(i + 1)
  }

  /** Key i becomes the only current key, with this material. */
  function Promoted(keys: seq<Key>, i: nat, material: seq<byte>): (r: seq<Key>)
    requires i < |keys|
    ensures |r| == |keys|
    ensures forall k :: 0 <= k < |keys| ==>
              r[k] == if k == i then keys[k].(current := true, material := material) else keys[k].(current := false)
  {
    seq(|keys|, k requires 0 <= k < |keys| =>
      if k == i then keys[k].(current := true, material := material) else keys[k].(current := false))
  }

  /** None when refused. */
  function Rotated(keys: seq<Key>, key: FieldKey, now: Time): Option<seq<Key>>
  {
    if !Usable(key) then None
    else
      match Find(keys, key.id)
      case None =>
        if |keys| >= MAX_KEYS then None
        else Some(Promoted(keys + [Key(key.id, now, false, false, Zero())], |keys|, key.material))
      case Some(i) => if keys[i].revoked then None else Some(Promoted(keys, i, key.material))
  }

  datatype Outcome = Unknown | IsCurrent | Already | Done

  function RevokeOutcome(keys: seq<Key>, id: seq<byte>): Outcome
  {
    match Find(keys, id)
    case None => Unknown
    case Some(i) => if keys[i].current then IsCurrent else if keys[i].revoked then Already else Done
  }

  function Revoked(keys: seq<Key>, id: seq<byte>): seq<Key>
  {
    if RevokeOutcome(keys, id) == Done then
      var i := Find(keys, id).value;
      keys[i := keys[i].(revoked := true, material := Zero())]
    else keys
  }

  function Resolve(keys: seq<Key>, id: seq<byte>): Option<FieldKey>
  {
    match Find(keys, id)
    case None => None
    case Some(i) => if keys[i].revoked then None else Some(FieldKey(keys[i].id, keys[i].material))
  }

  function CurrentKey(keys: seq<Key>): Option<FieldKey>
  {
    if keys == [] then None
    else if keys[0].current && !keys[0].revoked then Some(FieldKey(keys[0].id, keys[0].material))
    else CurrentKey(keys[1..])
  }

  // ---- the invariant ----

  ghost predicate GoodKey(k: Key) { ValidId(k.id) && |k.material| == MATERIAL && (k.revoked <==> k.material == Zero()) }

  predicate DistinctIds(keys: seq<Key>) { forall i, j :: 0 <= i < j < |keys| ==> keys[i].id != keys[j].id }

  ghost predicate Sole(keys: seq<Key>, c: nat)
  {
    c < |keys| && keys[c].current && !keys[c].revoked && forall i :: 0 <= i < |keys| && i != c ==> !keys[i].current
  }

  /** One current key, not revoked; distinct ids; at most 64 records; zero material exactly on revoked ones. */
  ghost predicate Good(keys: seq<Key>)
  {
    && 1 <= |keys| <= MAX_KEYS && DistinctIds(keys) && (forall i :: 0 <= i < |keys| ==> GoodKey(keys[i]))
    && exists c :: Sole(keys, c)
  }

  lemma StartGood(key: FieldKey, now: Time)
    requires Usable(key) && |key.material| == MATERIAL
    ensures Good([Key(key.id, now, true, false, key.material)])
  {
    assert Sole([Key(key.id, now, true, false, key.material)], 0);
  }

  lemma PromotedGood(keys: seq<Key>, i: nat, material: seq<byte>)
    requires 1 <= |keys| <= MAX_KEYS && DistinctIds(keys) && i < |keys| && !keys[i].revoked && ValidId(keys[i].id)
    requires |material| == MATERIAL && material != Zero()
    requires forall k :: 0 <= k < |keys| && k != i ==> GoodKey(keys[k])
    ensures Good(Promoted(keys, i, material))
  {
    hide ValidId, Promoted;
    var r := Promoted(keys, i, material);
    forall k | 0 <= k < |r| ensures GoodKey(r[k]) { if k != i { assert GoodKey(keys[k]); } }
    assert Sole(r, i);
  }

  lemma RotateKeepsGood(keys: seq<Key>, key: FieldKey, now: Time)
    requires Good(keys) && |key.material| == MATERIAL && Rotated(keys, key, now).Some?
    ensures Good(Rotated(keys, key, now).value)
  {
    hide ValidId, Promoted;
    match Find(keys, key.id)
    case None =>
      var more := keys + [Key(key.id, now, false, false, Zero())];
      forall k | 0 <= k < |keys| ensures GoodKey(more[k]) { assert more[k] == keys[k]; }
      PromotedGood(more, |keys|, key.material);
    case Some(i) => PromotedGood(keys, i, key.material);
  }

  lemma RevokeKeepsGood(keys: seq<Key>, id: seq<byte>)
    requires Good(keys)
    ensures Good(Revoked(keys, id))
  {
    hide ValidId;
    var r := Revoked(keys, id);
    if RevokeOutcome(keys, id) == Done {
      var i := Find(keys, id).value;
      var c :| Sole(keys, c);
      assert GoodKey(keys[i]);
      forall k | 0 <= k < |r| ensures GoodKey(r[k]) { if k != i { assert GoodKey(keys[k]); } }
      assert Sole(r, c);
    }
  }

  // ---- every run ----

  datatype Op = RotateOp(key: FieldKey, now: Time) | RevokeOp(id: seq<byte>) | ReloadOp

  function Apply(keys: seq<Key>, op: Op): seq<Key>
  {
    match op
    case RotateOp(key, now) => var r := Rotated(keys, key, now); if r.Some? then r.value else keys
    case RevokeOp(id) => Revoked(keys, id)
    case ReloadOp => var r := DecodeFieldKeyring(EncodeFieldKeyring(keys)); if r.Some? then r.value else keys
  }

  function Run(keys: seq<Key>, ops: seq<Op>): seq<Key>
  {
    if ops == [] then keys else Apply(Run(keys, ops[..|ops| - 1]), ops[|ops| - 1])
  }

  predicate Material(op: Op) { op.RotateOp? ==> |op.key.material| == MATERIAL }

  /** Records keep their place and id, and a revoked one stays revoked. */
  ghost predicate Extends(a: seq<Key>, b: seq<Key>)
  {
    |a| <= |b| && forall i :: 0 <= i < |a| ==> b[i].id == a[i].id && (a[i].revoked ==> b[i].revoked)
  }

  lemma ApplyKeeps(keys: seq<Key>, op: Op)
    requires Good(keys) && Material(op)
    ensures Good(Apply(keys, op)) && Extends(keys, Apply(keys, op))
  {
    hide Good, DecodeFieldKeyring, EncodeFieldKeyring, ValidId, Promoted;
    match op
    case RotateOp(key, now) => if Rotated(keys, key, now).Some? { RotateKeepsGood(keys, key, now); }
    case RevokeOp(id) => RevokeKeepsGood(keys, id);
    case ReloadOp =>
      KeyringRoundTrip(keys);
      CutKeepsGood(keys);
  }

  /** Every run of Rotate, Revoke and Reload of its own file keeps the invariant. */
  lemma {:induction false} RunKeeps(keys: seq<Key>, ops: seq<Op>)
    requires Good(keys) && forall i :: 0 <= i < |ops| ==> Material(ops[i])
    ensures Good(Run(keys, ops)) && Extends(keys, Run(keys, ops))
  {
    hide Good, Apply;
    if ops != [] {
      var init := ops[..|ops| - 1];
      RunKeeps(keys, init);
      ApplyKeeps(Run(keys, init), ops[|ops| - 1]);
    }
  }

  lemma FindsOnly(keys: seq<Key>, i: nat)
    requires DistinctIds(keys) && i < |keys|
    ensures Find(keys, keys[i].id) == Some(i)
  {
  }

  lemma {:induction false} CurrentIs(keys: seq<Key>, c: nat)
    requires Sole(keys, c)
    ensures CurrentKey(keys) == Some(FieldKey(keys[c].id, keys[c].material))
  {
    if c > 0 {
      assert Sole(keys[1..], c - 1);
      CurrentIs(keys[1..], c - 1);
    }
  }

  /** There is always a current key, it resolves by its id, and its material is not zero. */
  lemma CurrentResolves(keys: seq<Key>)
    requires Good(keys)
    ensures CurrentKey(keys).Some? && Resolve(keys, CurrentKey(keys).value.id) == CurrentKey(keys)
    ensures CurrentKey(keys).value.material != Zero()
  {
    hide ValidId;
    var c: nat :| Sole(keys, c);
    CurrentIs(keys, c);
    FindsOnly(keys, c);
    assert GoodKey(keys[c]);
  }

  /** Once revoked, an id neither resolves nor is current in any later state of any run. */
  lemma RevokedForever(keys: seq<Key>, ops: seq<Op>, i: nat)
    requires Good(keys) && (forall k :: 0 <= k < |ops| ==> Material(ops[k])) && i < |keys| && keys[i].revoked
    ensures var later := Run(keys, ops);
            Resolve(later, keys[i].id) == None && CurrentKey(later).Some? && CurrentKey(later).value.id != keys[i].id
  {
    hide Run, ValidId;
    RunKeeps(keys, ops);
    var later := Run(keys, ops);
    assert later[i].id == keys[i].id && later[i].revoked;
    FindsOnly(later, i);
    CurrentResolves(later);
  }

  // ---- file ----

  /** "NSFK" and version 1. */
  const MAGIC: seq<byte> := [0x4e, 0x53, 0x46, 0x4b, 1, 0]

  function Flags(k: Key): byte { (if k.current then 1 else 0) + (if k.revoked then 2 else 0) }

  function EncodeKey(k: Key): seq<byte>
    requires |k.id| <= MAX_ID
  {
    [|k.id| as byte] + (k.id + (I64(Unix(k.created)) + ([Flags(k)] + k.material)))
  }

  function EncodeAllKeys(keys: seq<Key>): seq<byte>
    requires forall i :: 0 <= i < |keys| ==> |keys[i].id| <= MAX_ID
  {
    if keys == [] then [] else EncodeKey(keys[0]) + EncodeAllKeys(keys[1..])
  }

  /** Empty where the encoder reports an error. */
  function EncodeFieldKeyring(keys: seq<Key>): seq<byte>
  {
    if |keys| > MAX_KEYS || exists i :: 0 <= i < |keys| && !(1 <= |keys[i].id| <= MAX_ID) then []
    else MAGIC + U16(|keys|) + EncodeAllKeys(keys)
  }

  function DecodeKey(raw: seq<byte>): Parsed<Key>
  {
    if raw == [] then Bad
    else
      var n := raw[0] as int;
      if n < 1 || n > MAX_ID || |raw| < 1 + n + 9 + MATERIAL || !ValidId(raw[1..1 + n]) then Bad
      else
        I64Exact(raw[1 + n..9 + n]);
        var flags, material := raw[9 + n] as int, raw[10 + n..10 + n + MATERIAL];
        var k := Key(raw[1..1 + n], At(GetI64(raw[1 + n..9 + n])), flags % 2 == 1, flags / 2 % 2 == 1, material);
        if (k.current && k.revoked) || (k.revoked != (material == Zero())) then Bad
        else Parsed(k, raw[10 + n + MATERIAL..])
  }

  function DecodeAllKeys(n: nat, raw: seq<byte>): Parsed<seq<Key>>
  {
    if n == 0 then Parsed([], raw)
    else
      match DecodeKey(raw)
      case Bad => Bad
      case Parsed(k, r1) =>
        match DecodeAllKeys(n - 1, r1)
        case Bad => Bad
        case Parsed(ks, r2) => Parsed([k] + ks, r2)
  }

  function Currents(keys: seq<Key>): nat
  {
    if keys == [] then 0 else (if keys[0].current then 1 else 0) + Currents(keys[1..])
  }

  function DecodeFieldKeyring(raw: seq<byte>): Option<seq<Key>>
  {
    if |raw| < 8 || raw[..6] != MAGIC || GetLE(raw[6..8]) > MAX_KEYS then None
    else
      match DecodeAllKeys(GetLE(raw[6..8]), raw[8..])
      case Bad => None
      case Parsed(keys, rest) =>
        if rest != [] || keys == [] || !DistinctIds(keys) || Currents(keys) != 1 then None else Some(keys)
  }

  function CutKey(k: Key): Key { k.(created := Cut(k.created)) }

  function CutKeys(keys: seq<Key>): (r: seq<Key>)
    ensures |r| == |keys| && forall i :: 0 <= i < |keys| ==> r[i] == CutKey(keys[i])
  {
    seq(|keys|, i requires 0 <= i < |keys| => CutKey(keys[i]))
  }

  lemma KeyRoundTrip(k: Key, rest: seq<byte>)
    requires GoodKey(k) && !(k.current && k.revoked)
    ensures DecodeKey(EncodeKey(k) + rest) == Parsed(CutKey(k), rest)
  {
    hide I64, GetI64, ValidId, Zero, Flags;
    IdLength(k.id);
    var raw, n := EncodeKey(k) + rest, |k.id|;
    I64RoundTrip(Unix(k.created));
    assert raw[0] as int == n && raw[1..1 + n] == k.id && raw[1 + n..9 + n] == I64(Unix(k.created));
    assert raw[9 + n] == Flags(k);
    FlagsRead(k);
    assert raw[10 + n..10 + n + MATERIAL] == k.material && raw[10 + n + MATERIAL..] == rest;
  }

  lemma FlagsRead(k: Key)
    ensures Flags(k) as int % 2 == 1 <==> k.current
    ensures Flags(k) as int / 2 % 2 == 1 <==> k.revoked
  {
  }

  lemma IdLength(id: seq<byte>)
    requires ValidId(id)
    ensures 1 <= |id| <= MAX_ID
  {
  }

  lemma {:induction false} AllKeysRoundTrip(keys: seq<Key>)
    requires forall i :: 0 <= i < |keys| ==>
               |keys[i].id| <= MAX_ID && GoodKey(keys[i]) && !(keys[i].current && keys[i].revoked)
    ensures DecodeAllKeys(|keys|, EncodeAllKeys(keys)) == Parsed(CutKeys(keys), [])
  {
    hide EncodeKey, DecodeKey, CutKey, GoodKey;
    if keys != [] {
      AllKeysRoundTrip(keys[1..]);
      KeyRoundTrip(keys[0], EncodeAllKeys(keys[1..]));
      assert CutKeys(keys) == [CutKey(keys[0])] + CutKeys(keys[1..]);
    }
  }

  lemma {:induction false} NoCurrents(keys: seq<Key>)
    requires forall i :: 0 <= i < |keys| ==> !keys[i].current
    ensures Currents(keys) == 0
  {
    if keys != [] { NoCurrents(keys[1..]); }
  }

  lemma {:induction false} OneCurrent(keys: seq<Key>, c: nat)
    requires c < |keys| && keys[c].current && forall i :: 0 <= i < |keys| && i != c ==> !keys[i].current
    ensures Currents(keys) == 1
  {
    if c == 0 { NoCurrents(keys[1..]); } else { OneCurrent(keys[1..], c - 1); }
  }

  /** The file of a good keyring decodes to that keyring, times cut to seconds. */
  lemma KeyringRoundTrip(keys: seq<Key>)
    requires Good(keys)
    ensures DecodeFieldKeyring(EncodeFieldKeyring(keys)) == Some(CutKeys(keys))
  {
    hide GetLE, PutLE, EncodeAllKeys, DecodeAllKeys, CutKey, ValidId;
    var c :| Sole(keys, c);
    forall i | 0 <= i < |keys|
        ensures 1 <= |keys[i].id| <= MAX_ID && GoodKey(keys[i]) && !(keys[i].current && keys[i].revoked) {
      assert GoodKey(keys[i]);
      IdLength(keys[i].id);
    }
    var raw := EncodeFieldKeyring(keys);
    Pow256Values();
    GetPut(|keys|, 2);
    assert raw[..6] == MAGIC && raw[6..8] == U16(|keys|) && raw[8..] == EncodeAllKeys(keys);
    AllKeysRoundTrip(keys);
    CutSame(keys);
    OneCurrent(CutKeys(keys), c);
  }

  lemma CutSame(keys: seq<Key>)
    ensures forall i :: 0 <= i < |keys| ==>
              CutKeys(keys)[i].id == keys[i].id && CutKeys(keys)[i].current == keys[i].current
  {
  }

  lemma CutKeepsGood(keys: seq<Key>)
    requires Good(keys)
    ensures Good(CutKeys(keys)) && Extends(keys, CutKeys(keys)) && CutKeys(CutKeys(keys)) == CutKeys(keys)
  {
    hide ValidId;
    var r := CutKeys(keys);
    forall i | 0 <= i < |r| ensures GoodKey(r[i]) && CutKey(r[i]) == r[i] { assert GoodKey(keys[i]); }
    var c :| Sole(keys, c);
    assert Sole(r, c);
  }

  // ---- the object ----

  class FileFieldKeyring {
    var keys: seq<Key>
    var file: seq<byte>

    /** The file always decodes to the keyring in memory, times cut to seconds. */
    ghost predicate Valid()
      reads this
    {
      Good(keys) && DecodeFieldKeyring(file) == Some(CutKeys(keys))
    }

    constructor (key: FieldKey, now: Time)
      requires Usable(key) && |key.material| == MATERIAL
      ensures Valid() && keys == [Key(key.id, now, true, false, key.material)]
    {
      keys := [Key(key.id, now, true, false, key.material)];
      file := [];
      new;
      StartGood(key, now);
      Persist();
    }

    method Persist()
      requires Good(keys)
      modifies this`file
      ensures Valid()
    {
      file := EncodeFieldKeyring(keys);
      KeyringRoundTrip(keys);
    }

    method FindKey(id: seq<byte>) returns (r: Option<nat>)
      ensures r == Find(keys, id)
    {
      var i := 0;
      while i < |keys|
        invariant 0 <= i <= |keys| && forall k :: 0 <= k < i ==> keys[k].id != id
      {
        if keys[i].id == id { return Some(i); }
        i := i + 1;
      }
      return None;
    }

    method Rotate(key: FieldKey, now: Time) returns (ok: bool)
      requires Valid() && |key.material| == MATERIAL
      modifies this
      ensures Valid() && keys == Apply(old(keys), RotateOp(key, now))
      ensures ok == Rotated(old(keys), key, now).Some?
    {
      hide Good, ValidId, Find, DecodeFieldKeyring, EncodeFieldKeyring, CutKeys, Promoted;
      if !Usable(key) { return false; }
      var found := FindKey(key.id);
      ghost var before := keys;
      var idx;
      if found.None? {
        if |keys| >= MAX_KEYS { return false; }
        keys := keys + [Key(key.id, now, false, false, Zero())];
        idx := |keys| - 1;
      } else {
        idx := found.value;
        if keys[idx].revoked { return false; }
      }
      ghost var all := keys;
      var i := 0;
      while i < |keys|
        invariant 0 <= i <= |keys| == |all|
        invariant forall k :: 0 <= k < i ==> keys[k] == all[k].(current := false)
        invariant forall k :: i <= k < |all| ==> keys[k] == all[k]
      {
        keys := keys[i := keys[i].(current := false)];
        i := i + 1;
      }
      keys := keys[idx := keys[idx].(current := true)];
      keys := keys[idx := keys[idx].(material := key.material)];
      assert keys == Promoted(all, idx, key.material);
      RotateKeepsGood(before, key, now);
      Persist();
      return true;
    }

    method Revoke(id: seq<byte>) returns (r: Outcome)
      requires Valid()
      modifies this
      ensures Valid() && keys == Apply(old(keys), RevokeOp(id)) && r == RevokeOutcome(old(keys), id)
    {
      hide Good, Find, DecodeFieldKeyring, EncodeFieldKeyring, CutKeys;
      var found := FindKey(id);
      if found.None? { return Unknown; }
      var idx := found.value;
      if keys[idx].current { return IsCurrent; }
      if keys[idx].revoked { return Already; }
      RevokeKeepsGood(keys, id);
      keys := keys[idx := keys[idx].(revoked := true)];
      keys := keys[idx := keys[idx].(material := Zero())];
      assert keys == Revoked(old(keys), id);
      Persist();
      return Done;
    }

    method Reload()
      requires Valid()
      modifies this
      ensures Valid() && keys == CutKeys(old(keys))
    {
      hide Good, DecodeFieldKeyring, CutKeys;
      CutKeepsGood(keys);
      var r := DecodeFieldKeyring(file);
      if r.Some? { keys := r.value; }
    }
  }

  /** CreateFileFieldKeyring, when the file does not exist yet. */
  method CreateKeyring(key: FieldKey, now: Time) returns (r: FileFieldKeyring?)
    requires |key.material| == MATERIAL
    ensures r == null <==> !Usable(key)
    ensures r != null ==> fresh(r) && r.Valid() && r.keys == [Key(key.id, now, true, false, key.material)]
  {
    if !Usable(key) { return null; }
    r := new FileFieldKeyring(key, now);
  }
}
