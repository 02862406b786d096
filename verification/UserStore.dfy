/** The user directory under concurrent logins: lookup and rehash are separate critical sections. */
module UserStore {
  import opened Bytes
  import opened TokenText

  const MAX_USERS := 4096
  const MAX_USER_LEN := 128
  const MAX_PASS_LEN := 1024

  type Realm = seq<byte>
  const DEPLOYMENT: Realm := [0, 0, 0, 0, 0, 0, 0, 0, 0, 0, 0, 0, 0, 0, 0, 0]

  datatype Algo = PBKDF2 | Argon2id | Unknown(code: byte)
  datatype Record = Record(algo: Algo, salt: seq<byte>, iter: nat, memory: nat, threads: nat, hash: seq<byte>)
  datatype Key = Key(realm: Realm, name: Str)

  /** The two password hashes, as functions. */
  datatype Hashes = Hashes(pbkdf2: (Str, seq<byte>, nat) -> seq<byte>,
      argon2: (Str, seq<byte>, nat, nat, nat) -> seq<byte>)

  /** Ideal hashing: under fixed parameters no two passwords share a hash. */
  ghost predicate Ideal(h: Hashes)
  {
    && (forall p, q, s, i :: h.pbkdf2(p, s, i) == h.pbkdf2(q, s, i) ==> p == q)
    && (forall p, q, s, i, m, t :: h.argon2(p, s, i, m, t) == h.argon2(q, s, i, m, t) ==> p == q)
  }

  predicate ValidRecord(r: Record)
  {
    match r.algo
    case PBKDF2 => 1 <= r.iter <= 10_000_000 && r.memory == 0 && r.threads == 0
    case Argon2id => 1 <= r.iter <= 10 && 1 <= r.threads <= 32 && 8 * r.threads <= r.memory <= 262_144
    case Unknown(_) => false
  }

  predicate Accepts(h: Hashes, r: Record, password: Str)
  {
    ValidRecord(r) &&
    match r.algo
    case PBKDF2 => h.pbkdf2(password, r.salt, r.iter) == r.hash
    case Argon2id => h.argon2(password, r.salt, r.iter, r.memory, r.threads) == r.hash
    case Unknown(_) => false
  }

  function HashPassword(h: Hashes, password: Str, salt: seq<byte>): Record
  {
    Record(Argon2id, salt, 1, 65_536, 4, h.argon2(password, salt, 1, 65_536, 4))
  }

  predicate ValidUser(user: Str) { 1 <= |Norm(user)| <= MAX_USER_LEN }
  predicate ValidPassword(p: Str) { 1 <= |p| <= MAX_PASS_LEN }

  type Users = map<Key, Record>

  // ---- the critical sections, as functions of the directory ----

  function Upserted(h: Hashes, users: Users, realm: Realm, user: Str, password: Str, salt: seq<byte>): Users
  {
    var key := Key(realm, Norm(user));
    if !ValidUser(user) || !ValidPassword(password) || (key !in users && |users| >= MAX_USERS) then users
    else users[key := HashPassword(h, password, salt)]
  }

  function Deleted(users: Users, realm: Realm, user: Str): Users
  {
    if !ValidUser(user) then users else users - {Key(realm, Norm(user))}
  }

  /** The key a login resolves to: the realm's own entry, or the deployment-wide one behind it. */
  function Resolve(users: set<Key>, realm: Realm, user: Str): Option<Key>
  {
    var own, wide := Key(realm, Norm(user)), Key(DEPLOYMENT, Norm(user));
    if own in users then Some(own)
    else if realm != DEPLOYMENT && wide in users then Some(wide)
    else None
  }

  /** A login between its lookup and its rehash. */
  datatype Pending = Pending(key: Key, password: Str, rec: Record)

  datatype Login = Login(ok: bool, rehash: Option<Pending>)

  function LoginOf(h: Hashes, users: Users, realm: Realm, user: Str, password: Str): Login
  {
    var key := Resolve(users.Keys, realm, user);
    if !ValidUser(user) || !ValidPassword(password) || key.None? || !Accepts(h, users[key.value], password)
        then Login(false, None)
    else Login(true,
        if users[key.value].algo.PBKDF2? then Some(Pending(key.value, password, users[key.value])) else None)
  }

  /** Only the algorithm of the current record is looked at, not the record itself. */
  function Rehashed(h: Hashes, users: Users, p: Pending, salt: seq<byte>): Users
  {
    if p.key !in users || !users[p.key].algo.PBKDF2? then users
    else users[p.key := HashPassword(h, p.password, salt)]
  }

  /** The store itself. Each method is one critical section; what happens between them is free. */
  class Store {
    var users: Users

    constructor (users: Users)
      ensures this.users == users
    {
      this.users := users;
    }

    method UpsertInRealm(h: Hashes, realm: Realm, user: Str, password: Str, salt: seq<byte>) returns (ok: bool)
      modifies this
      ensures users == Upserted(h, old(users), realm, user, password, salt)
      ensures ok ==> Key(realm, Norm(user)) in users && Accepts(h, users[Key(realm, Norm(user))], password)
      ensures !ok ==> users == old(users)
    {
      var name := Norm(user);
      if name == [] || |name| > MAX_USER_LEN || password == [] || |password| > MAX_PASS_LEN { return false; }
      var rec := HashPassword(h, password, salt);
      var key := Key(realm, name);
      if key !in users && |users| >= MAX_USERS { return false; }
      users := users[key := rec];
      return true;
    }

    method DeleteInRealm(realm: Realm, user: Str) returns (ok: bool)
      modifies this
      ensures users == Deleted(old(users), realm, user)
      ensures ok <==> ValidUser(user) && Key(realm, Norm(user)) in old(users)
    {
      var name := Norm(user);
      if name == [] || |name| > MAX_USER_LEN { return false; }
      var key := Key(realm, name);
      if key !in users {
        assert users - {key} == users;
        return false;
      }
      users := users - {key};
      return true;
    }

    /** The first half of VerifyInRealmContext: the lookup and, outside the lock, the verdict. */
    method Lookup(h: Hashes, realm: Realm, user: Str, password: Str) returns (r: Login)
      ensures r == LoginOf(h, users, realm, user, password)
    {
      var name := Norm(user);
      if name == [] || |name| > MAX_USER_LEN || password == [] || |password| > MAX_PASS_LEN {
        return Login(false, None);
      }
      var found := realm;
      if Key(realm, name) !in users {
        if realm == DEPLOYMENT || Key(DEPLOYMENT, name) !in users { return Login(false, None); }
        found := DEPLOYMENT;
      }
      var rec := users[Key(found, name)];
      if !Accepts(h, rec, password) { return Login(false, None); }
      return Login(true, if rec.algo.PBKDF2? then Some(Pending(Key(found, name), password, rec)) else None);
    }

    method Rehash(h: Hashes, p: Pending, salt: seq<byte>)
      modifies this
      ensures users == Rehashed(h, old(users), p, salt)
    {
      var rec := HashPassword(h, p.password, salt);
      if p.key !in users || !users[p.key].algo.PBKDF2? { return; }
      users := users[p.key := rec];
    }
  }

  // ---- runs: every interleaving of the critical sections ----

  datatype Event =
    | Upsert(realm: Realm, user: Str, password: Str, salt: seq<byte>)
    | Delete(realm: Realm, user: Str)
    | Verify(realm: Realm, user: Str, password: Str)
    | Rehash(i: nat, salt: seq<byte>)

  datatype State = State(users: Users, pending: seq<Pending>)

  /** Any waiting login may rehash at any later moment. */
  function Step(h: Hashes, s: State, e: Event): State
  {
    match e
    case Upsert(realm, user, password, salt) => s.(users := Upserted(h, s.users, realm, user, password, salt))
    case Delete(realm, user) => s.(users := Deleted(s.users, realm, user))
    case Verify(realm, user, password) =>
      var r := LoginOf(h, s.users, realm, user, password);
      if r.rehash.None? then s else s.(pending := s.pending + [r.rehash.value])
    case Rehash(i, salt) =>
      if i >= |s.pending| then s
      else State(Rehashed(h, s.users, s.pending[i], salt), s.pending[..i] + s.pending[i + 1..])
  }

  function Run(h: Hashes, s: State, es: seq<Event>): State
  {
    if es == [] then s else Step(h, Run(h, s, es[..|es| - 1]), es[|es| - 1])
  }

  /** Nothing in a run writes a legacy record, so a legacy record is the one the run began with. */
  predicate OnlyOriginals(first: Users, users: Users)
  {
    forall k :: k in users && users[k].algo.PBKDF2? ==> k in first && users[k] == first[k]
  }

  predicate Verified(h: Hashes, first: Users, p: Pending)
  {
    p.key in first && p.rec == first[p.key] && p.rec.algo.PBKDF2? && Accepts(h, p.rec, p.password)
  }

  predicate Reachable(h: Hashes, first: Users, s: State)
  {
    OnlyOriginals(first, s.users) && forall i :: 0 <= i < |s.pending| ==> Verified(h, first, s.pending[i])
  }

  lemma LegacyKept(h: Hashes, first: Users, users: Users, e: Event, p: Pending)
    requires OnlyOriginals(first, users)
    ensures e.Upsert? ==> OnlyOriginals(first, Upserted(h, users, e.realm, e.user, e.password, e.salt))
    ensures e.Delete? ==> OnlyOriginals(first, Deleted(users, e.realm, e.user))
    ensures e.Rehash? ==> OnlyOriginals(first, Rehashed(h, users, p, e.salt))
  {
    hide Accepts, Norm;
  }

  lemma LoginVerified(h: Hashes, first: Users, users: Users, realm: Realm, user: Str, password: Str)
    requires OnlyOriginals(first, users) && LoginOf(h, users, realm, user, password).rehash.Some?
    ensures Verified(h, first, LoginOf(h, users, realm, user, password).rehash.value)
  {
    hide Accepts, Norm;
  }

  lemma StepReachable(h: Hashes, first: Users, s: State, e: Event)
    requires Reachable(h, first, s)
    ensures Reachable(h, first, Step(h, s, e))
  {
    hide OnlyOriginals, Verified, LoginOf, Upserted, Deleted, Rehashed;
    match e
    case Upsert(realm, user, password, salt) =>
        LegacyKept(h, first, s.users, e, Pending(Key(realm, user), password, HashPassword(h, password, salt)));
    case Delete(realm, user) =>
        LegacyKept(h, first, s.users, e, Pending(Key(realm, user), [], HashPassword(h, [], [])));
    case Verify(realm, user, password) =>
      if LoginOf(h, s.users, realm, user, password).rehash.Some? {
        LoginVerified(h, first, s.users, realm, user, password);
      }
    case Rehash(i, salt) => if i < |s.pending| { LegacyKept(h, first, s.users, e, s.pending[i]); }
  }

  lemma {:induction false} RunReachable(h: Hashes, first: Users, es: seq<Event>)
    ensures Reachable(h, first, Run(h, State(first, []), es))
  {
    hide Reachable;
    if es == [] {
      StartReachable(h, first);
    } else {
      RunReachable(h, first, es[..|es| - 1]);
      StepReachable(h, first, Run(h, State(first, []), es[..|es| - 1]), es[|es| - 1]);
    }
  }

  lemma StartReachable(h: Hashes, first: Users)
    ensures Reachable(h, first, State(first, []))
  {
  }

  /** In every run, a rehash that changes anything replaces exactly the record its login verified,
      and the record it writes accepts the same password. */
  lemma RehashReplacesVerified(h: Hashes, first: Users, es: seq<Event>, i: nat, salt: seq<byte>)
    requires i < |Run(h, State(first, []), es).pending|
    ensures var s := Run(h, State(first, []), es);
            var p, after := s.pending[i], Rehashed(h, s.users, s.pending[i], salt);
            after != s.users ==>
              && p.key in s.users && s.users[p.key] == p.rec && after.Keys == s.users.Keys
              && (forall k :: k in after && k != p.key ==> after[k] == s.users[k])
              && Accepts(h, after[p.key], p.password)
  {
    hide Run;
    RunReachable(h, first, es);
  }

  predicate Touches(e: Event, k: Key)
  {
    match e
    case Upsert(realm, user, _, _) => Key(realm, Norm(user)) == k
    case Delete(realm, user) => Key(realm, Norm(user)) == k
    case _ => false
  }

  /** A password set by an upsert stays until the next upsert or delete of that user, and a deleted
      user stays deleted until the next upsert: no pending rehash can undo either. */
  lemma {:induction false} RehashNeverUndoes(h: Hashes, s: State, es: seq<Event>, k: Key)
    requires forall i :: 0 <= i < |es| ==> !Touches(es[i], k)
    ensures k in s.users && s.users[k].algo.Argon2id?
            ==> k in Run(h, s, es).users && Run(h, s, es).users[k] == s.users[k]
    ensures k !in s.users ==> k !in Run(h, s, es).users
  {
    hide Accepts, Norm, HashPassword;
    if es != [] {
      var init := es[..|es| - 1];
      RehashNeverUndoes(h, s, init, k);
      assert !Touches(es[|es| - 1], k);
    }
  }

  // ---- the directory the run implements ----

  /** A user is either known by a password or still by a legacy record; rehash does nothing. */
  datatype Secret = Known(password: Str) | Legacy(rec: Record)
  type Directory = map<Key, Secret>

  predicate Admits(h: Hashes, s: Secret, password: Str)
  {
    match s case Known(p) => p == password case Legacy(r) => Accepts(h, r, password)
  }

  function AbstractStep(d: Directory, e: Event): Directory
  {
    match e
    case Upsert(realm, user, password, _) =>
      var key := Key(realm, Norm(user));
      if !ValidUser(user) || !ValidPassword(password) || (key !in d && |d| >= MAX_USERS) then d
          else d[key := Known(password)]
    case Delete(realm, user) => if !ValidUser(user) then d else d - {Key(realm, Norm(user))}
    case _ => d
  }

  function AbstractRun(d: Directory, es: seq<Event>): Directory
  {
    if es == [] then d else AbstractStep(AbstractRun(d, es[..|es| - 1]), es[|es| - 1])
  }

  function AbstractVerdict(h: Hashes, d: Directory, realm: Realm, user: Str, password: Str): bool
  {
    var key := Resolve(d.Keys, realm, user);
    ValidUser(user) && ValidPassword(password) && key.Some? && Admits(h, d[key.value], password)
  }

  function StartDirectory(first: Users): Directory
  {
    map k | k in first :: Legacy(first[k])
  }

  /** Same users, and each record admits the same passwords as the secret it stands for. */
  ghost predicate Implements(h: Hashes, s: State, d: Directory)
  {
    && s.users.Keys == d.Keys
    && forall k :: k in d ==> Agrees(h, s.users[k], d[k])
  }

  ghost predicate Agrees(h: Hashes, r: Record, c: Secret)
  {
    forall p :: Accepts(h, r, p) <==> Admits(h, c, p)
  }

  lemma FreshAgrees(h: Hashes, password: Str, salt: seq<byte>)
    requires Ideal(h)
    ensures Agrees(h, HashPassword(h, password, salt), Known(password))
  {
  }

  /** A rehash is invisible: the old and the new record admit the one password they were made for. */
  lemma RehashAgrees(h: Hashes, rec: Record, c: Secret, password: Str, salt: seq<byte>)
    requires Ideal(h) && rec.algo.PBKDF2? && Accepts(h, rec, password) && Agrees(h, rec, c)
    ensures Agrees(h, HashPassword(h, password, salt), c)
  {
    FreshAgrees(h, password, salt);
    forall p ensures Accepts(h, HashPassword(h, password, salt), p) <==> Admits(h, c, p) {
      assert Accepts(h, rec, p) <==> Admits(h, c, p);
      assert Admits(h, Known(password), p) <==> p == password;
      assert Accepts(h, rec, p) <==> p == password;
    }
  }

  lemma StepImplements(h: Hashes, first: Users, s: State, d: Directory, e: Event)
    requires Ideal(h) && Reachable(h, first, s) && Implements(h, s, d)
    ensures Implements(h, Step(h, s, e), AbstractStep(d, e))
  {
    hide Accepts, Norm, Agrees, Ideal, HashPassword;
    assert |s.users| == |s.users.Keys| && |d| == |d.Keys|;
    match e
    case Upsert(realm, user, password, salt) => FreshAgrees(h, password, salt);
    case Delete(_, _) =>
    case Verify(_, _, _) =>
    case Rehash(i, salt) =>
      if i < |s.pending| {
        var p := s.pending[i];
        if p.key in s.users && s.users[p.key].algo.PBKDF2? {
          RehashAgrees(h, p.rec, d[p.key], p.password, salt);
        }
      }
  }

  lemma {:induction false} RunImplements(h: Hashes, first: Users, es: seq<Event>)
    requires Ideal(h)
    ensures Implements(h, Run(h, State(first, []), es), AbstractRun(StartDirectory(first), es))
  {
    hide Implements, Ideal;
    if es == [] {
      StartImplements(h, first);
    } else {
      var init := es[..|es| - 1];
      RunImplements(h, first, init);
      RunReachable(h, first, init);
      StepImplements(h, first, Run(h, State(first, []), init), AbstractRun(StartDirectory(first), init), es[|es| - 1]);
    }
  }

  lemma StartImplements(h: Hashes, first: Users)
    ensures Implements(h, State(first, []), StartDirectory(first))
  {
  }

  /** After every interleaving, every login gets the verdict of the directory in which upsert and
      delete are atomic and rehash does not exist. */
  lemma LoginVerdicts(h: Hashes, first: Users, es: seq<Event>, realm: Realm, user: Str, password: Str)
    requires Ideal(h)
    ensures LoginOf(h, Run(h, State(first, []), es).users, realm, user, password).ok
            == AbstractVerdict(h, AbstractRun(StartDirectory(first), es), realm, user, password)
  {
    hide Run, AbstractRun, Ideal, Accepts, Admits, Norm;
    RunImplements(h, first, es);
  }
}
