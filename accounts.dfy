/**
 * Accounts and API-key management: registration, login, key regeneration and
 * reset (backend/controllers/authController.js) and the administrative
 * listing, deletion and key toggling (backend/controllers/userController.js),
 * over an in-memory `users` table. bcrypt and JWT signing are parameters.
 */
module Accounts {
  import opened Js
  import opened Http
  import opened ApiKeys
  import opened Email

  /** The `role` column: 'admin' or 'user'. */
  datatype Role = Admin | Member

  /** A row of the `users` table; `password` holds the bcrypt hash. */
  datatype User = User(
    id: int,
    name: string,
    email: string,
    password: string,
    role: Role,
    apiKey: Option<string>,
    apiKeyStatus: bool)

  /** The claims a session token carries. */
  datatype Claims = Claims(id: int, role: Role, name: string)

  // ---------------------------------------------------------------------
  // Table invariants: the primary key and the store's unique constraints
  // ---------------------------------------------------------------------

  predicate IdsMatch(users: map<int, User>) {
    forall id :: id in users ==> users[id].id == id
  }

  predicate EmailsUnique(users: map<int, User>) {
    forall a, b :: a in users && b in users && users[a].email == users[b].email ==> a == b
  }

  /** Unique `api_key`; NULL keys (the seeded admin's) do not collide. */
  predicate ApiKeysUnique(users: map<int, User>) {
    forall a, b :: a in users && b in users && users[a].apiKey.Some? && users[a].apiKey == users[b].apiKey ==> a == b
  }

  predicate WellFormed(users: map<int, User>) {
    IdsMatch(users) && EmailsUnique(users) && ApiKeysUnique(users)
  }

  /** `User.findOne({ where: { email } })`. */
  function FindByEmail(users: map<int, User>, email: string): (r: Option<User>)
    requires EmailsUnique(users)
    ensures r.Some? <==> exists id :: id in users && users[id].email == email
    ensures r.Some? ==> r.value in users.Values && r.value.email == email
  {
    if exists id | id in users :: users[id].email == email then
      var id :| id in users && users[id].email == email;
      Some(users[id])
    else None
  }

  /** `User.findOne({ where: { api_key } })`. */
  function FindByApiKey(users: map<int, User>, key: string): (r: Option<User>)
    requires ApiKeysUnique(users)
    ensures r.Some? <==> exists id :: id in users && users[id].apiKey == Some(key)
    ensures r.Some? ==> r.value in users.Values && r.value.apiKey == Some(key)
  {
    if exists id | id in users :: users[id].apiKey == Some(key) then
      var id :| id in users && users[id].apiKey == Some(key);
      Some(users[id])
    else None
  }

  /** Whether a user other than `self` already holds `key`. */
  predicate KeyTaken(users: map<int, User>, key: string, self: int) {
    exists id | id in users :: id != self && users[id].apiKey == Some(key)
  }

  predicate EmailTaken(users: map<int, User>, email: string) {
    exists id | id in users :: users[id].email == email
  }

  // ---------------------------------------------------------------------
  // Registration checks and login (reads and decisions only)
  // ---------------------------------------------------------------------

  const SecretMissing := Refusal(500, "Konfigurasi server belum lengkap (JWT_SECRET belum diset)")
  const NameInvalid := Refusal(400, "Nama wajib diisi (minimal 2 karakter)")
  const EmailInvalid := Refusal(400, "Email tidak valid")
  const PasswordTooShort := Refusal(400, "Password wajib diisi (minimal 6 karakter)")
  const PasswordMissing := Refusal(400, "Password wajib diisi")
  const EmailRegistered := Refusal(400, "Email sudah terdaftar")
  const UserNotFound := Refusal(404, "User tidak ditemukan")
  const WrongPassword := Refusal(401, "Password salah")
  /** The message of a unique-constraint violation raised by the store. */
  const UniqueViolation := Refusal(500, "Validation error")

  predicate NameOk(name: Value) {
    name.Str? && |Trim(name.s)| >= 2
  }

  predicate PasswordOk(password: Value) {
    password.Str? && |password.s| >= 6
  }

  /**
   * The checks `register` makes before touching the store, in order: the
   * signing secret, the name, the email, the password. `None` means all pass.
   */
  function RegisterGuard(env: Env, name: Value, email: Value, password: Value): (r: Option<Refusal>)
    ensures r.None? <==> Present(env.jwtSecret) && NameOk(name) && IsValidEmail(email) && PasswordOk(password)
    ensures !Present(env.jwtSecret) ==> r == Some(SecretMissing)
    ensures Present(env.jwtSecret) && !NameOk(name) ==> r == Some(NameInvalid)
    ensures Present(env.jwtSecret) && NameOk(name) && !IsValidEmail(email) ==> r == Some(EmailInvalid)
    ensures Present(env.jwtSecret) && NameOk(name) && IsValidEmail(email) && !PasswordOk(password) ==> r == Some(PasswordTooShort)
    ensures r.Some? ==> (r.value.code == 500 <==> !Present(env.jwtSecret))
  {
    if !Present(env.jwtSecret) then Some(SecretMissing)
    else if !NameOk(name) then Some(NameInvalid)
    else if !IsValidEmail(email) then Some(EmailInvalid)
    else if !PasswordOk(password) then Some(PasswordTooShort)
    else None
  }

  /** What a successful login returns: the token and the account's key state. */
  datatype Session = Session(token: string, role: Role, apiKey: Option<string>, apiKeyStatus: bool)

  /**
   * `login`. `hashMatches(pw, hash)` is `bcrypt.compare` and `sign(claims)`
   * is `jwt.sign` with the configured secret and a one-day expiry.
   */
  function Login(env: Env, users: map<int, User>, email: Value, password: Value,
                 hashMatches: (string, string) -> bool, sign: Claims -> string): (r: Reply<Session>)
    requires EmailsUnique(users)
    ensures !Present(env.jwtSecret) ==> r == Refuse(SecretMissing)
    ensures Present(env.jwtSecret) && !IsValidEmail(email) ==> r == Refuse(EmailInvalid)
    ensures Present(env.jwtSecret) && IsValidEmail(email) && (!password.Str? || password.s == [])
            ==> r == Refuse(PasswordMissing)
    ensures (Present(env.jwtSecret) && IsValidEmail(email) && password.Str? && password.s != []
             && !EmailTaken(users, NormalizeEmail(email))) ==> r == Refuse(UserNotFound)
    ensures r.Done? <==>
            && Present(env.jwtSecret) && IsValidEmail(email) && password.Str? && password.s != []
            && FindByEmail(users, NormalizeEmail(email)).Some?
            && hashMatches(password.s, FindByEmail(users, NormalizeEmail(email)).value.password)
    ensures r.Done? ==>
            var u := FindByEmail(users, NormalizeEmail(email)).value;
            && u in users.Values && u.email == NormalizeEmail(email)
            && r.code == 200
            && r.value == Session(sign(Claims(u.id, u.role, u.name)), u.role, u.apiKey, u.apiKeyStatus)
  {
    if !Present(env.jwtSecret) then Refuse(SecretMissing)
    else if !IsValidEmail(email) then Refuse(EmailInvalid)
    else if !password.Str? || |password.s| == 0 then Refuse(PasswordMissing)
    else
      match FindByEmail(users, NormalizeEmail(email))
      case None => Refuse(UserNotFound)
      case Some(u) =>
        if !hashMatches(password.s, u.password) then Refuse(WrongPassword)
        else Done(200, Session(sign(Claims(u.id, u.role, u.name)), u.role, u.apiKey, u.apiKeyStatus))
  }

  /** A wrong password never logs in, however the rest of the request looks. */
  lemma WrongPasswordRefused(env: Env, users: map<int, User>, email: Value, password: Value,
                             hashMatches: (string, string) -> bool, sign: Claims -> string)
    requires EmailsUnique(users) && Present(env.jwtSecret) && IsValidEmail(email)
    requires password.Str? && password.s != []
    requires FindByEmail(users, NormalizeEmail(email)).Some?
    requires !hashMatches(password.s, FindByEmail(users, NormalizeEmail(email)).value.password)
    ensures Login(env, users, email, password, hashMatches, sign) == Refuse(WrongPassword)
  {
  }

  // ---------------------------------------------------------------------
  // The administrative listing
  // ---------------------------------------------------------------------

  /** The columns `getAllUsers` selects; the password hash is not among them. */
  datatype UserView = UserView(id: int, name: string, email: string, role: Role, apiKey: Option<string>, apiKeyStatus: bool)

  function View(u: User): UserView {
    UserView(u.id, u.name, u.email, u.role, u.apiKey, u.apiKeyStatus)
  }

  /** `getAllUsers`: every row, projected. */
  function AllUsers(users: map<int, User>): (r: map<int, UserView>)
    ensures r.Keys == users.Keys
    ensures forall id :: id in r ==>
              && r[id].id == users[id].id && r[id].name == users[id].name
              && r[id].email == users[id].email && r[id].role == users[id].role
              && r[id].apiKey == users[id].apiKey && r[id].apiKeyStatus == users[id].apiKeyStatus
  {
    map id | id in users :: View(users[id])
  }

  /** The listing does not depend on the stored password hashes. */
  lemma ListingHidesPasswords(a: map<int, User>, b: map<int, User>)
    requires a.Keys == b.Keys
    requires forall id :: id in a ==> a[id].(password := "") == b[id].(password := "")
    ensures AllUsers(a) == AllUsers(b)
  {
    forall id | id in a ensures AllUsers(a)[id] == AllUsers(b)[id] {
      assert a[id].(password := "").name == b[id].(password := "").name;
    }
  }

  /** Inserting a row whose id, email and key are all fresh keeps the invariants. */
  lemma InsertKeepsWellFormed(users: map<int, User>, u: User)
    requires WellFormed(users) && u.id !in users
    requires !EmailTaken(users, u.email)
    requires u.apiKey.Some? ==> !KeyTaken(users, u.apiKey.value, u.id)
    ensures WellFormed(users[u.id := u])
  {
  }

  /** Giving row `id` a key no other row holds keeps the invariants. */
  lemma RekeyKeepsWellFormed(users: map<int, User>, id: int, key: string)
    requires WellFormed(users) && id in users
    requires !KeyTaken(users, key, id)
    ensures WellFormed(users[id := users[id].(apiKey := Some(key), apiKeyStatus := true)])
  {
  }

  // ---------------------------------------------------------------------
  // The table and the handlers that change it
  // ---------------------------------------------------------------------

  class UserStore {
    var users: map<int, User>
    /** The id the next insert receives (auto-increment). */
    var nextId: int

    ghost predicate Valid()
      reads this
    {
      WellFormed(users) && forall id :: id in users ==> id < nextId
    }

    constructor (initial: map<int, User>, next: int)
      requires WellFormed(initial) && forall id :: id in initial ==> id < next
      ensures Valid() && users == initial && nextId == next
    {
      users := initial;
      nextId := next;
    }

    /**
     * `register`. `passwordHash` is what `bcrypt.hash(password, 10)` returned;
     * `random` and `base64Text` feed `generateApiKey`.
     */
    method Register(env: Env, name: Value, email: Value, password: Value,
                    passwordHash: string, random: seq<byte>, base64Text: string) returns (r: Reply<string>)
      requires Valid()
      requires |random| == GetApiKeyConfig(env).bytes
      modifies this
      ensures Valid()
      ensures RegisterGuard(env, name, email, password).Some? ==>
              r == Refuse(RegisterGuard(env, name, email, password).value) && unchanged(this)
      ensures RegisterGuard(env, name, email, password).None? && EmailTaken(old(users), NormalizeEmail(email)) ==>
              r == Refuse(EmailRegistered) && unchanged(this)
      ensures RegisterGuard(env, name, email, password).None? && !EmailTaken(old(users), NormalizeEmail(email)) ==>
              var key := GenerateApiKey(env, random, base64Text);
              if KeyTaken(old(users), key, old(nextId)) then
                r == Refuse(UniqueViolation) && unchanged(this)
              else
                && r == Done(201, key)
                && users == old(users)[old(nextId) := User(old(nextId), Trim(name.s), NormalizeEmail(email),
                                                           passwordHash, Member, Some(key), true)]
                && nextId == old(nextId) + 1
    {
      var guard := RegisterGuard(env, name, email, password);
      if guard.Some? {
        return Refuse(guard.value);
      }
      var normalized := NormalizeEmail(email);
      if EmailTaken(users, normalized) {
        return Refuse(EmailRegistered);
      }
      var key := GenerateApiKey(env, random, base64Text);
      r := AddMember(Trim(name.s), normalized, passwordHash, key);
    }

    /** `User.create` of a member account with an enabled key; the store rejects a key already held. */
    method AddMember(name: string, email: string, passwordHash: string, key: string) returns (r: Reply<string>)
      requires Valid() && !EmailTaken(users, email)
      modifies this
      ensures Valid()
      ensures KeyTaken(old(users), key, old(nextId)) ==> r == Refuse(UniqueViolation) && unchanged(this)
      ensures !KeyTaken(old(users), key, old(nextId)) ==>
              && r == Done(201, key)
              && users == old(users)[old(nextId) := User(old(nextId), name, email, passwordHash, Member, Some(key), true)]
              && nextId == old(nextId) + 1
    {
      if KeyTaken(users, key, nextId) {
        return Refuse(UniqueViolation);
      }
      var u := User(nextId, name, email, passwordHash, Member, Some(key), true);
      InsertKeepsWellFormed(users, u);
      users := users[nextId := u];
      nextId := nextId + 1;
      r := Done(201, key);
    }

    /** Replaces the key of `id` and re-enables it, unless another row holds the key. */
    method ReplaceKey(id: int, key: string) returns (r: Reply<string>)
      requires Valid() && id in users
      modifies this
      ensures Valid() && nextId == old(nextId)
      ensures KeyTaken(old(users), key, id) ==> r == Refuse(UniqueViolation) && unchanged(this)
      ensures !KeyTaken(old(users), key, id) ==>
              r == Done(200, key) && users == old(users)[id := old(users)[id].(apiKey := Some(key), apiKeyStatus := true)]
    {
      if KeyTaken(users, key, id) {
        return Refuse(UniqueViolation);
      }
      RekeyKeepsWellFormed(users, id, key);
      users := users[id := users[id].(apiKey := Some(key), apiKeyStatus := true)];
      r := Done(200, key);
    }

    /** `regenerateMyApiKey` for the authenticated user `userId`. */
    method RegenerateMyApiKey(env: Env, userId: int, random: seq<byte>, base64Text: string) returns (r: Reply<string>)
      requires Valid()
      requires |random| == GetApiKeyConfig(env).bytes
      modifies this
      ensures Valid() && nextId == old(nextId)
      ensures userId !in old(users) ==> r == Refuse(UserNotFound) && unchanged(this)
      ensures userId in old(users) && !old(users)[userId].apiKeyStatus ==>
              r == Refuse(KeyDisabled) && unchanged(this)
      ensures userId in old(users) && old(users)[userId].apiKeyStatus ==>
              var key := GenerateApiKey(env, random, base64Text);
              if KeyTaken(old(users), key, userId) then r == Refuse(UniqueViolation) && unchanged(this)
              else r == Done(200, key) && users == old(users)[userId := old(users)[userId].(apiKey := Some(key), apiKeyStatus := true)]
      ensures r.Done? ==>
              && userId in old(users) && old(users)[userId].apiKeyStatus
              && r.value == GenerateApiKey(env, random, base64Text)
              && users == old(users)[userId := old(users)[userId].(apiKey := Some(r.value), apiKeyStatus := true)]
      ensures r.Refused? ==> unchanged(this)
    {
      if userId !in users {
        return Refuse(UserNotFound);
      }
      if !users[userId].apiKeyStatus {
        return Refuse(KeyDisabled);
      }
      var key := GenerateApiKey(env, random, base64Text);
      r := ReplaceKey(userId, key);
    }

    /** `resetUserApiKey`: an admin replaces the key of a non-admin `userId`. */
    method ResetUserApiKey(env: Env, userId: int, random: seq<byte>, base64Text: string) returns (r: Reply<string>)
      requires Valid()
      requires |random| == GetApiKeyConfig(env).bytes
      modifies this
      ensures Valid() && nextId == old(nextId)
      ensures userId !in old(users) ==> r == Refuse(UserNotFound) && unchanged(this)
      ensures userId in old(users) && old(users)[userId].role == Admin ==>
              r == Refuse(AdminKeyReset) && unchanged(this)
      ensures userId in old(users) && old(users)[userId].role != Admin ==>
              var key := GenerateApiKey(env, random, base64Text);
              if KeyTaken(old(users), key, userId) then r == Refuse(UniqueViolation) && unchanged(this)
              else r == Done(200, key) && users == old(users)[userId := old(users)[userId].(apiKey := Some(key), apiKeyStatus := true)]
      ensures r.Done? ==>
              && userId in old(users) && old(users)[userId].role != Admin
              && r.value == GenerateApiKey(env, random, base64Text)
              && users == old(users)[userId := old(users)[userId].(apiKey := Some(r.value), apiKeyStatus := true)]
      ensures r.Refused? ==> unchanged(this)
    {
      if userId !in users {
        return Refuse(UserNotFound);
      }
      if users[userId].role == Admin {
        return Refuse(AdminKeyReset);
      }
      var key := GenerateApiKey(env, random, base64Text);
      r := ReplaceKey(userId, key);
    }

    /** `deleteUser`. */
    method DeleteUser(id: int) returns (r: Reply<()>)
      requires Valid()
      modifies this
      ensures Valid() && nextId == old(nextId)
      ensures id !in old(users) ==> r == Refuse(UserNotFound) && unchanged(this)
      ensures id in old(users) && old(users)[id].role == Admin ==> r == Refuse(AdminDelete) && unchanged(this)
      ensures id in old(users) && old(users)[id].role != Admin ==> r == Done(200, ()) && users == old(users) - {id}
    {
      if id !in users {
        return Refuse(UserNotFound);
      }
      if users[id].role == Admin {
        return Refuse(AdminDelete);
      }
      users := users - {id};
      r := Done(200, ());
    }

    /** `toggleApiKeyStatus`: flips the key status of a non-admin; the reply carries the new status. */
    method ToggleApiKeyStatus(id: int) returns (r: Reply<bool>)
      requires Valid()
      modifies this
      ensures Valid() && nextId == old(nextId)
      ensures id !in old(users) ==> r == Refuse(UserNotFound) && unchanged(this)
      ensures id in old(users) && old(users)[id].role == Admin ==> r == Refuse(AdminToggle) && unchanged(this)
      ensures id in old(users) && old(users)[id].role != Admin ==>
              && r == Done(200, !old(users)[id].apiKeyStatus)
              && users == old(users)[id := Toggled(old(users)[id])]
    {
      if id !in users {
        return Refuse(UserNotFound);
      }
      if users[id].role == Admin {
        return Refuse(AdminToggle);
      }
      var u := users[id];
      users := users[id := Toggled(u)];
      r := Done(200, !u.apiKeyStatus);
    }
  }

  const KeyDisabled := Refusal(403, "API Key Anda dinonaktifkan oleh admin. Tidak dapat regenerate hingga diaktifkan kembali.")
  const AdminKeyReset := Refusal(403, "Tidak dapat mereset API Key admin")
  const AdminDelete := Refusal(403, "Tidak dapat menghapus akun admin")
  const AdminToggle := Refusal(403, "Tidak dapat mengubah status API Key admin")

  /** The row after a toggle: only the key status changes, to its negation. */
  function Toggled(u: User): (t: User)
    ensures t.apiKeyStatus == !u.apiKeyStatus
    ensures t.(apiKeyStatus := u.apiKeyStatus) == u
  {
    u.(apiKeyStatus := !u.apiKeyStatus)
  }

  /** Toggling twice restores the row. */
  lemma ToggleTwice(u: User)
    ensures Toggled(Toggled(u)) == u
  {
  }

  /** Toggling keeps the table's invariants: ids, emails and keys are untouched. */
  lemma ToggleKeepsWellFormed(users: map<int, User>, id: int)
    requires WellFormed(users) && id in users
    ensures WellFormed(users[id := Toggled(users[id])])
  {
  }

  /** A client of the store: toggling a member's key twice restores the table. */
  method ToggleTwiceScenario(store: UserStore, id: int)
    requires store.Valid() && id in store.users
    modifies store
    ensures store.Valid()
    ensures store.users == old(store.users)
  {
    var before := store.users;
    var r1 := store.ToggleApiKeyStatus(id);
    if before[id].role == Admin {
      assert store.users == before;
      var r2 := store.ToggleApiKeyStatus(id);
    } else {
      var mid := store.users;
      assert mid[id] == Toggled(before[id]);
      var r2 := store.ToggleApiKeyStatus(id);
      assert store.users == mid[id := Toggled(mid[id])];
      ToggleTwice(before[id]);
    }
  }

  /** A client of the store: an admin row can be neither toggled, reset nor deleted. */
  method AdminRowScenario(store: UserStore, id: int, env: Env, random: seq<byte>, base64Text: string)
    requires store.Valid() && id in store.users && store.users[id].role == Admin
    requires |random| == GetApiKeyConfig(env).bytes
    modifies store
    ensures store.Valid()
    ensures store.users == old(store.users)
  {
    var r1 := store.ToggleApiKeyStatus(id);
    assert r1 == Refuse(AdminToggle);
    var r2 := store.ResetUserApiKey(env, id, random, base64Text);
    assert r2 == Refuse(AdminKeyReset);
    var r3 := store.DeleteUser(id);
    assert r3 == Refuse(AdminDelete);
  }
}
