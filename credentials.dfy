/** The credential store of `print.py`: salted password hashing, the
    in-memory user table `USERS` with its `users.json` document, and the
    load-time migration of legacy plaintext records. */
module Credentials {
  import opened Wrappers
  import opened Bytes

  /** `os.urandom(16)` supplies this many salt bytes. */
  const SaltLength := 16

  /** The derivation `hashlib.pbkdf2_hmac("sha256", password.encode("utf-8"),
      salt, 100_000)`, a function of the password and the salt bytes. */
  type Kdf = (string, seq<byte>) -> seq<byte>

  /** A key of a user record: absent, present with `null`, or present
      with a string. The code tests these keys with `in`, so an absent key
      and a `null` value lead to different branches. */
  datatype Slot = Absent | Null | Text(s: string)

  /** One entry of `USERS`. A current record has `salt` and `hash` (both
      hex) and `full_name`; a legacy record has a plaintext `password`.
      `full_name` is only ever read with `.get`, where an absent key and
      `null` are both `None`. */
  datatype UserRecord = UserRecord(
    salt: Slot,
    hash: Slot,
    password: Slot,
    fullName: Option<string>)

  /** `users.json` as the store finds it when loading. */
  datatype StoreFile =
    | Missing                                  // the file does not exist
    | Unreadable                               // opening or `json.load` raises
    | Document(entries: map<string, UserRecord>)

  /** `_hash_password`: the salt and the derived key, both as hex. */
  function HashPassword(kdf: Kdf, password: string, salt: seq<byte>): (r: (string, string))
    requires |salt| == SaltLength
    ensures |r.0| == 2 * SaltLength
    ensures FromHex(r.0) == Some(salt) && FromHex(r.1) == Some(kdf(password, salt))
  {
    FromHexToHex(salt);
    FromHexToHex(kdf(password, salt));
    (ToHex(salt), ToHex(kdf(password, salt)))
  }

  /** `_verify_password`: re-derive with the stored salt and compare the hex
      digests with `==`. `None` where `bytes.fromhex` raises on a stored salt
      that is not hex. */
  function VerifyPassword(kdf: Kdf, saltHex: string, hashHex: string, password: string): (r: Option<bool>)
    ensures r.Some? <==> FromHex(saltHex).Some?
    ensures r == Some(true) ==> FromHex(hashHex) == Some(kdf(password, FromHex(saltHex).value))
  {
    match FromHex(saltHex)
    case None => None
    case Some(salt) =>
      FromHexToHex(kdf(password, salt));
      Some(ToHex(kdf(password, salt)) == hashHex)
  }

  /** A password verifies against the pair `_hash_password` produced for it. */
  lemma HashThenVerify(kdf: Kdf, password: string, salt: seq<byte>)
    requires |salt| == SaltLength
    ensures VerifyPassword(kdf, HashPassword(kdf, password, salt).0, HashPassword(kdf, password, salt).1, password) == Some(true)
  {
    FromHexToHex(salt);
  }

  /** Another password verifies against that pair exactly when its
      derivation under the same salt is the same (a collision of the key
      derivation), so a wrong password is refused unless it collides. */
  lemma VerifyOtherPassword(kdf: Kdf, password: string, other: string, salt: seq<byte>)
    requires |salt| == SaltLength
    ensures VerifyPassword(kdf, HashPassword(kdf, password, salt).0, HashPassword(kdf, password, salt).1, other)
            == Some(kdf(other, salt) == kdf(password, salt))
  {
    FromHexToHex(salt);
    if ToHex(kdf(other, salt)) == ToHex(kdf(password, salt)) {
      ToHexInjective(kdf(other, salt), kdf(password, salt));
    }
  }

  /** `_verify_password_for_user`: no record fails; a record with both
      `salt` and `hash` keys takes that path, where a `null` salt raises in
      `bytes.fromhex` and a `null` hash never equals the digest; otherwise a
      record with a `password` key compares it directly; a record with
      neither fails. `None` where it raises. */
  function VerifyPasswordForUser(kdf: Kdf, user: Option<UserRecord>, password: string): (r: Option<bool>)
    ensures user.None? ==> r == Some(false)
    ensures r.None? ==> user.Some? && !user.value.salt.Absent? && !user.value.hash.Absent?
    ensures user.Some? && user.value.salt.Null? && !user.value.hash.Absent? ==> r.None?
    ensures r == Some(true) ==>
              user.Some? && ((user.value.salt.Text? && user.value.hash.Text?) || user.value.password == Text(password))
  {
    match user
    case None => Some(false)
    case Some(rec) =>
      if !rec.salt.Absent? && !rec.hash.Absent? then
        match rec.salt
        case Text(saltHex) =>
          (match rec.hash
           case Text(hashHex) => VerifyPassword(kdf, saltHex, hashHex, password)
           case _ => if FromHex(saltHex).None? then None else Some(false))
        case _ => None
      else if !rec.password.Absent? then Some(rec.password == Text(password))
      else Some(false)
  }

  /** The record `_hash_password` and `create_user` build. */
  function HashedRecord(kdf: Kdf, password: string, salt: seq<byte>, fullName: Option<string>): UserRecord
    requires |salt| == SaltLength
  {
    var (s, h) := HashPassword(kdf, password, salt);
    UserRecord(Text(s), Text(h), Absent, fullName)
  }

  /** The rewrite `load_user_store` applies to one record: one with a
      string `password` becomes `{salt, hash, full_name}` with the salt
      given; one without a `password` key is kept as it is; a `null`
      password makes `_hash_password` raise (`None`). */
  function MigrateRecord(kdf: Kdf, rec: UserRecord, salt: seq<byte>): (r: Option<UserRecord>)
    requires |salt| == SaltLength
    ensures r.None? <==> rec.password.Null?
    ensures r.Some? ==> r.value.password.Absent? && r.value.fullName == rec.fullName
    ensures rec.password.Text? ==> r.Some? && r.value.salt.Text? && FromHex(r.value.salt.s) == Some(salt)
  {
    match rec.password
    case Text(p) => Some(HashedRecord(kdf, p, salt, rec.fullName))
    case Null => None
    case Absent => Some(rec)
  }

  /** Some record of the document has a `null` password. */
  predicate HasNullPassword(data: map<string, UserRecord>) {
    exists u :: u in data && data[u].password.Null?
  }

  /** The store `load_user_store` builds from a readable document, drawing
      one fresh salt per migrated user: the same user names, no plaintext
      left, full names kept, and every record without a `password` key kept
      as it was. A `null` password anywhere raises inside the loop, which
      the handler turns into an empty store (`None` here). */
  function MigrateStore(kdf: Kdf, data: map<string, UserRecord>, freshSalt: string -> seq<byte>)
    : (r: Option<map<string, UserRecord>>)
    requires forall u :: |freshSalt(u)| == SaltLength
    ensures r.None? <==> HasNullPassword(data)
    ensures r.Some? ==> r.value.Keys == data.Keys
    ensures r.Some? ==> forall u :: u in r.value ==> r.value[u].password.Absent? && r.value[u].fullName == data[u].fullName
    ensures r.Some? ==> forall u :: u in data && data[u].password.Absent? ==> r.value[u] == data[u]
  {
    if HasNullPassword(data) then None
    else Some(map u | u in data :: MigrateRecord(kdf, data[u], freshSalt(u)).value)
  }

  /** A migrated legacy user still logs in with the old plaintext, and with
      another password exactly when that password's derivation collides. */
  lemma MigratedLegacyLogin(kdf: Kdf, rec: UserRecord, salt: seq<byte>, attempt: string)
    requires |salt| == SaltLength
    requires rec.password.Text?
    ensures VerifyPasswordForUser(kdf, MigrateRecord(kdf, rec, salt), rec.password.s) == Some(true)
    ensures VerifyPasswordForUser(kdf, MigrateRecord(kdf, rec, salt), attempt)
            == Some(kdf(attempt, salt) == kdf(rec.password.s, salt))
  {
    HashThenVerify(kdf, rec.password.s, salt);
    VerifyOtherPassword(kdf, rec.password.s, attempt, salt);
  }

  /** The default account seeded when `users.json` does not exist. */
  const DefaultAdmin := "admin"
  const DefaultAdminPassword := "1234"
  const DefaultAdminName := "Sistem Yöneticisi"

  /** `USERS` and `users.json`. */
  class UserStore {
    const kdf: Kdf
    /** `USERS` */
    var users: map<string, UserRecord>
    /** `users.json`: what the last save wrote, or what was found there. */
    var disk: StoreFile

    constructor(kdf: Kdf, disk: StoreFile)
      ensures this.kdf == kdf && this.disk == disk && users == map[]
    {
      this.kdf := kdf;
      this.disk := disk;
      users := map[];
    }

    /** `save_user_store`: the whole table is written. */
    method Save()
      modifies this`disk
      ensures disk == Document(users)
    {
      disk := Document(users);
    }

    /** `load_user_store`. With no file, the store is exactly the default
        admin, hashed with `adminSalt`, and it is saved. An unreadable file
        gives an empty store, and so does a document with a `null`
        password. Any other document is migrated (one salt per legacy user
        from `freshSalt`) and the result is NOT saved back: the file keeps
        its plaintext entries. */
    method Load(freshSalt: string -> seq<byte>, adminSalt: seq<byte>) returns (loaded: map<string, UserRecord>)
      requires forall u :: |freshSalt(u)| == SaltLength
      requires |adminSalt| == SaltLength
      modifies this
      ensures loaded == users
      ensures old(disk).Missing? ==>
        users == map[DefaultAdmin := HashedRecord(kdf, DefaultAdminPassword, adminSalt, Some(DefaultAdminName))]
        && disk == Document(users)
      ensures old(disk).Unreadable? ==> users == map[] && disk == old(disk)
      ensures old(disk).Document? ==> users == MigrateStore(kdf, old(disk).entries, freshSalt).GetOr(map[]) && disk == old(disk)
    {
      match disk {
      case Missing =>
        users := map[DefaultAdmin := HashedRecord(kdf, DefaultAdminPassword, adminSalt, Some(DefaultAdminName))];
        Save();
      case Unreadable =>
        users := map[];
      case Document(data) =>
        var result := data;
        var todo := data.Keys;
        while todo != {}
          invariant todo <= data.Keys
          invariant result.Keys == data.Keys
          invariant forall u :: u in data && u !in todo ==> !data[u].password.Null?
          invariant forall u :: u in data ==>
            result[u] == if u in todo then data[u] else MigrateRecord(kdf, data[u], freshSalt(u)).value
          decreases todo
        {
          var u :| u in todo;
          var info := data[u];
          match info.password {
          case Text(p) =>
            var (salt, h) := HashPassword(kdf, p, freshSalt(u));
            result := result[u := UserRecord(Text(salt), Text(h), Absent, info.fullName)];
          case Null =>
            users := map[];
            return users;
          case Absent =>
          }
          todo := todo - {u};
        }
        users := result;
      }
      loaded := users;
    }

    /** `create_user`: refused, with nothing changed, when the name is
        taken; otherwise exactly that key is added with a fresh salt, the
        hash and the full name, and the store is saved. */
    method CreateUser(username: string, password: string, fullName: Option<string>, salt: seq<byte>) returns (ok: bool)
      requires |salt| == SaltLength
      modifies this`users, this`disk
      ensures ok <==> username !in old(users)
      ensures ok ==> users == old(users)[username := HashedRecord(kdf, password, salt, fullName)] && disk == Document(users)
      ensures !ok ==> users == old(users) && disk == old(disk)
    {
      if username in users {
        return false;
      }
      var (s, h) := HashPassword(kdf, password, salt);
      users := users[username := UserRecord(Text(s), Text(h), Absent, fullName)];
      Save();
      return true;
    }

    /** `delete_user`: refused, with nothing changed, when the name is
        absent; otherwise exactly that key is removed and the store saved. */
    method DeleteUser(username: string) returns (ok: bool)
      modifies this`users, this`disk
      ensures ok <==> username in old(users)
      ensures ok ==> users == old(users) - {username} && disk == Document(users)
      ensures !ok ==> users == old(users) && disk == old(disk)
    {
      if username !in users {
        return false;
      }
      users := users - {username};
      Save();
      return true;
    }

    /** `list_users`: every user with only the full name, never the salt,
        hash or plaintext. */
    function ListUsers(): (r: map<string, Option<string>>)
      reads this
      ensures r.Keys == users.Keys
      ensures forall u :: u in users ==> r[u] == users[u].fullName
    {
      map u | u in users :: users[u].fullName
    }

    /** `_verify_password_for_user(USERS.get(username), password)` */
    function Verify(username: string, password: string): (r: Option<bool>)
      reads this
      ensures username !in users ==> r == Some(false)
      ensures r == Some(true) ==> username in users
    {
      VerifyPasswordForUser(kdf, if username in users then Some(users[username]) else None, password)
    }
  }

  /** The registration scenario: a created user verifies with the password
      given at creation and with another one only if its derivation
      collides; creating the same name again is refused and changes
      nothing; deleting it makes every password fail. */
  method RegistrationScenario(store: UserStore, name: string, password: string, other: string, salt: seq<byte>, salt2: seq<byte>)
    requires |salt| == SaltLength && |salt2| == SaltLength
    requires name !in store.users
    modifies store
  {
    var ok := store.CreateUser(name, password, None, salt);
    assert ok;
    HashThenVerify(store.kdf, password, salt);
    assert store.Verify(name, password) == Some(true);
    VerifyOtherPassword(store.kdf, password, other, salt);
    assert store.Verify(name, other) == Some(store.kdf(other, salt) == store.kdf(password, salt));
    var before := store.users;
    var again := store.CreateUser(name, other, None, salt2);
    assert !again && store.users == before;
    var gone := store.DeleteUser(name);
    assert gone && store.Verify(name, password) == Some(false);
  }
}
