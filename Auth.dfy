/** server/auth.ts: password records, the admin bootstrap of `setupAuth`,
    the `/api/login` and `/api/logout` handlers and the middleware mounted on
    the `/api/admin` subtree. scrypt is the abstract function `kdf`; the random salt is
    a parameter. */
module Auth {

  import opened Wrappers
  import opened Text
  import opened Schema
  import opened Storage
  import opened Http

  const SaltLength: nat := 16
  const KeyLength: nat := 64

  const AdminUsername: string := "admin"
  /** The fixed seed password of the bootstrap admin. */
  const AdminPassword: string := "rama.56Op"

  /** `randomBytes(16)`. */
  type Salt = s: seq<Byte> | |s| == SaltLength witness seq(16, _ => 0)

  /** A key of `scrypt(password, salt, 64)`. */
  type DerivedKey = k: seq<Byte> | |k| == KeyLength witness seq(64, _ => 0)

  /** scrypt with a 64-byte output: password and salt string to key. */
  type Kdf = (string, string) -> DerivedKey

  // ---------------------------------------------------------------------
  // Password records

  /** `hashPassword`: hex of the derived key, ".", hex of the salt; the salt
      is used as the KDF's salt in its hex form. */
  function HashPassword(kdf: Kdf, password: string, salt: Salt): (r: string)
    ensures |r| == 2 * KeyLength + 1 + 2 * SaltLength
    ensures r[2 * KeyLength] == '.'
    ensures forall i :: 0 <= i < |r| && i != 2 * KeyLength ==> IsHexDigit(r[i])
    ensures r[..2 * KeyLength] == HexEncode(kdf(password, HexEncode(salt)))
    ensures r[2 * KeyLength + 1..] == HexEncode(salt)
  {
    var saltHex := HexEncode(salt);
    var keyHex := HexEncode(kdf(password, saltHex));
    var r := keyHex + "." + saltHex;
    assert r[..2 * KeyLength] == keyHex;
    assert r[2 * KeyLength + 1..] == saltHex;
    r
  }

  /** The two ways `comparePasswords` throws: `scrypt` given no salt when the
      record has no ".", and `timingSafeEqual` given buffers of different
      lengths. */
  datatype CompareError = SaltMissing | LengthMismatch

  /** `comparePasswords(supplied, stored)`. */
  function ComparePasswords(kdf: Kdf, supplied: string, stored: string): (r: Result<bool, CompareError>)
    ensures r == Failure(SaltMissing) <==> '.' !in stored
    ensures r == Failure(LengthMismatch) <==>
      '.' in stored && |HexDecode(Split(stored, '.')[0])| != KeyLength
    ensures r.Success? ==>
      var parts := Split(stored, '.');
      |parts| >= 2 && r.value == (HexDecode(parts[0]) == kdf(supplied, parts[1]))
  {
    var parts := Split(stored, '.');
    SplitPieces(stored, '.');
    var hashed := HexDecode(parts[0]);
    if |parts| < 2 then Failure(SaltMissing)
    else if |hashed| != KeyLength then Failure(LengthMismatch)
    else Success(hashed == kdf(supplied, parts[1]))
  }

  /** Splitting a record on "." recovers exactly the key and salt that
      were joined, since hex has no ".". */
  lemma RecordSplits(kdf: Kdf, password: string, salt: Salt)
    ensures Split(HashPassword(kdf, password, salt), '.')
         == [HexEncode(kdf(password, HexEncode(salt))), HexEncode(salt)]
  {
    var saltHex := HexEncode(salt);
    var keyHex := HexEncode(kdf(password, saltHex));
    assert '.' !in keyHex && '.' !in saltHex;
    assert HashPassword(kdf, password, salt) == keyHex + ['.'] + saltHex;
    SplitJoin(keyHex, saltHex, '.');
  }

  /** Checking a password against a record re-derives the key with the
      record's salt: it succeeds exactly when the KDF gives the supplied
      password the same key as the recorded one. */
  lemma CompareAgainstRecord(kdf: Kdf, supplied: string, password: string, salt: Salt)
    ensures var saltHex := HexEncode(salt);
      ComparePasswords(kdf, supplied, HashPassword(kdf, password, salt))
        == Success(kdf(supplied, saltHex) == kdf(password, saltHex))
  {
    RecordSplits(kdf, password, salt);
    HexRoundTrip(kdf(password, HexEncode(salt)));
  }

  /** The password a record was made from is accepted by it. */
  lemma OwnPasswordAccepted(kdf: Kdf, password: string, salt: Salt)
    ensures ComparePasswords(kdf, password, HashPassword(kdf, password, salt)) == Success(true)
  {
    CompareAgainstRecord(kdf, password, password, salt);
  }

  // ---------------------------------------------------------------------
  // Handlers

  /** The bootstrap in `setupAuth`: create "admin" only when it is absent. */
  method SetupAdmin(store: Storage, kdf: Kdf, salt: Salt, now: int)
    requires store.Valid()
    modifies store`users, store`userSerial
    ensures store.Valid()
    ensures UsersNamed(old(store.users), AdminUsername) != [] ==>
      store.users == old(store.users) && store.userSerial == old(store.userSerial)
    ensures UsersNamed(old(store.users), AdminUsername) == [] ==>
      store.userSerial == old(store.userSerial) + 1
      && store.users == old(store.users)
        + [User(old(store.userSerial), AdminUsername, HashPassword(kdf, AdminPassword, salt), now)]
    ensures |UsersNamed(store.users, AdminUsername)| == 1
  {
    var existing := store.GetUserByUsername(AdminUsername);
    if existing.None? {
      assert UsersWithId(store.users, store.userSerial) == [];
      var created := store.CreateUser(NewUser(AdminUsername, HashPassword(kdf, AdminPassword, salt)), now);
      var admin := User(old(store.userSerial), AdminUsername, HashPassword(kdf, AdminPassword, salt), now);
      assert UsersNamed(old(store.users) + [admin], AdminUsername) == [admin] by {
        NamedAppend(old(store.users), admin, AdminUsername);
      }
    }
    UsernameLookupAtMostOne(store.users, AdminUsername);
  }

  lemma {:induction false} NamedAppend(us: seq<User>, u: User, name: string)
    ensures UsersNamed(us + [u], name) == UsersNamed(us, name) + (if u.username == name then [u] else [])
  {
    var t := us + [u];
    if us == [] {
      assert t == [u];
    } else {
      assert t[0] == us[0] && t[1..] == us[1..] + [u];
      NamedAppend(us[1..], u, name);
    }
  }

  /** POST /api/login. An unknown username or a wrong password answers 401
      and leaves the session alone; a record that makes `comparePasswords`
      throw leaves the request unanswered; a match signs the user in. */
  method Login(store: Storage, session: Session, kdf: Kdf, username: string, password: string)
    returns (r: Response)
    requires store.Valid()
    modifies session
    ensures var found := UsersNamed(store.users, username);
      if found == [] then
        r == Reply(401, Note("Invalid credentials")) && session.userId == old(session.userId)
      else match ComparePasswords(kdf, password, found[0].password)
        case Failure(_) => r == Unhandled && session.userId == old(session.userId)
        case Success(false) =>
          r == Reply(401, Note("Invalid credentials")) && session.userId == old(session.userId)
        case Success(true) =>
          r == Reply(200, Note("Logged in successfully")) && session.userId == Some(found[0].id)
  {
    var user := store.GetUserByUsername(username);
    if user.None? {
      return Reply(401, Note("Invalid credentials"));
    }
    var matches := ComparePasswords(kdf, password, user.value.password);
    match matches
    case Failure(_) =>
      r := Unhandled;
    case Success(ok) =>
      if !ok {
        r := Reply(401, Note("Invalid credentials"));
      } else {
        session.userId := Some(user.value.id);
        r := Reply(200, Note("Logged in successfully"));
      }
  }

  /** POST /api/logout: the session is destroyed, so later requests carry
      no `userId`. */
  method Logout(session: Session) returns (r: Response)
    modifies session
    ensures session.userId == None
    ensures r == Reply(200, Note("Logged out successfully"))
  {
    session.userId := None;
    r := Reply(200, Note("Logged out successfully"));
  }

  /** The middleware on the `/api/admin` subtree: `None` lets the request through,
      which happens exactly when the session names an existing user called
      "admin"; every refusal is the same 401. */
  function AdminGate(store: Storage, session: Session): (r: Option<Response>)
    reads store, session
    requires store.Valid()
    ensures r.None? <==>
      SignedIn(session.userId)
      && exists u :: u in store.users && u.id == session.userId.value && u.username == AdminUsername
    ensures r.Some? ==> r.value == Unauthorized
  {
    if !SignedIn(session.userId) then Some(Unauthorized)
    else
      var user := First(UsersWithId(store.users, session.userId.value));
      assert forall u :: u in store.users && u.id == session.userId.value ==> user == Some(u) by {
        forall u | u in store.users && u.id == session.userId.value ensures user == Some(u) {
          var rows := UsersWithId(store.users, session.userId.value);
          assert u in rows;
          var i :| 0 <= i < |store.users| && store.users[i] == u;
          var j :| 0 <= j < |store.users| && store.users[j] == rows[0];
          assert i == j;
        }
      }
      if user.None? || user.value.username != AdminUsername then Some(Unauthorized)
      else None
  }
}
