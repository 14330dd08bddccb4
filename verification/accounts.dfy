/** The web-era user registry (org.parking.model.UserDAO): the `users`
    table keyed by the lower-cased, trimmed username, with bcrypt-hashed
    passwords. The hash function is a parameter: `encode` takes the salt
    bcrypt would draw at random, and `matches` is bcrypt's check. Clock
    readings (`LocalDateTime.now()`) are passed in as text. */
module Accounts {
  import opened Base
  import opened JavaText

  /** bcrypt as the registry uses it: `encode(password, salt)` and
      `matches(password, storedHash)`. */
  datatype Hasher = Hasher(encode: (string, nat) -> string, matches: (string, string) -> bool)

  /** A hash always matches the password it was made from. */
  ghost predicate Sound(h: Hasher) {
    forall p: string, salt: nat :: h.matches(p, h.encode(p, salt))
  }

  /** A hash never matches a password other than the one it was made from. */
  ghost predicate Distinguishing(h: Hasher) {
    forall p: string, q: string, salt: nat :: p != q ==> !h.matches(q, h.encode(p, salt))
  }

  /** One row of `users` (the lockout columns are never written here). */
  datatype User = User(
    hash: string,
    role: string,
    email: Option<string>,
    createdAt: string,
    lastLogin: Option<string>,
    active: bool,
    passwordChangedAt: Option<string>)

  /** The table, by primary key. */
  type Users = map<string, User>

  /** `s.toLowerCase().trim()`, applied to every username and to the email
      being looked up. */
  function Key(s: string): (k: string)
    ensures Trimmed(k) && NoUpperAscii(k)
    ensures |k| <= |s|
  {
    TrimNoUpper(ToLower(s));
    Trim(ToLower(s))
  }

  /** The key is the trimmed middle of `s`, lower-cased: lower-casing
      before or after `trim` gives the same text. */
  lemma KeyContent(s: string)
    ensures Key(s) == ToLower(Trim(s))
  {
    TrimLowerCommute(s);
  }

  /** Normalising twice is normalising once, so `Key(u)` and `u` name the
      same account. */
  lemma KeyIdempotent(s: string)
    ensures Key(Key(s)) == Key(s)
  {
    var k := Key(s);
    ToLowerNoUpper(k);
  }

  /** `userExists`: a row under the normalised name. */
  predicate UserExists(db: Users, username: string) {
    Key(username) in db
  }

  /** `emailExists`: a row whose stored email equals the lower-cased,
      trimmed argument. Stored emails are compared as they were written. */
  predicate EmailExists(db: Users, email: string) {
    exists k :: k in db && db[k].email == Some(Key(email))
  }

  /** The `UNIQUE` constraint on `email`: the exact text is already stored. */
  predicate EmailStored(db: Users, email: string) {
    exists k :: k in db && db[k].email == Some(email)
  }

  /** The row a successful registration inserts. */
  function NewUser(h: Hasher, salt: nat, password: string, role: string, email: Option<string>, now: string): (u: User)
    ensures u.active && u.lastLogin.None? && u.passwordChangedAt.None?
    ensures u.hash == h.encode(password, salt) && u.role == role && u.email == email && u.createdAt == now
  {
    User(h.encode(password, salt), role, email, now, None, true, None)
  }

  /** `registerUser(username, password, role, email)`. It fails when the
      normalised name is taken, when a supplied email is found by
      `emailExists`, and when the insert itself is refused: a `null` role
      breaks `NOT NULL` and an email stored verbatim breaks `UNIQUE`. On
      success exactly one row is added, under the normalised name. */
  function RegisterUser(db: Users, h: Hasher, salt: nat, username: string, password: string,
                        role: Option<string>, email: Option<string>, now: string): (r: (bool, Users))
    ensures r.0 <==>
      && !UserExists(db, username)
      && !(email.Some? && EmailExists(db, email.value))
      && role.Some?
      && !(email.Some? && EmailStored(db, email.value))
    ensures !r.0 ==> r.1 == db
    ensures r.0 ==> r.1.Keys == db.Keys + {Key(username)}
    ensures r.0 ==> forall k :: k in db ==> r.1[k] == db[k]
    ensures r.0 ==> r.1[Key(username)] == NewUser(h, salt, password, role.value, email, now)
  {
    if UserExists(db, username) then (false, db)
    else if email.Some? && EmailExists(db, email.value) then (false, db)
    else if role.None? || (email.Some? && EmailStored(db, email.value)) then (false, db)
    else (true, db[Key(username) := NewUser(h, salt, password, role.value, email, now)])
  }

  /** The three-argument overload: no email, so no email check. */
  function RegisterUserNoEmail(db: Users, h: Hasher, salt: nat, username: string, password: string,
                               role: Option<string>, now: string): (r: (bool, Users))
    ensures r.0 <==> !UserExists(db, username) && role.Some?
    ensures r == RegisterUser(db, h, salt, username, password, role, None, now)
  {
    RegisterUser(db, h, salt, username, password, role, None, now)
  }

  /** `validateLogin(username, password)`: false for an unknown or
      deactivated account, otherwise bcrypt's verdict; a success stamps
      `last_login` and changes nothing else. */
  function ValidateLogin(db: Users, h: Hasher, username: string, password: string, now: string): (r: (bool, Users))
    ensures r.0 <==> Key(username) in db && db[Key(username)].active
                     && h.matches(password, db[Key(username)].hash)
    ensures !r.0 ==> r.1 == db
    ensures r.0 ==> r.1.Keys == db.Keys
    ensures r.0 ==> forall k :: k in db && k != Key(username) ==> r.1[k] == db[k]
    ensures r.0 ==> r.1[Key(username)] == db[Key(username)].(lastLogin := Some(now))
  {
    var k := Key(username);
    if k !in db then (false, db)
    else if !db[k].active then (false, db)
    else if h.matches(password, db[k].hash) then (true, db[k := db[k].(lastLogin := Some(now))])
    else (false, db)
  }

  /** `getUserRole(username)`: the stored role, "user" when there is no
      such account. */
  function GetUserRole(db: Users, username: string): (role: string)
    ensures UserExists(db, username) ==> role == db[Key(username)].role
    ensures !UserExists(db, username) ==> role == "user"
  {
    var k := Key(username);
    if k in db then db[k].role else "user"
  }

  /** `changePassword(username, old, new)`: only when `old` logs in (which
      stamps `last_login` with the clock reading `now`); then the new hash
      and the change time are written, the change time being the clock's
      second reading `changedAt`. */
  function ChangePassword(db: Users, h: Hasher, salt: nat, username: string, oldPassword: string,
                          newPassword: string, now: string, changedAt: string): (r: (bool, Users))
    ensures r.0 <==> ValidateLogin(db, h, username, oldPassword, now).0
    ensures !r.0 ==> r.1 == db
    ensures r.0 ==> r.1.Keys == db.Keys
    ensures r.0 ==> forall k :: k in db && k != Key(username) ==> r.1[k] == db[k]
    ensures r.0 ==> (r.1[Key(username)] ==
      db[Key(username)].(hash := h.encode(newPassword, salt), lastLogin := Some(now), passwordChangedAt := Some(changedAt)))
  {
    var (ok, db1) := ValidateLogin(db, h, username, oldPassword, now);
    if !ok then (false, db1)
    else
      var k := Key(username);
      (true, db1[k := db1[k].(hash := h.encode(newPassword, salt), passwordChangedAt := Some(changedAt))])
  }

  /** `deactivateUser(username)`: true when the row exists (even if it was
      already inactive); only its `is_active` flag changes. */
  function DeactivateUser(db: Users, username: string): (r: (bool, Users))
    ensures r.0 <==> UserExists(db, username)
    ensures !r.0 ==> r.1 == db
    ensures r.0 ==> r.1.Keys == db.Keys
    ensures r.0 ==> forall k :: k in db && k != Key(username) ==> r.1[k] == db[k]
    ensures r.0 ==> r.1[Key(username)] == db[Key(username)].(active := false)
  {
    var k := Key(username);
    if k in db then (true, db[k := db[k].(active := false)]) else (false, db)
  }

  // ---------------------------------------------------------------- properties

  /** A freshly registered account logs in with its password, under any
      spelling of the name that normalises the same way. */
  lemma RegisterThenLogin(db: Users, h: Hasher, salt: nat, username: string, password: string,
                          role: Option<string>, email: Option<string>, now: string, other: string, later: string)
    requires Sound(h)
    requires RegisterUser(db, h, salt, username, password, role, email, now).0
    requires Key(other) == Key(username)
    ensures ValidateLogin(RegisterUser(db, h, salt, username, password, role, email, now).1,
                          h, other, password, later).0
  {
    var db' := RegisterUser(db, h, salt, username, password, role, email, now).1;
    assert db'[Key(username)].hash == h.encode(password, salt);
  }

  /** A registered account reports the role it was registered with. */
  lemma RegisterThenRole(db: Users, h: Hasher, salt: nat, username: string, password: string,
                         role: Option<string>, email: Option<string>, now: string)
    requires RegisterUser(db, h, salt, username, password, role, email, now).0
    ensures GetUserRole(RegisterUser(db, h, salt, username, password, role, email, now).1, username) == role.value
  {
  }

  /** The same name cannot be registered twice, whatever its spelling. */
  lemma RegisterTwiceFails(db: Users, h: Hasher, salt: nat, username: string, password: string,
                           role: Option<string>, email: Option<string>, now: string,
                           other: string, salt2: nat, password2: string, role2: Option<string>,
                           email2: Option<string>, later: string)
    requires RegisterUser(db, h, salt, username, password, role, email, now).0
    requires Key(other) == Key(username)
    ensures !RegisterUser(RegisterUser(db, h, salt, username, password, role, email, now).1,
                          h, salt2, other, password2, role2, email2, later).0
  {
  }

  /** A deactivated account never logs in again. */
  lemma DeactivateThenNoLogin(db: Users, h: Hasher, username: string, password: string, now: string)
    ensures !ValidateLogin(DeactivateUser(db, username).1, h, username, password, now).0
  {
  }

  /** After a password change the new password logs in, and an old password
      that differs from it no longer does. */
  lemma ChangeThenLogin(db: Users, h: Hasher, salt: nat, username: string, oldPassword: string,
                        newPassword: string, now: string, changedAt: string, later: string)
    requires Sound(h) && Distinguishing(h)
    requires ChangePassword(db, h, salt, username, oldPassword, newPassword, now, changedAt).0
    ensures var db' := ChangePassword(db, h, salt, username, oldPassword, newPassword, now, changedAt).1;
      && ValidateLogin(db', h, username, newPassword, later).0
      && (oldPassword != newPassword ==> !ValidateLogin(db', h, username, oldPassword, later).0)
  {
    var db' := ChangePassword(db, h, salt, username, oldPassword, newPassword, now, changedAt).1;
    assert db'[Key(username)].hash == h.encode(newPassword, salt);
  }

  /** Logging in changes no password, role, email or status. */
  lemma LoginKeepsCredentials(db: Users, h: Hasher, username: string, password: string, now: string, k: string)
    requires k in db
    ensures var db' := ValidateLogin(db, h, username, password, now).1;
      k in db' && db'[k].hash == db[k].hash && db'[k].role == db[k].role &&
      db'[k].email == db[k].email && db'[k].active == db[k].active
  {
  }

  // ------------------------------------------------------ email uniqueness

  /** No two accounts hold emails that normalise to the same text. */
  predicate EmailsDistinct(db: Users) {
    forall a, b :: a in db && b in db && a != b && db[a].email.Some? && db[b].email.Some? ==>
      Key(db[a].email.value) != Key(db[b].email.value)
  }

  /** `registerUser` as written stores the email verbatim but looks it up
      lower-cased, so an address first registered with capitals (`e1`) is
      not found when its lower-case form (`e2`) is registered later. */
  lemma CaseVariantEmailAccepted(db: Users, h: Hasher, salt: nat, salt2: nat, now: string,
                                 n1: string, n2: string, e1: string, e2: string)
    requires db == map[]
    requires Key(n1) != Key(n2)
    requires Key(e1) == Key(e2) && e1 != e2 && e1 != Key(e2)
    ensures var (ok1, db1) := RegisterUser(db, h, salt, n1, "pw", Some("user"), Some(e1), now);
      var (ok2, db2) := RegisterUser(db1, h, salt2, n2, "pw", Some("user"), Some(e2), now);
      ok1 && ok2 && !EmailsDistinct(db2)
  {
    var db1 := RegisterUser(db, h, salt, n1, "pw", Some("user"), Some(e1), now).1;
    assert db1.Keys == {Key(n1)};
    assert !EmailExists(db1, e2);
    assert !EmailStored(db1, e2);
    var db2 := RegisterUser(db1, h, salt2, n2, "pw", Some("user"), Some(e2), now).1;
    assert db2[Key(n1)].email == Some(e1) && db2[Key(n2)].email == Some(e2);
  }

  /** A concrete pair: "Ann@x.io" and then "ann@x.io". */
  lemma CaseVariantExample()
    ensures Key("Ann@x.io") == "ann@x.io" && Key("ann@x.io") == "ann@x.io"
    ensures Key("ann") != Key("bob")
  {
    var lower: string := "ann@x.io";
    assert ToLower("Ann@x.io") == lower by {
      var t := ToLower("Ann@x.io");
      assert t[0] == 'a' && t[1] == 'n' && t[2] == 'n' && t[3] == '@';
      assert t[4] == 'x' && t[5] == '.' && t[6] == 'i' && t[7] == 'o';
    }
    assert ToLower(lower) == lower by {
      ToLowerNoUpper(lower);
    }
    assert Trimmed(lower);
    assert ToLower("ann") == "ann" by {
      ToLowerNoUpper("ann");
    }
    assert Trimmed("ann");
    assert ToLower("bob") == "bob" by {
      ToLowerNoUpper("bob");
    }
    assert Trimmed("bob");
  }

  /** The email check as intended: a supplied email is refused when any
      stored email normalises to the same text. */
  predicate EmailTaken(db: Users, email: string) {
    exists k :: k in db && db[k].email.Some? && Key(db[k].email.value) == Key(email)
  }

  /** `registerUser` with the email compared in normalised form on both
      sides. */
  function RegisterUserChecked(db: Users, h: Hasher, salt: nat, username: string, password: string,
                               role: Option<string>, email: Option<string>, now: string): (r: (bool, Users))
    ensures r.0 <==>
      && !UserExists(db, username)
      && !(email.Some? && EmailTaken(db, email.value))
      && role.Some?
    ensures !r.0 ==> r.1 == db
    ensures r.0 ==> r.1.Keys == db.Keys + {Key(username)}
    ensures r.0 ==> forall k :: k in db ==> r.1[k] == db[k]
    ensures r.0 ==> r.1[Key(username)] == NewUser(h, salt, password, role.value, email, now)
  {
    if UserExists(db, username) then (false, db)
    else if email.Some? && EmailTaken(db, email.value) then (false, db)
    else if role.None? then (false, db)
    else (true, db[Key(username) := NewUser(h, salt, password, role.value, email, now)])
  }

  /** The corrected registration keeps emails distinct up to case and
      surrounding blanks. */
  lemma RegisterCheckedKeepsEmailsDistinct(db: Users, h: Hasher, salt: nat, username: string, password: string,
                                           role: Option<string>, email: Option<string>, now: string)
    requires EmailsDistinct(db)
    ensures EmailsDistinct(RegisterUserChecked(db, h, salt, username, password, role, email, now).1)
  {
    var (ok, db') := RegisterUserChecked(db, h, salt, username, password, role, email, now);
    if ok {
      var n := Key(username);
      forall a, b | a in db' && b in db' && a != b && db'[a].email.Some? && db'[b].email.Some?
        ensures Key(db'[a].email.value) != Key(db'[b].email.value)
      {
        if a == n {
          assert b in db && db'[b] == db[b];
        } else if b == n {
          assert a in db && db'[a] == db[a];
        } else {
          assert db'[a] == db[a] && db'[b] == db[b];
        }
      }
    }
  }

  /** The corrected registration keeps the login round trip: the new
      account logs in with its password under any spelling of the name. */
  lemma CheckedRegisterThenLogin(db: Users, h: Hasher, salt: nat, username: string, password: string,
                                 role: Option<string>, email: Option<string>, now: string, other: string, later: string)
    requires Sound(h)
    requires RegisterUserChecked(db, h, salt, username, password, role, email, now).0
    requires Key(other) == Key(username)
    ensures ValidateLogin(RegisterUserChecked(db, h, salt, username, password, role, email, now).1,
                          h, other, password, later).0
  {
    var db' := RegisterUserChecked(db, h, salt, username, password, role, email, now).1;
    assert db'[Key(username)].hash == h.encode(password, salt);
  }

  /** Where the stored emails are already normalised, as the corrected
      registration would keep them, the check as written and the corrected
      check agree. */
  lemma CheckedAgreesOnNormalisedEmails(db: Users, h: Hasher, salt: nat, username: string, password: string,
                                        role: Option<string>, email: Option<string>, now: string)
    requires forall k :: k in db && db[k].email.Some? ==> Key(db[k].email.value) == db[k].email.value
    requires email.Some? ==> Key(email.value) == email.value
    ensures RegisterUserChecked(db, h, salt, username, password, role, email, now)
         == RegisterUser(db, h, salt, username, password, role, email, now)
  {
    if email.Some? {
      assert EmailTaken(db, email.value) <==> EmailExists(db, email.value);
    }
  }
}
