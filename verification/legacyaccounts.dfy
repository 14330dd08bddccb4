/** The desktop-era user table (src/model/UserDAO.java): username, password
    and role stored verbatim, the username as primary key, and login by an
    exact match of name and plaintext password. */
module LegacyAccounts {
  import Accounts

  datatype Account = Account(password: string, role: string)

  type Users = map<string, Account>

  /** `registerUser(username, password, role)`: the insert succeeds unless
      the primary key is taken, in which case the `SQLException` is turned
      into `false` and nothing is written. */
  function RegisterUser(db: Users, username: string, password: string, role: string): (r: (bool, Users))
    ensures r.0 <==> username !in db
    ensures !r.0 ==> r.1 == db
    ensures r.0 ==> r.1.Keys == db.Keys + {username}
    ensures r.0 ==> r.1[username] == Account(password, role)
    ensures r.0 ==> forall u :: u in db ==> r.1[u] == db[u]
  {
    if username in db then (false, db) else (true, db[username := Account(password, role)])
  }

  /** `validateLogin(username, password)`: some row has exactly that name
      and exactly that password. */
  function ValidateLogin(db: Users, username: string, password: string): (ok: bool)
    ensures ok <==> exists u :: u in db && u == username && db[u].password == password
  {
    username in db && db[username].password == password
  }

  /** Registering and then logging in with the same credentials succeeds. */
  lemma RegisterThenLogin(db: Users, username: string, password: string, role: string)
    requires RegisterUser(db, username, password, role).0
    ensures ValidateLogin(RegisterUser(db, username, password, role).1, username, password)
  {
  }

  /** A failed registration leaves the stored password in force: the old
      one still logs in and a different new one does not. */
  lemma DuplicateKeepsPassword(db: Users, username: string, password: string, role: string, other: string)
    requires username in db && db[username].password != password
    requires ValidateLogin(db, username, other)
    ensures var (ok, db') := RegisterUser(db, username, password, role);
      !ok && ValidateLogin(db', username, other) && !ValidateLogin(db', username, password)
  {
  }

  /** Nothing is normalised: a name that differs in any char, case or
      blank included, is another account. */
  lemma NoNormalisation(db: Users, username: string, password: string, role: string, other: string, p: string)
    requires username !in db && other != username && other !in db
    ensures !ValidateLogin(RegisterUser(db, username, password, role).1, other, p)
  {
  }

  /** Registration never changes another account's login. */
  lemma RegisterKeepsOtherLogins(db: Users, username: string, password: string, role: string, other: string, p: string)
    requires other != username
    ensures ValidateLogin(RegisterUser(db, username, password, role).1, other, p) == ValidateLogin(db, other, p)
  {
  }

  /** The plaintext table is the web-era registry with the identity hash:
      for a name already in normal form, on an active account, both logins
      give the same verdict. */
  lemma AgreesWithHashedLogin(db: Users, adb: Accounts.Users, username: string, password: string, now: string)
    requires Accounts.Key(username) == username
    requires username in db <==> username in adb
    requires username in db ==> adb[username].active && adb[username].hash == db[username].password
    ensures ValidateLogin(db, username, password)
        == Accounts.ValidateLogin(adb, Accounts.Hasher((p, salt) => p, (p, h) => p == h), username, password, now).0
  {
  }
}
