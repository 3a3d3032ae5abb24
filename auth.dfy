/** Administrator accounts: the logged-in user value, lookups by id and by
    username, the password check and the creation of the default accounts.
    Hashing is a parameter: `hash` stands for generating a password hash and
    `verify(hash, password)` for checking one. */
module Auth {
  import opened Common
  import opened Schema
  import Text
  import Db

  /** The logged-in user: id, username and the name shown in the UI. */
  datatype AdminUser = AdminUser(id: int, username: string, displayName: string)

  /** `AdminUser(id, username, display_name)`: a missing or empty display
      name falls back to the username. */
  function NewAdminUser(id: int, username: string, displayName: Option<string>): (u: AdminUser)
    ensures u.id == id && u.username == username
    ensures u.displayName == username <==> displayName.None? || displayName.value in {[], username}
    ensures displayName.Some? && displayName.value != [] ==> u.displayName == displayName.value
    ensures u.displayName == [] ==> username == []
  {
    AdminUser(id, username, if displayName.Some? && displayName.value != [] then displayName.value else username)
  }

  function FromRow(row: AdminRow): AdminUser {
    NewAdminUser(row.id, row.username, row.displayName)
  }

  /** `get_id`: the id as a decimal string. */
  function GetId(u: AdminUser): string {
    Text.IntToString(u.id)
  }

  /** `AdminUser.get(user_id)`: the user with that id, if any. */
  function Get(t: Tables, id: int): (r: Option<AdminUser>)
    ensures AdminsOk(t.admins) ==> (r.None? <==> forall i :: 0 <= i < |t.admins| ==> t.admins[i].id != id)
    ensures AdminsOk(t.admins) && r.Some? ==> r.value.id == id
  {
    match AdminById(t, id)
    case None => None
    case Some(row) => Some(FromRow(row))
  }

  /** `AdminUser.get_by_username(username)`: the user with that username, if
      any. */
  function GetByUsername(t: Tables, username: string): (r: Option<AdminUser>)
    ensures r.None? <==> forall i :: 0 <= i < |t.admins| ==> t.admins[i].username != username
    ensures r.Some? ==> r.value.username == username
  {
    match AdminByUsername(t, username)
    case None => None
    case Some(row) => Some(FromRow(row))
  }

  /** `load_user(user_id)`: `int(user_id)` then `get`; a session id that is
      not a number raises `ValueError`. */
  function LoadUser(t: Tables, userId: string): Result<Option<AdminUser>, string> {
    match Text.ParseInt(userId)
    case None => Failure("ValueError")
    case Some(id) => Success(Get(t, id))
  }

  /** The id stored in the session loads the same user back. */
  lemma LoadUserRoundTrip(t: Tables, id: int)
    requires AdminsOk(t.admins) && Get(t, id).Some?
    ensures LoadUser(t, GetId(Get(t, id).value)) == Success(Get(t, id))
  {
    Text.ParseIntRoundTrip(id);
  }

  /** `check_password(username, password)`: the user when a row with that
      username exists and its hash accepts the password, otherwise nothing. */
  function CheckPassword(t: Tables, username: string, password: string, verify: (string, string) -> bool)
    : (r: Option<AdminUser>)
    ensures r.Some? <==> AdminByUsername(t, username).Some? && verify(AdminByUsername(t, username).value.passwordHash, password)
    ensures r.Some? ==> r == GetByUsername(t, username)
  {
    match AdminByUsername(t, username)
    case None => None
    case Some(row) => if verify(row.passwordHash, password) then Some(FromRow(row)) else None
  }

  // ---------------------------------------------------------------------
  // Default accounts

  /** Username, password and display name of each default account. */
  const Defaults: seq<(string, string, string)> := [
    ("boss1", "123456", "boss1"),
    ("boss2", "123456", "boss2"),
    ("lingtong", "gbhnjmkI23", "Lingtong")
  ]

  /** One account: skip it when the username exists, otherwise insert it
      with the hash of its password. */
  function EnsureOne(t: Tables, account: (string, string, string), hash: string -> string): (r: Tables)
    ensures t.admins <= r.admins && r == t.(admins := r.admins)
    ensures AdminByUsername(r, account.0).Some?
    ensures AdminByUsername(t, account.0).Some? ==> r == t
    ensures AdminByUsername(t, account.0).None? ==>
      r == t.(admins := t.admins + [AdminRow(|t.admins| + 1, account.0, hash(account.1), Some(account.2))])
  {
    var (username, password, displayName) := account;
    if AdminByUsername(t, username).Some? then t
    else
      var r := InsertAdmin(t, username, hash(password), displayName).0;
      assert r.admins[|r.admins| - 1].username == username;
      r
  }

  /** Inserting an account keeps the table keys. */
  lemma EnsureOneWellFormed(t: Tables, account: (string, string, string), hash: string -> string)
    requires WellFormed(t)
    ensures WellFormed(EnsureOne(t, account, hash))
  {
    if AdminByUsername(t, account.0).None? {
      var _ := InsertAdmin(t, account.0, hash(account.1), account.2);
    }
  }

  /** Each account in turn, in order. */
  function EnsureAccounts(t: Tables, accounts: seq<(string, string, string)>, hash: string -> string): Tables
    decreases |accounts|
  {
    if accounts == [] then t
    else EnsureAccounts(EnsureOne(t, accounts[0], hash), accounts[1..], hash)
  }

  function EnsureDefaults(t: Tables, hash: string -> string): Tables {
    EnsureAccounts(t, Defaults, hash)
  }

  /** `ensure_default_admins`: the loop over the default accounts. */
  method EnsureDefaultAdmins(db: Db.Database, hash: string -> string)
    requires db.Valid()
    modifies db
    ensures db.Valid()
    ensures db.Snapshot() == EnsureDefaults(old(db.Snapshot()), hash)
  {
    var k := 0;
    while k < |Defaults|
      invariant 0 <= k <= |Defaults|
      invariant db.Valid()
      invariant EnsureAccounts(db.Snapshot(), Defaults[k..], hash) == EnsureDefaults(old(db.Snapshot()), hash)
    {
      var (username, password, displayName) := Defaults[k];
      var existing := db.SelectAdminByUsername(username);
      assert Defaults[k..][1..] == Defaults[k + 1..];
      if existing.None? {
        var _ := db.InsertAdmin(username, hash(password), displayName);
      }
      k := k + 1;
    }
  }

  /** A username found in some rows is found, with the same row, after more
      rows are appended. */
  lemma {:induction false} FindAdminExtend(rows: seq<AdminRow>, more: seq<AdminRow>, username: string)
    requires FindAdmin(rows, username).Some?
    ensures FindAdmin(rows + more, username) == FindAdmin(rows, username)
  {
    if rows[0].username != username {
      assert (rows + more)[1..] == rows[1..] + more;
      FindAdminExtend(rows[1..], more, username);
    }
  }

  /** Accounts are only ever appended: the existing rows stay as they are,
      no other table changes and the table keys still hold. */
  lemma {:induction false} EnsureAccountsAppends(t: Tables, accounts: seq<(string, string, string)>, hash: string -> string)
    ensures var r := EnsureAccounts(t, accounts, hash);
            && t.admins <= r.admins
            && r == t.(admins := r.admins)
            && (WellFormed(t) ==> WellFormed(r))
    decreases |accounts|
  {
    if accounts != [] {
      if WellFormed(t) {
        EnsureOneWellFormed(t, accounts[0], hash);
      }
      EnsureAccountsAppends(EnsureOne(t, accounts[0], hash), accounts[1..], hash);
    }
  }

  /** Afterwards every listed username exists. */
  lemma {:induction false} EnsureAccountsCovers(t: Tables, accounts: seq<(string, string, string)>, hash: string -> string)
    ensures forall i :: 0 <= i < |accounts| ==> AdminByUsername(EnsureAccounts(t, accounts, hash), accounts[i].0).Some?
    decreases |accounts|
  {
    if accounts != [] {
      var r := EnsureAccounts(t, accounts, hash);
      EnsureAccountsCoversFirst(t, accounts, hash);
      EnsureAccountsCovers(EnsureOne(t, accounts[0], hash), accounts[1..], hash);
      forall i | 0 < i < |accounts| ensures AdminByUsername(r, accounts[i].0).Some? {
        assert accounts[i] == accounts[1..][i - 1];
      }
    }
  }

  /** The first listed username exists afterwards: it is there after its
      own step, and later steps only append rows. */
  lemma EnsureAccountsCoversFirst(t: Tables, accounts: seq<(string, string, string)>, hash: string -> string)
    requires accounts != []
    ensures AdminByUsername(EnsureAccounts(t, accounts, hash), accounts[0].0).Some?
  {
    var t1 := EnsureOne(t, accounts[0], hash);
    EnsureAccountsAppends(t1, accounts[1..], hash);
    FoundInLonger(t1.admins, EnsureAccounts(t1, accounts[1..], hash).admins, accounts[0].0);
  }

  /** A username found in some rows is still found once rows are appended. */
  lemma FoundInLonger(rows: seq<AdminRow>, longer: seq<AdminRow>, username: string)
    requires rows <= longer && FindAdmin(rows, username).Some?
    ensures FindAdmin(longer, username).Some?
  {
    var i :| 0 <= i < |rows| && rows[i].username == username;
    assert longer[i] == rows[i];
  }

  /** When every listed username already exists nothing is inserted. */
  lemma {:induction false} EnsureAccountsPresent(t: Tables, accounts: seq<(string, string, string)>, hash: string -> string)
    requires forall i :: 0 <= i < |accounts| ==> AdminByUsername(t, accounts[i].0).Some?
    ensures EnsureAccounts(t, accounts, hash) == t
    decreases |accounts|
  {
    if accounts != [] {
      assert AdminByUsername(t, accounts[0].0).Some?;
      assert forall i :: 0 <= i < |accounts| - 1 ==> accounts[1..][i] == accounts[i + 1];
      EnsureAccountsPresent(t, accounts[1..], hash);
    }
  }

  /** After `ensure_default_admins` the three default usernames exist, the
      rows that were there are untouched, and a second call inserts nothing. */
  lemma EnsureDefaultsProperties(t: Tables, hash: string -> string)
    ensures var r := EnsureDefaults(t, hash);
            && AdminByUsername(r, "boss1").Some?
            && AdminByUsername(r, "boss2").Some?
            && AdminByUsername(r, "lingtong").Some?
            && t.admins <= r.admins
            && r == t.(admins := r.admins)
            && EnsureDefaults(r, hash) == r
  {
    EnsureAccountsAppends(t, Defaults, hash);
    EnsureAccountsCovers(t, Defaults, hash);
    var r := EnsureDefaults(t, hash);
    assert Defaults[0].0 == "boss1" && Defaults[1].0 == "boss2" && Defaults[2].0 == "lingtong";
    EnsureAccountsPresent(r, Defaults, hash);
  }

  /** The rows inserted for accounts none of which exists yet, numbered
      after the `n` rows already there. */
  function NewRows(n: int, accounts: seq<(string, string, string)>, hash: string -> string): (rows: seq<AdminRow>)
    ensures |rows| == |accounts|
    ensures forall i :: 0 <= i < |accounts| ==>
      rows[i] == AdminRow(n + i + 1, accounts[i].0, hash(accounts[i].1), Some(accounts[i].2))
  {
    seq(|accounts|, i requires 0 <= i < |accounts| => AdminRow(n + i + 1, accounts[i].0, hash(accounts[i].1), Some(accounts[i].2)))
  }

  /** Accounts with distinct usernames, none of them present, are all
      inserted, in order, with consecutive ids. */
  lemma {:induction false} EnsureAccountsFresh(t: Tables, accounts: seq<(string, string, string)>, hash: string -> string)
    requires forall i :: 0 <= i < |accounts| ==> AdminByUsername(t, accounts[i].0).None?
    requires forall i, j :: 0 <= i < j < |accounts| ==> accounts[i].0 != accounts[j].0
    ensures EnsureAccounts(t, accounts, hash) == t.(admins := t.admins + NewRows(|t.admins|, accounts, hash))
    decreases |accounts|
  {
    if accounts != [] {
      var t1 := EnsureOne(t, accounts[0], hash);
      FreshAfterOne(t, accounts, hash);
      EnsureAccountsFresh(t1, accounts[1..], hash);
      NewRowsUnfold(t.admins, accounts, hash);
    }
  }

  /** After the first account is inserted, the others are still absent and
      still distinct. */
  lemma FreshAfterOne(t: Tables, accounts: seq<(string, string, string)>, hash: string -> string)
    requires accounts != []
    requires forall i :: 0 <= i < |accounts| ==> AdminByUsername(t, accounts[i].0).None?
    requires forall i, j :: 0 <= i < j < |accounts| ==> accounts[i].0 != accounts[j].0
    ensures var t1, rest := EnsureOne(t, accounts[0], hash), accounts[1..];
            && (forall i :: 0 <= i < |rest| ==> AdminByUsername(t1, rest[i].0).None?)
            && (forall i, j :: 0 <= i < j < |rest| ==> rest[i].0 != rest[j].0)
  {
    var t1 := EnsureOne(t, accounts[0], hash);
    var rest := accounts[1..];
    assert t1.admins == t.admins + [t1.admins[|t.admins|]];
    forall i | 0 <= i < |rest| ensures AdminByUsername(t1, rest[i].0).None? {
      assert rest[i] == accounts[i + 1];
    }
    forall i, j | 0 <= i < j < |rest| ensures rest[i].0 != rest[j].0 {
      assert rest[i] == accounts[i + 1] && rest[j] == accounts[j + 1];
    }
  }

  /** The first new row, then the rows after it. */
  lemma NewRowsUnfold(rows: seq<AdminRow>, accounts: seq<(string, string, string)>, hash: string -> string)
    requires accounts != []
    ensures var row := AdminRow(|rows| + 1, accounts[0].0, hash(accounts[0].1), Some(accounts[0].2));
            (rows + [row]) + NewRows(|rows| + 1, accounts[1..], hash) == rows + NewRows(|rows|, accounts, hash)
  {
    var row := AdminRow(|rows| + 1, accounts[0].0, hash(accounts[0].1), Some(accounts[0].2));
    var later := NewRows(|rows| + 1, accounts[1..], hash);
    var all := NewRows(|rows|, accounts, hash);
    forall i | 0 <= i < |all| ensures all[i] == ([row] + later)[i] {
      if i > 0 {
        assert accounts[1..][i - 1] == accounts[i];
      }
    }
    assert all == [row] + later;
  }

  /** On an empty table the three accounts are created in order. */
  lemma DefaultsOnEmpty(hash: string -> string)
    ensures EnsureDefaults(Empty, hash).admins == [
      AdminRow(1, "boss1", hash("123456"), Some("boss1")),
      AdminRow(2, "boss2", hash("123456"), Some("boss2")),
      AdminRow(3, "lingtong", hash("gbhnjmkI23"), Some("Lingtong"))]
  {
    DefaultsDistinct();
    EnsureAccountsFresh(Empty, Defaults, hash);
    DefaultRows(hash);
    assert Empty.admins + NewRows(0, Defaults, hash) == NewRows(0, Defaults, hash);
  }

  /** The three default usernames differ. */
  lemma DefaultsDistinct()
    ensures forall i, j :: 0 <= i < j < |Defaults| ==> Defaults[i].0 != Defaults[j].0
  {
    assert Defaults[0].0 == "boss1" && Defaults[1].0 == "boss2" && Defaults[2].0 == "lingtong";
  }

  /** The rows made for the three default accounts from id 1 on. */
  lemma DefaultRows(hash: string -> string)
    ensures NewRows(0, Defaults, hash) == [
      AdminRow(1, "boss1", hash("123456"), Some("boss1")),
      AdminRow(2, "boss2", hash("123456"), Some("boss2")),
      AdminRow(3, "lingtong", hash("gbhnjmkI23"), Some("Lingtong"))]
  {
    var rows := NewRows(0, Defaults, hash);
    assert rows == [rows[0], rows[1], rows[2]];
  }

  /** When `verify` accepts every password against its own hash, each
      default account created on an empty table logs in with its default
      password. */
  lemma DefaultAccountsLogIn(hash: string -> string, verify: (string, string) -> bool)
    requires forall p :: verify(hash(p), p)
    ensures var r := EnsureDefaults(Empty, hash);
            && CheckPassword(r, "boss1", "123456", verify) == Some(AdminUser(1, "boss1", "boss1"))
            && CheckPassword(r, "boss2", "123456", verify) == Some(AdminUser(2, "boss2", "boss2"))
            && CheckPassword(r, "lingtong", "gbhnjmkI23", verify) == Some(AdminUser(3, "lingtong", "Lingtong"))
  {
    DefaultsOnEmpty(hash);
    DefaultRowsLogIn(EnsureDefaults(Empty, hash), hash, verify);
  }

  lemma DefaultRowsLogIn(t: Tables, hash: string -> string, verify: (string, string) -> bool)
    requires forall p :: verify(hash(p), p)
    requires t.admins == [
      AdminRow(1, "boss1", hash("123456"), Some("boss1")),
      AdminRow(2, "boss2", hash("123456"), Some("boss2")),
      AdminRow(3, "lingtong", hash("gbhnjmkI23"), Some("Lingtong"))]
    ensures CheckPassword(t, "boss1", "123456", verify) == Some(AdminUser(1, "boss1", "boss1"))
    ensures CheckPassword(t, "boss2", "123456", verify) == Some(AdminUser(2, "boss2", "boss2"))
    ensures CheckPassword(t, "lingtong", "gbhnjmkI23", verify) == Some(AdminUser(3, "lingtong", "Lingtong"))
  {
    assert verify(hash("123456"), "123456") && verify(hash("gbhnjmkI23"), "gbhnjmkI23");
    CheckPasswordRow(t, 0, "123456", verify);
    CheckPasswordRow(t, 1, "123456", verify);
    CheckPasswordRow(t, 2, "gbhnjmkI23", verify);
  }

  /** With unique usernames, a row's own username and a password its hash
      accepts log in as that row. */
  lemma CheckPasswordRow(t: Tables, i: int, password: string, verify: (string, string) -> bool)
    requires AdminsOk(t.admins) && 0 <= i < |t.admins|
    requires verify(t.admins[i].passwordHash, password)
    ensures CheckPassword(t, t.admins[i].username, password, verify) == Some(FromRow(t.admins[i]))
  {
    var r := FindAdmin(t.admins, t.admins[i].username);
    var j :| 0 <= j < |t.admins| && t.admins[j] == r.value;
  }
}
