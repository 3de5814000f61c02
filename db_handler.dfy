/**
 * The console application's data layer (DbHandler.cpp): the Users and Clients tables
 * of investment_company.db, the process-wide map of failed logins per username with
 * its lock after three failures, user creation, paged user listing and the service
 * choice update. Money columns and interest are not part of this model.
 */
module DbHandler {
  import opened Common
  import PassUtils

  /** maxAttempts: failures after which a username is locked for the life of the process. */
  const MaxAttempts := 3

  /** The ServiceChoice enum. */
  const Brokerage := 1
  const Retirement := 2

  predicate IsServiceChoice(choice: int) {
    choice == Brokerage || choice == Retirement
  }

  /** A row of Users. `hashedPassword` is PBKDF2 in hexadecimal, under `salt`. */
  datatype UserRecord = UserRecord(userId: int, name: Text, hashedPassword: Text, salt: Text, userGroup: Text)

  /** The User struct ListUsers fills: a row of Users without its credentials. */
  datatype User = User(userId: int, name: Text, userGroup: Text)

  /** A row of Clients, without cash_balance. */
  datatype ClientRecord = ClientRecord(clientId: int, name: Text, serviceChoice: int, lastUpdateDate: Option<Text>, userId: int)

  // ---------------------------------------------------------------------------
  // Lookups
  // ---------------------------------------------------------------------------

  /** `SELECT ... FROM Users WHERE name = ?`, first row. */
  function FindByName(users: seq<UserRecord>, name: Text): (r: Option<UserRecord>)
    ensures r.None? <==> forall i :: 0 <= i < |users| ==> users[i].name != name
    ensures r.Some? ==> r.value in users && r.value.name == name
  {
    if users == [] then None
    else if users[0].name == name then Some(users[0])
    else FindByName(users[1..], name)
  }

  predicate HasName(users: seq<UserRecord>, name: Text) {
    exists i :: 0 <= i < |users| && users[i].name == name
  }

  /** `loginAttempts[user]` as read: a name never seen counts as 0. */
  function Attempts(m: map<Text, int>, name: Text): int {
    if name in m then m[name] else 0
  }

  /** The stored credentials of `name` accept `pass`. */
  predicate PasswordMatches(derive: PassUtils.KeyDerivation, users: seq<UserRecord>, name: Text, pass: Text) {
    var row := FindByName(users, name);
    row.Some? && PassUtils.VerifyPasswordPBKDF2(derive, pass, row.value.salt, row.value.hashedPassword)
  }

  // ---------------------------------------------------------------------------
  // The login counter
  // ---------------------------------------------------------------------------

  /**
   * The decision CheckUserPermissionAccess makes and what it does to loginAttempts:
   * a locked name is refused untouched; otherwise success resets its counter to 0 and
   * any failure, an unknown name included, adds one. Other names are not affected.
   */
  function Authenticate(derive: PassUtils.KeyDerivation, users: seq<UserRecord>, m: map<Text, int>,
                        name: Text, pass: Text): (r: (bool, map<Text, int>))
    ensures r.0 <==> Attempts(m, name) < MaxAttempts && PasswordMatches(derive, users, name, pass)
    ensures Attempts(m, name) >= MaxAttempts ==> r.1 == m
    ensures Attempts(m, name) < MaxAttempts ==> Attempts(r.1, name) == if r.0 then 0 else Attempts(m, name) + 1
    ensures forall n :: n != name ==> Attempts(r.1, n) == Attempts(m, n)
  {
    if Attempts(m, name) >= MaxAttempts then (false, m)
    else if PasswordMatches(derive, users, name, pass) then (true, m[name := 0])
    else (false, m[name := Attempts(m, name) + 1])
  }

  /** A run of login attempts (name, password) against fixed tables: each one's result, and the final counters. */
  function AuthenticateAll(derive: PassUtils.KeyDerivation, users: seq<UserRecord>, m: map<Text, int>,
                           tries: seq<(Text, Text)>): (r: (seq<bool>, map<Text, int>))
    ensures |r.0| == |tries|
    decreases |tries|
  {
    if tries == [] then ([], m)
    else
      var first := Authenticate(derive, users, m, tries[0].0, tries[0].1);
      var rest := AuthenticateAll(derive, users, first.1, tries[1..]);
      ([first.0] + rest.0, rest.1)
  }

  /**
   * The lock is permanent: once a name has MaxAttempts failures, every later attempt
   * for it fails, the right password included, and its counter never drops.
   */
  lemma {:induction false} LockIsPermanent(derive: PassUtils.KeyDerivation, users: seq<UserRecord>,
                                           m: map<Text, int>, tries: seq<(Text, Text)>, name: Text)
    requires Attempts(m, name) >= MaxAttempts
    ensures var r := AuthenticateAll(derive, users, m, tries);
      && Attempts(r.1, name) == Attempts(m, name)
      && forall k :: 0 <= k < |tries| && tries[k].0 == name ==> !r.0[k]
    decreases |tries|
  {
    if tries != [] {
      var first := Authenticate(derive, users, m, tries[0].0, tries[0].1);
      LockIsPermanent(derive, users, first.1, tries[1..], name);
      var rest := AuthenticateAll(derive, users, first.1, tries[1..]);
      assert forall k :: 1 <= k < |tries| ==> tries[1..][k - 1] == tries[k];
      assert forall k :: 1 <= k < |tries| ==> ([first.0] + rest.0)[k] == rest.0[k - 1];
    }
  }

  /**
   * Failures count up one at a time until the lock: starting below the limit, k failed
   * attempts for a name leave its counter at the smaller of the old count plus k and
   * MaxAttempts.
   */
  lemma {:induction false} FailuresLock(derive: PassUtils.KeyDerivation, users: seq<UserRecord>,
                                        m: map<Text, int>, tries: seq<(Text, Text)>, name: Text)
    requires 0 <= Attempts(m, name) <= MaxAttempts
    requires forall k :: 0 <= k < |tries| ==> tries[k].0 == name && !PasswordMatches(derive, users, name, tries[k].1)
    ensures var r := AuthenticateAll(derive, users, m, tries);
      Attempts(r.1, name) == if Attempts(m, name) + |tries| <= MaxAttempts then Attempts(m, name) + |tries| else MaxAttempts
    decreases |tries|
  {
    if tries != [] {
      var first := Authenticate(derive, users, m, tries[0].0, tries[0].1);
      assert forall k :: 0 <= k < |tries[1..]| ==> tries[1..][k] == tries[k + 1];
      FailuresLock(derive, users, first.1, tries[1..], name);
    }
  }

  // ---------------------------------------------------------------------------
  // Paging
  // ---------------------------------------------------------------------------

  /**
   * `LIMIT limit OFFSET offset` over rows already in order, as SQLite reads the two
   * values: a negative limit means no limit and a negative offset counts as 0.
   */
  function Window<T>(rows: seq<T>, limit: int, offset: int): (r: seq<T>)
    ensures |r| <= |rows|
    ensures 0 <= limit ==> |r| <= limit
    ensures 0 <= offset && 0 <= limit && offset + limit <= |rows| ==> r == rows[offset..offset + limit]
    ensures 0 <= offset < |rows| && 0 <= limit && offset + limit > |rows| ==> r == rows[offset..]
    ensures offset < 0 && 0 <= limit ==> r == rows[..if limit > |rows| then |rows| else limit]
    ensures offset >= |rows| ==> r == []
    ensures limit < 0 ==> r == rows[if offset < 0 then 0 else if offset > |rows| then |rows| else offset..]
  {
    var start := if offset < 0 then 0 else if offset > |rows| then |rows| else offset;
    var end := if limit < 0 || start + limit > |rows| then |rows| else start + limit;
    rows[start..end]
  }

  /** Two adjacent windows from the start read as one. */
  lemma WindowSplit<T>(rows: seq<T>, a: nat, b: nat)
    ensures Window(rows, a, 0) + Window(rows, b, a) == Window(rows, a + b, 0)
  {
    if a >= |rows| {
      assert Window(rows, b, a) == [];
    } else if a + b <= |rows| {
      assert rows[..a + b] == rows[..a] + rows[a..a + b];
    } else {
      assert rows == rows[..a] + rows[a..];
    }
  }

  /** Consecutive pages of one size, read in turn, give the rows in order with nothing skipped or repeated. */
  lemma {:induction false} PagesTile<T>(rows: seq<T>, size: nat, pages: nat)
    ensures Pages(rows, size, pages) == Window(rows, size * pages, 0)
  {
    if pages > 0 {
      PagesTile(rows, size, pages - 1);
      var o := size * (pages - 1);
      assert size * pages == o + size;
      WindowSplit(rows, o, size);
    }
  }

  /** Pages 1 to n of a listing with `size` rows per page, each read with the offset ListUsers computes. */
  function Pages<T>(rows: seq<T>, size: nat, pages: nat): seq<T> {
    if pages == 0 then [] else Pages(rows, size, pages - 1) + Window(rows, size, size * (pages - 1))
  }

  function AsUser(row: UserRecord): User {
    User(row.userId, row.name, row.userGroup)
  }

  // ---------------------------------------------------------------------------
  // The handler's state
  // ---------------------------------------------------------------------------

  /**
   * What DbHandler's functions act on: the Users and Clients tables and the
   * process-wide loginAttempts map. `derive` is PBKDF2 as PassUtils uses it.
   */
  class Handler {
    var users: seq<UserRecord>
    var userSeq: int
    var clients: seq<ClientRecord>
    var loginAttempts: map<Text, int>
    const derive: PassUtils.KeyDerivation

    /** user_id is AUTOINCREMENT and ascending in table order; name is UNIQUE; counters are never negative. */
    ghost predicate Valid()
      reads this
    {
      && 0 <= userSeq
      && (forall i, j :: 0 <= i < j < |users| ==> users[i].userId < users[j].userId)
      && (forall i, j :: 0 <= i < j < |users| ==> users[i].name != users[j].name)
      && (forall i :: 0 <= i < |users| ==> 0 < users[i].userId <= userSeq)
      && (forall n :: n in loginAttempts ==> loginAttempts[n] >= 0)
    }

    /** A new database file: both tables empty, no failures recorded. */
    constructor (derive: PassUtils.KeyDerivation)
      ensures Valid() && this.derive == derive
      ensures users == [] && clients == [] && loginAttempts == map[]
    {
      users, userSeq, clients, loginAttempts := [], 0, [], map[];
      this.derive := derive;
    }

    /**
     * The default-admin part of initializeDatabase: when no user is named "admin",
     * insert one whose password is "admin", hashed under a fresh salt from `pool`.
     */
    method InitializeDatabase(pool: seq<PassUtils.Byte>)
      requires Valid() && |pool| >= PassUtils.SaltSize
      modifies this`users, this`userSeq
      ensures Valid()
      ensures HasName(users, "admin")
      ensures old(HasName(users, "admin")) ==> users == old(users) && userSeq == old(userSeq)
      ensures !old(HasName(users, "admin")) ==>
        var salt := PassUtils.GenerateSalt(pool);
        users == old(users) + [UserRecord(old(userSeq) + 1, "admin", PassUtils.HashPasswordPBKDF2(derive, "admin", salt), salt, "admin")]
      ensures PasswordMatches(derive, users, "admin", "admin") || old(HasName(users, "admin"))
    {
      if FindByName(users, "admin").None? {
        var salt := PassUtils.GenerateSalt(pool);
        var hashed := PassUtils.HashPasswordPBKDF2(derive, "admin", salt);
        var id := userSeq + 1;
        users := users + [UserRecord(id, "admin", hashed, salt, "admin")];
        userSeq := id;
        AppendedIsFound(old(users), users[|users| - 1]);
      }
    }

    /**
     * CheckUserPermissionAccess. `userId` and `userGroup` are the caller's variables,
     * passed by reference: they take the row's values whenever the name is found,
     * whether or not the password is right, and keep the caller's values otherwise.
     */
    method CheckUserPermissionAccess(user: Text, pass: Text, userIdIn: int, userGroupIn: Text)
      returns (ok: bool, userId: int, userGroup: Text)
      requires Valid()
      modifies this`loginAttempts
      ensures Valid()
      ensures (ok, loginAttempts) == Authenticate(derive, users, old(loginAttempts), user, pass)
      ensures Attempts(old(loginAttempts), user) < MaxAttempts && FindByName(users, user).Some? ==>
        userId == FindByName(users, user).value.userId && userGroup == FindByName(users, user).value.userGroup
      ensures Attempts(old(loginAttempts), user) >= MaxAttempts || FindByName(users, user).None? ==>
        userId == userIdIn && userGroup == userGroupIn
    {
      userId, userGroup := userIdIn, userGroupIn;
      if Attempts(loginAttempts, user) >= MaxAttempts {
        return false, userId, userGroup;
      }
      var row := FindByName(users, user);
      if row.Some? {
        userId := row.value.userId;
        userGroup := row.value.userGroup;
        if PassUtils.VerifyPasswordPBKDF2(derive, pass, row.value.salt, row.value.hashedPassword) {
          loginAttempts := loginAttempts[user := 0];
          return true, userId, userGroup;
        }
      }
      loginAttempts := loginAttempts[user := Attempts(loginAttempts, user) + 1];
      ok := false;
    }

    /**
     * AddNewUser: nothing happens when the name is taken; otherwise one row with a
     * fresh salt from `pool` and the password hashed under it, after which that
     * password is accepted for the name.
     */
    method AddNewUser(username: Text, password: Text, userGroup: Text, pool: seq<PassUtils.Byte>)
      requires Valid() && |pool| >= PassUtils.SaltSize
      modifies this`users, this`userSeq
      ensures Valid()
      ensures old(HasName(users, username)) ==> users == old(users) && userSeq == old(userSeq)
      ensures !old(HasName(users, username)) ==>
        var salt := PassUtils.GenerateSalt(pool);
        users == old(users) + [UserRecord(old(userSeq) + 1, username, PassUtils.HashPasswordPBKDF2(derive, password, salt), salt, userGroup)]
      ensures !old(HasName(users, username)) ==> PasswordMatches(derive, users, username, password)
    {
      if FindByName(users, username).Some? {
        return;
      }
      var salt := PassUtils.GenerateSalt(pool);
      var hashed := PassUtils.HashPasswordPBKDF2(derive, password, salt);
      var id := userSeq + 1;
      users := users + [UserRecord(id, username, hashed, salt, userGroup)];
      userSeq := id;
      AppendedIsFound(old(users), users[|users| - 1]);
      PassUtils.HashThenVerify(derive, password, salt);
    }

    /**
     * ListUsers: page `page` of `pageSize` users in user_id order, pushed onto the
     * caller's vector `usersIn`; false exactly when that vector is still empty.
     */
    method ListUsers(page: int, pageSize: int, usersIn: seq<User>) returns (ok: bool, usersOut: seq<User>)
      requires Valid()
      ensures var w := Window(users, pageSize, (page - 1) * pageSize);
        && |usersOut| == |usersIn| + |w|
        && usersOut[..|usersIn|] == usersIn
        && forall i :: 0 <= i < |w| ==> usersOut[|usersIn| + i] == AsUser(w[i])
      ensures ok <==> |usersOut| > 0
    {
      var offset := (page - 1) * pageSize;
      var rows := Window(users, pageSize, offset);
      usersOut := usersIn;
      var i := 0;
      while i < |rows|
        invariant 0 <= i <= |rows|
        invariant |usersOut| == |usersIn| + i
        invariant usersOut[..|usersIn|] == usersIn
        invariant forall k :: 0 <= k < i ==> usersOut[|usersIn| + k] == AsUser(rows[k])
      {
        usersOut := usersOut + [AsUser(rows[i])];
        i := i + 1;
      }
      ok := |usersOut| > 0;
    }

    /**
     * ChangeClientServiceChoice: a value outside the enum is refused before storage
     * is touched; otherwise the client's row takes the new choice and `today` as its
     * last update. True whenever the value is accepted, even if no row has that id.
     */
    method ChangeClientServiceChoice(clientId: int, choice: int, today: Text) returns (ok: bool)
      modifies this`clients
      ensures ok <==> IsServiceChoice(choice)
      ensures !ok ==> clients == old(clients)
      ensures |clients| == |old(clients)|
      ensures ok ==> forall i :: 0 <= i < |clients| ==>
        clients[i] == if old(clients)[i].clientId == clientId
                      then old(clients)[i].(serviceChoice := choice, lastUpdateDate := Some(today))
                      else old(clients)[i]
      ensures (forall i :: 0 <= i < |old(clients)| ==> IsServiceChoice(old(clients)[i].serviceChoice)) ==>
        forall i :: 0 <= i < |clients| ==> IsServiceChoice(clients[i].serviceChoice)
    {
      if !IsServiceChoice(choice) {
        return false;
      }
      clients := seq(|clients|, i requires 0 <= i < |clients| reads this =>
        if clients[i].clientId == clientId then clients[i].(serviceChoice := choice, lastUpdateDate := Some(today))
        else clients[i]);
      ok := true;
    }
  }

  /** A row appended under a name no earlier row has is the one a lookup of that name finds. */
  lemma {:induction false} AppendedIsFound(users: seq<UserRecord>, row: UserRecord)
    requires forall i :: 0 <= i < |users| ==> users[i].name != row.name
    ensures FindByName(users + [row], row.name) == Some(row)
  {
    if users == [] {
      assert users + [row] == [row];
    } else {
      assert (users + [row])[1..] == users[1..] + [row];
      AppendedIsFound(users[1..], row);
    }
  }
}
