/**
 * The Android app's SQLite database (dbConnector.java) as four tables, and each
 * public method of dbConnector as a transaction: a function from the tables before
 * the call to its result and the tables after it. The class DbHelper.DbConnector
 * carries out these transactions step by step and is proved to agree with them.
 */
module StoreTables {
  import opened Common

  /** A row of `users`. The `password` column holds a hash, never the plaintext. */
  datatype UserRow = UserRow(id: int, username: Text, password: Text, phone: Text, role: Text)

  /** A row of `goal`: `goal_value` carries CHECK(goal_value > 0), `target_date` is nullable. */
  datatype GoalRow = GoalRow(id: int, userId: int, goalValue: int, targetDate: Option<Text>)

  /** A row of `user_data`: a dated weight and a copy of the goal in effect when it was recorded. */
  datatype WeightRow = WeightRow(id: int, userId: int, date: Text, weight: int, goalValue: int)

  /** One element of the list `getUserWeightsWithTarget` returns: ((weight, goal_value), date). */
  datatype WeightPoint = WeightPoint(weight: int, target: int, date: Text)

  /**
   * The whole database. `session` is the `user_id` column of the session table. The
   * three counters are SQLite's AUTOINCREMENT sequences: the largest id handed out so far.
   */
  datatype Tables = Tables(
    users: seq<UserRow>,
    goals: seq<GoalRow>,
    entries: seq<WeightRow>,
    session: seq<int>,
    userSeq: int,
    goalSeq: int,
    entrySeq: int)

  /** The result of a transaction, paired with the tables after it. */
  datatype Step<R> = Step(result: R, tables: Tables)

  /** The database as `onCreate` leaves it: four empty tables. */
  function Fresh(): Tables {
    Tables([], [], [], [], 0, 0, 0)
  }

  /**
   * The bcrypt helpers of passUtils.java as an oracle: `hash(plaintext, salt)` and
   * `verify(plaintext, storedHash)`. The salt stands for the randomness bcrypt draws
   * on every call, so two hashes of one password may differ.
   */
  datatype Hasher = Hasher(hash: (Text, Text) -> Text, verify: (Text, Text) -> bool) {
    /** The one law assumed of the hash: a password verifies against any hash of itself. */
    ghost predicate Sound() {
      forall p, s :: verify(p, hash(p, s))
    }
  }

  // ---------------------------------------------------------------------------
  // Table constraints (onCreate) and the invariants every transaction keeps
  // ---------------------------------------------------------------------------

  /** `id INTEGER PRIMARY KEY AUTOINCREMENT` and `username TEXT NOT NULL UNIQUE`. */
  ghost predicate UsersValid(users: seq<UserRow>, userSeq: int) {
    && 0 <= userSeq
    && (forall i, j :: 0 <= i < j < |users| ==> users[i].id < users[j].id)
    && (forall i, j :: 0 <= i < j < |users| ==> users[i].username != users[j].username)
    && (forall i :: 0 <= i < |users| ==> 0 < users[i].id <= userSeq)
  }

  /** AUTOINCREMENT ids and `CHECK(goal_value > 0)`. */
  ghost predicate GoalsValid(goals: seq<GoalRow>, goalSeq: int) {
    && 0 <= goalSeq
    && (forall i, j :: 0 <= i < j < |goals| ==> goals[i].id < goals[j].id)
    && (forall i :: 0 <= i < |goals| ==> 0 < goals[i].id <= goalSeq && goals[i].goalValue > 0)
  }

  /** AUTOINCREMENT ids, `CHECK(weight > 0)`, and a snapshot taken from a valid goal. */
  ghost predicate EntriesValid(entries: seq<WeightRow>, entrySeq: int) {
    && 0 <= entrySeq
    && (forall i, j :: 0 <= i < j < |entries| ==> entries[i].id < entries[j].id)
    && (forall i :: 0 <= i < |entries| ==>
          0 < entries[i].id <= entrySeq && entries[i].weight > 0 && entries[i].goalValue > 0)
  }

  predicate IsUserId(users: seq<UserRow>, id: int) {
    exists i :: 0 <= i < |users| && users[i].id == id
  }

  /** At most one session row, and it names a registered user. */
  ghost predicate SessionValid(t: Tables) {
    && |t.session| <= 1
    && (forall k :: 0 <= k < |t.session| ==> IsUserId(t.users, t.session[k]))
  }

  ghost predicate Valid(t: Tables) {
    && UsersValid(t.users, t.userSeq)
    && GoalsValid(t.goals, t.goalSeq)
    && EntriesValid(t.entries, t.entrySeq)
    && SessionValid(t)
  }

  // ---------------------------------------------------------------------------
  // Queries
  // ---------------------------------------------------------------------------

  /** `SELECT ... FROM users WHERE username = ?`, first row. */
  function FindUser(users: seq<UserRow>, name: Text): (r: Option<UserRow>)
    ensures r.None? <==> forall i :: 0 <= i < |users| ==> users[i].username != name
    ensures r.Some? ==> r.value in users && r.value.username == name
  {
    if users == [] then None
    else if users[0].username == name then Some(users[0])
    else FindUser(users[1..], name)
  }

  predicate HasGoal(goals: seq<GoalRow>, u: int) {
    exists i :: 0 <= i < |goals| && goals[i].userId == u
  }

  /** `SELECT ... FROM goal WHERE user_id = ? ORDER BY id DESC LIMIT 1`. */
  function LatestGoal(goals: seq<GoalRow>, u: int): (r: Option<GoalRow>)
    ensures r.None? <==> !HasGoal(goals, u)
    ensures r.Some? ==> r.value in goals && r.value.userId == u
    ensures r.Some? ==> forall i :: 0 <= i < |goals| && goals[i].userId == u ==> goals[i].id <= r.value.id
  {
    if goals == [] then None
    else
      var rest := LatestGoal(goals[1..], u);
      if goals[0].userId != u then rest
      else if rest.Some? && rest.value.id > goals[0].id then rest
      else Some(goals[0])
  }

  /** getMostRecentGoalWeight: the latest goal's value, or -1 when the user has none. */
  function MostRecentGoalWeight(t: Tables, u: int): (g: int)
    ensures !HasGoal(t.goals, u) ==> g == -1
    ensures HasGoal(t.goals, u) ==> exists i :: (0 <= i < |t.goals| && t.goals[i].userId == u && t.goals[i].goalValue == g &&
      forall j :: 0 <= j < |t.goals| && t.goals[j].userId == u ==> t.goals[j].id <= t.goals[i].id)
  {
    match LatestGoal(t.goals, u)
    case None => -1
    case Some(g) => g.goalValue
  }

  /** getMostRecentTargetDate: the latest goal's target date; null when it has none or there is no goal. */
  function MostRecentTargetDate(t: Tables, u: int): (d: Option<Text>)
    ensures !HasGoal(t.goals, u) ==> d == None
    ensures HasGoal(t.goals, u) ==> exists i :: (0 <= i < |t.goals| && t.goals[i].userId == u && t.goals[i].targetDate == d &&
      forall j :: 0 <= j < |t.goals| && t.goals[j].userId == u ==> t.goals[j].id <= t.goals[i].id)
  {
    match LatestGoal(t.goals, u)
    case None => None
    case Some(g) => g.targetDate
  }

  /** getCurrentUserID: `SELECT user_id FROM session LIMIT 1`, or -1. */
  function CurrentUserId(t: Tables): (id: int)
    ensures t.session == [] ==> id == -1
    ensures t.session != [] ==> id in t.session
  {
    if |t.session| == 0 then -1 else t.session[0]
  }

  function PointOf(row: WeightRow): WeightPoint {
    WeightPoint(row.weight, row.goalValue, row.date)
  }

  /** getUserWeightsWithTarget: the user's rows of `user_data`, in table order. */
  function UserWeightsWithTarget(rows: seq<WeightRow>, u: int): (r: seq<WeightPoint>)
    ensures |r| <= |rows|
    ensures forall i :: 0 <= i < |rows| && rows[i].userId == u ==> PointOf(rows[i]) in r
    ensures forall p :: p in r ==> exists i :: 0 <= i < |rows| && rows[i].userId == u && PointOf(rows[i]) == p
  {
    if rows == [] then []
    else
      var rest := UserWeightsWithTarget(rows[1..], u);
      assert forall i :: 1 <= i < |rows| ==> rows[i] == rows[1..][i - 1];
      if rows[0].userId == u then [PointOf(rows[0])] + rest else rest
  }

  // ---------------------------------------------------------------------------
  // Transactions
  // ---------------------------------------------------------------------------

  /** The role-code table of registerUser: "537" is admin, "1237" is paid, anything else is user. */
  function RoleFor(code: Text): (role: Text)
    ensures role == "admin" <==> code == "537"
    ensures role == "paid" <==> code == "1237"
    ensures role == "user" <==> code != "537" && code != "1237"
  {
    if code == "537" then "admin" else if code == "1237" then "paid" else "user"
  }

  /** setCurrentUserId: clear the session table, then insert one row. */
  function SetSession(t: Tables, u: int): (r: Tables)
    ensures r.session == [u]
    ensures r.(session := t.session) == t
  {
    t.(session := [u])
  }

  /**
   * registerUser, as one transaction. `salt` is the hash's randomness; `insertFails`
   * stands for a storage fault on the INSERT (the only way it can fail once the
   * username is known to be free). -3: a null argument or a fault; -1: the name is taken.
   */
  function Register(h: Hasher, t: Tables, user: Option<Text>, pass: Option<Text>, phone: Option<Text>,
                    code: Option<Text>, salt: Text, insertFails: bool): (r: Step<int>)
    ensures r.result == 1 || r.result == -1 || r.result == -3
    ensures r.result != 1 ==> r.tables == t
    ensures r.result == -1 <==>
      user.Some? && pass.Some? && phone.Some? && code.Some? && FindUser(t.users, user.value).Some?
    ensures r.result == 1 <==>
      user.Some? && pass.Some? && phone.Some? && code.Some? && FindUser(t.users, user.value).None? && !insertFails
    ensures r.result == 1 ==>
      && r.tables.users == t.users + [UserRow(t.userSeq + 1, user.value, h.hash(pass.value, salt), phone.value, RoleFor(code.value))]
      && r.tables.goals == t.goals && r.tables.entries == t.entries
      && CurrentUserId(r.tables) == t.userSeq + 1 && |r.tables.session| == 1
  {
    if user.None? || pass.None? || phone.None? || code.None? then Step(-3, t)
    else if FindUser(t.users, user.value).Some? then Step(-1, t)
    else if insertFails then Step(-3, t)
    else
      var id := t.userSeq + 1;
      var row := UserRow(id, user.value, h.hash(pass.value, salt), phone.value, RoleFor(code.value));
      Step(1, SetSession(t.(users := t.users + [row], userSeq := id), id))
  }

  /** loginUser: -2 for a null argument, an unknown name or a wrong password; 1 sets the session. */
  function Login(h: Hasher, t: Tables, user: Option<Text>, pass: Option<Text>): (r: Step<int>)
    ensures r.result == 1 || r.result == -2
    ensures r.result == -2 ==> r.tables == t
    ensures r.result == 1 <==>
      user.Some? && pass.Some? && FindUser(t.users, user.value).Some?
      && h.verify(pass.value, FindUser(t.users, user.value).value.password)
    ensures r.result == 1 ==>
      && r.tables.session == [FindUser(t.users, user.value).value.id]
      && r.tables.(session := t.session) == t
  {
    if user.None? || pass.None? then Step(-2, t)
    else match FindUser(t.users, user.value)
      case None => Step(-2, t)
      case Some(row) =>
        if h.verify(pass.value, row.password) then Step(1, SetSession(t, row.id)) else Step(-2, t)
  }

  /**
   * setGoalWeight with the failure the documentation promises: a non-positive value
   * violates CHECK(goal_value > 0) and the call returns false. Otherwise a new goal
   * row is appended; earlier rows stay, and the newest one is "the" goal.
   */
  function SetGoal(t: Tables, u: int, v: int): (r: Step<bool>)
    ensures r.result <==> v > 0
    ensures !r.result ==> r.tables == t
    ensures r.result ==>
      && r.tables.goals == t.goals + [GoalRow(t.goalSeq + 1, u, v, None)]
      && r.tables.(goals := t.goals, goalSeq := t.goalSeq) == t
  {
    if v <= 0 then Step(false, t)
    else
      var id := t.goalSeq + 1;
      Step(true, t.(goals := t.goals + [GoalRow(id, u, v, None)], goalSeq := id))
  }

  /** How a call completes when the framework may throw: it returns a value or raises an exception. */
  datatype Completion<R> = Returned(value: R) | ConstraintException

  /**
   * setGoalWeight as written: `insertWithOnConflict(..., CONFLICT_REPLACE)`. Under
   * REPLACE a CHECK violation aborts the statement, and unlike `insert` this call
   * does not catch the resulting SQLiteConstraintException, so it reaches the caller.
   */
  function SetGoalAsWritten(t: Tables, u: int, v: int): (r: (Completion<bool>, Tables))
    ensures r.0.ConstraintException? <==> v <= 0
    ensures r.0.ConstraintException? ==> r.1 == t
    ensures v > 0 ==> r == (Returned(true), SetGoal(t, u, v).tables)
  {
    if v <= 0 then (ConstraintException, t)
    else
      var id := t.goalSeq + 1;
      (Returned(true), t.(goals := t.goals + [GoalRow(id, u, v, None)], goalSeq := id))
  }

  /**
   * The discrepancy: for the goal 0 that TrackingFragment passes on when the user
   * types "0", the code as written raises instead of returning the documented false.
   */
  lemma ZeroGoalRaises(t: Tables, u: int)
    ensures SetGoalAsWritten(t, u, 0).0 == ConstraintException
    ensures SetGoal(t, u, 0) == Step(false, t)
  {
  }

  /**
   * addDailyWeight: false with no row when the user has no goal (the -1 sentinel) or
   * when the weight violates CHECK(weight > 0); otherwise one row that copies the
   * current goal value.
   */
  function AddWeight(t: Tables, u: int, w: int, date: Text): (r: Step<bool>)
    ensures r.result <==> MostRecentGoalWeight(t, u) != -1 && w > 0
    ensures !r.result ==> r.tables == t
    ensures r.result ==>
      && r.tables.entries == t.entries + [WeightRow(t.entrySeq + 1, u, date, w, MostRecentGoalWeight(t, u))]
      && r.tables.(entries := t.entries, entrySeq := t.entrySeq) == t
  {
    var goal := MostRecentGoalWeight(t, u);
    if goal == -1 then Step(false, t)
    else if w <= 0 then Step(false, t)
    else
      var id := t.entrySeq + 1;
      Step(true, t.(entries := t.entries + [WeightRow(id, u, date, w, goal)], entrySeq := id))
  }

  /** The WHERE clause of deleteWeightEntry. */
  predicate Matches(row: WeightRow, u: int, w: int, g: int, d: Text) {
    row.userId == u && row.weight == w && row.goalValue == g && row.date == d
  }

  /** `DELETE FROM user_data WHERE user_id = ? AND weight = ? AND goal_value = ? AND date = ?`. */
  function RemoveMatching(rows: seq<WeightRow>, u: int, w: int, g: int, d: Text): (r: seq<WeightRow>)
    ensures |r| <= |rows|
    ensures forall x :: x in r <==> x in rows && !Matches(x, u, w, g, d)
    ensures (forall i :: 0 <= i < |rows| ==> !Matches(rows[i], u, w, g, d)) ==> r == rows
  {
    if rows == [] then []
    else
      var rest := RemoveMatching(rows[1..], u, w, g, d);
      assert forall x :: x in rows <==> x == rows[0] || x in rows[1..];
      if Matches(rows[0], u, w, g, d) then rest else [rows[0]] + rest
  }

  /** deleteWeightEntry. */
  function DeleteEntry(t: Tables, u: int, w: int, g: int, d: Text): (r: Tables)
    ensures r.(entries := t.entries) == t
    ensures forall x :: x in r.entries <==> x in t.entries && !Matches(x, u, w, g, d)
  {
    t.(entries := RemoveMatching(t.entries, u, w, g, d))
  }

  /**
   * setTargetDate: `UPDATE goal SET target_date = ? WHERE user_id = ?` touches every
   * goal row of the user, not only the latest; true when at least one row changed.
   */
  function SetTargetDate(t: Tables, u: int, d: Option<Text>): (r: Step<bool>)
    ensures r.result <==> HasGoal(t.goals, u)
    ensures !r.result ==> r.tables == t
    ensures r.tables.(goals := t.goals) == t && |r.tables.goals| == |t.goals|
    ensures forall i :: 0 <= i < |t.goals| ==>
      && r.tables.goals[i].(targetDate := t.goals[i].targetDate) == t.goals[i]
      && r.tables.goals[i].targetDate == (if t.goals[i].userId == u then d else t.goals[i].targetDate)
  {
    if !HasGoal(t.goals, u) then Step(false, t)
    else
      var goals := seq(|t.goals|, i requires 0 <= i < |t.goals| =>
        if t.goals[i].userId == u then t.goals[i].(targetDate := d) else t.goals[i]);
      Step(true, t.(goals := goals))
  }

  /** updatePassword: store a new hash on the row with that id; true when a row changed. */
  function UpdatePassword(h: Hasher, t: Tables, u: int, p: Text, salt: Text): (r: Step<bool>)
    ensures r.result <==> IsUserId(t.users, u)
    ensures !r.result ==> r.tables == t
    ensures r.tables.(users := t.users) == t && |r.tables.users| == |t.users|
    ensures forall i :: 0 <= i < |t.users| ==>
      && r.tables.users[i].(password := t.users[i].password) == t.users[i]
      && r.tables.users[i].password == (if t.users[i].id == u then h.hash(p, salt) else t.users[i].password)
  {
    if !IsUserId(t.users, u) then Step(false, t)
    else
      var hashed := h.hash(p, salt);
      var users := seq(|t.users|, i requires 0 <= i < |t.users| =>
        if t.users[i].id == u then t.users[i].(password := hashed) else t.users[i]);
      Step(true, t.(users := users))
  }
}
