/**
 * What the transactions of dbConnector guarantee, alone and in sequence: the table
 * constraints are invariants, sessions hold at most one row, a registered account can
 * log in, goals are append-only with the newest winning, weight entries freeze the goal
 * they were recorded under, and deletes remove exactly the matching tuples.
 */
module StoreProperties {
  import opened Common
  import opened StoreTables

  // ---------------------------------------------------------------------------
  // Sequences of calls
  // ---------------------------------------------------------------------------

  /** One public call on the store, with the oracle values it consumes. */
  datatype Op =
    | RegisterOp(user: Option<Text>, pass: Option<Text>, phone: Option<Text>, code: Option<Text>,
                 salt: Text, insertFails: bool)
    | LoginOp(loginUser: Option<Text>, loginPass: Option<Text>)
    | SetGoalOp(userId: int, goal: int)
    | AddWeightOp(userId: int, weight: int, date: Text)
    | DeleteOp(userId: int, weight: int, target: int, date: Text)
    | SetTargetDateOp(userId: int, targetDate: Option<Text>)
    | UpdatePasswordOp(userId: int, newPass: Text, newSalt: Text)

  function Apply(h: Hasher, t: Tables, op: Op): Tables {
    match op
    case RegisterOp(user, pass, phone, code, salt, fails) => Register(h, t, user, pass, phone, code, salt, fails).tables
    case LoginOp(user, pass) => Login(h, t, user, pass).tables
    case SetGoalOp(u, v) => SetGoal(t, u, v).tables
    case AddWeightOp(u, w, d) => AddWeight(t, u, w, d).tables
    case DeleteOp(u, w, g, d) => DeleteEntry(t, u, w, g, d)
    case SetTargetDateOp(u, d) => SetTargetDate(t, u, d).tables
    case UpdatePasswordOp(u, p, s) => UpdatePassword(h, t, u, p, s).tables
  }

  function Run(h: Hasher, t: Tables, ops: seq<Op>): Tables
    decreases |ops|
  {
    if ops == [] then t else Run(h, Apply(h, t, ops[0]), ops[1..])
  }

  // ---------------------------------------------------------------------------
  // The constraints are invariants
  // ---------------------------------------------------------------------------

  lemma FreshIsValid()
    ensures Valid(Fresh())
  {
  }

  /** Pointing the session at a registered user keeps the constraints. */
  lemma SetSessionPreservesValid(t: Tables, u: int)
    requires Valid(t) && IsUserId(t.users, u)
    ensures Valid(SetSession(t, u))
  {
  }

  lemma RegisterPreservesValid(h: Hasher, t: Tables, user: Option<Text>, pass: Option<Text>,
                               phone: Option<Text>, code: Option<Text>, salt: Text, fails: bool)
    requires Valid(t)
    ensures Valid(Register(h, t, user, pass, phone, code, salt, fails).tables)
  {
    var r := Register(h, t, user, pass, phone, code, salt, fails);
    if r.result == 1 {
      var n := |t.users|;
      var users := r.tables.users;
      var row := users[n];
      assert row.id == t.userSeq + 1 && row.username == user.value;
      assert forall i :: 0 <= i < n ==> users[i] == t.users[i];
      assert forall i :: 0 <= i < n ==> users[i].username != row.username && users[i].id < row.id;
      assert UsersValid(users, r.tables.userSeq);
      assert IsUserId(users, row.id);
      assert r.tables.session == [row.id];
      assert SessionValid(r.tables);
    }
  }

  lemma LoginPreservesValid(h: Hasher, t: Tables, user: Option<Text>, pass: Option<Text>)
    requires Valid(t)
    ensures Valid(Login(h, t, user, pass).tables)
  {
    var r := Login(h, t, user, pass);
    if r.result == 1 {
      var row := FindUser(t.users, user.value).value;
      var i :| 0 <= i < |t.users| && t.users[i] == row;
      assert IsUserId(t.users, row.id);
    }
  }

  lemma UpdatePasswordPreservesValid(h: Hasher, t: Tables, u: int, p: Text, salt: Text)
    requires Valid(t)
    ensures Valid(UpdatePassword(h, t, u, p, salt).tables)
  {
    var t' := UpdatePassword(h, t, u, p, salt).tables;
    forall k | 0 <= k < |t'.session|
      ensures IsUserId(t'.users, t'.session[k])
    {
      var i :| 0 <= i < |t.users| && t.users[i].id == t.session[k];
      assert t'.users[i].id == t.users[i].id;
    }
  }

  lemma ApplyPreservesValid(h: Hasher, t: Tables, op: Op)
    requires Valid(t)
    ensures Valid(Apply(h, t, op))
  {
    match op
    case RegisterOp(user, pass, phone, code, salt, fails) =>
      RegisterPreservesValid(h, t, user, pass, phone, code, salt, fails);
    case LoginOp(user, pass) =>
      LoginPreservesValid(h, t, user, pass);
    case UpdatePasswordOp(u, p, s) =>
      UpdatePasswordPreservesValid(h, t, u, p, s);
    case SetGoalOp(u, v) =>
      SetGoalPreservesValid(t, u, v);
    case AddWeightOp(u, w, d) =>
      AddWeightPreservesValid(t, u, w, d);
    case DeleteOp(u, w, g, d) =>
      DeletePreservesValid(t, u, w, g, d);
    case SetTargetDateOp(u, d) =>
  }

  lemma SetGoalPreservesValid(t: Tables, u: int, v: int)
    requires Valid(t)
    ensures Valid(SetGoal(t, u, v).tables)
  {
    var r := SetGoal(t, u, v);
    if r.result {
      var goals := r.tables.goals;
      assert forall i :: 0 <= i < |t.goals| ==> goals[i] == t.goals[i] && goals[i].id < goals[|t.goals|].id;
    }
  }

  lemma AddWeightPreservesValid(t: Tables, u: int, w: int, d: Text)
    requires Valid(t)
    ensures Valid(AddWeight(t, u, w, d).tables)
  {
    var r := AddWeight(t, u, w, d);
    if r.result {
      MostRecentGoalWeightMeaning(t, u);
      var entries := r.tables.entries;
      assert forall i :: 0 <= i < |t.entries| ==> entries[i] == t.entries[i] && entries[i].id < entries[|t.entries|].id;
      assert EntriesValid(entries, r.tables.entrySeq);
    }
  }

  lemma DeletePreservesValid(t: Tables, u: int, w: int, g: int, d: Text)
    requires Valid(t)
    ensures Valid(DeleteEntry(t, u, w, g, d))
  {
    var rows := RemoveMatching(t.entries, u, w, g, d);
    assert IdsIncrease(t.entries);
    RemoveMatchingKeepsOrder(t.entries, u, w, g, d);
    forall i | 0 <= i < |rows|
      ensures 0 < rows[i].id <= t.entrySeq && rows[i].weight > 0 && rows[i].goalValue > 0
    {
      assert rows[i] in t.entries;
    }
    assert EntriesValid(rows, t.entrySeq);
  }

  /** Row ids of `user_data` in strictly increasing table order. */
  ghost predicate IdsIncrease(rows: seq<WeightRow>) {
    forall i, j :: 0 <= i < j < |rows| ==> rows[i].id < rows[j].id
  }

  /** Deleting keeps the surviving rows in their table order, so ids stay increasing. */
  lemma {:induction false} RemoveMatchingKeepsOrder(rows: seq<WeightRow>, u: int, w: int, g: int, d: Text)
    requires IdsIncrease(rows)
    ensures IdsIncrease(RemoveMatching(rows, u, w, g, d))
  {
    if rows != [] {
      var tail := rows[1..];
      assert IdsIncrease(tail) by {
        forall i, j | 0 <= i < j < |tail|
          ensures tail[i].id < tail[j].id
        {
          assert tail[i] == rows[i + 1] && tail[j] == rows[j + 1];
        }
      }
      RemoveMatchingKeepsOrder(tail, u, w, g, d);
      var rest := RemoveMatching(tail, u, w, g, d);
      if !Matches(rows[0], u, w, g, d) {
        HeadBelowRest(rows);
        PrependKeepsIncrease(rows[0], rest);
        assert RemoveMatching(rows, u, w, g, d) == [rows[0]] + rest;
      } else {
        assert RemoveMatching(rows, u, w, g, d) == rest;
      }
    }
  }

  /** The first row's id is below the id of every later row. */
  lemma HeadBelowRest(rows: seq<WeightRow>)
    requires IdsIncrease(rows) && rows != []
    ensures forall x | x in rows[1..] :: rows[0].id < x.id
  {
    forall x | x in rows[1..]
      ensures rows[0].id < x.id
    {
      var k :| 0 <= k < |rows[1..]| && rows[1..][k] == x;
      assert rows[k + 1] == x;
    }
  }

  /** A row whose id is below all ids of an increasing sequence may be put in front of it. */
  lemma PrependKeepsIncrease(x: WeightRow, rest: seq<WeightRow>)
    requires IdsIncrease(rest)
    requires forall y | y in rest :: x.id < y.id
    ensures IdsIncrease([x] + rest)
  {
    var r := [x] + rest;
    forall i, j | 0 <= i < j < |r|
      ensures r[i].id < r[j].id
    {
      assert r[j] == rest[j - 1];
      if i > 0 {
        assert r[i] == rest[i - 1];
      }
    }
  }

  /** Every reachable state satisfies the table constraints, whatever calls were made. */
  lemma {:induction false} RunPreservesValid(h: Hasher, t: Tables, ops: seq<Op>)
    requires Valid(t)
    ensures Valid(Run(h, t, ops))
    decreases |ops|
  {
    if ops != [] {
      ApplyPreservesValid(h, t, ops[0]);
      RunPreservesValid(h, Apply(h, t, ops[0]), ops[1..]);
    }
  }

  /**
   * From a freshly created database, after any sequence of calls, the session table
   * holds at most one row, and getCurrentUserID is -1 exactly when it holds none.
   */
  lemma SessionHasAtMostOneRow(h: Hasher, ops: seq<Op>)
    ensures |Run(h, Fresh(), ops).session| <= 1
    ensures CurrentUserId(Run(h, Fresh(), ops)) == -1 <==> |Run(h, Fresh(), ops).session| == 0
  {
    RunPreservesValid(h, Fresh(), ops);
    var t := Run(h, Fresh(), ops);
    if |t.session| == 1 {
      var i :| 0 <= i < |t.users| && t.users[i].id == t.session[0];
    }
  }

  // ---------------------------------------------------------------------------
  // Accounts and sessions
  // ---------------------------------------------------------------------------

  /** A successful registration can log in at once with the same credentials, as the same id. */
  lemma RegisterThenLogin(h: Hasher, t: Tables, user: Text, pass: Text, phone: Text, code: Text,
                          salt: Text, fails: bool)
    requires h.Sound()
    requires Register(h, t, Some(user), Some(pass), Some(phone), Some(code), salt, fails).result == 1
    ensures var t1 := Register(h, t, Some(user), Some(pass), Some(phone), Some(code), salt, fails).tables;
      && Login(h, t1, Some(user), Some(pass)).result == 1
      && CurrentUserId(Login(h, t1, Some(user), Some(pass)).tables) == t.userSeq + 1
  {
    var t1 := Register(h, t, Some(user), Some(pass), Some(phone), Some(code), salt, fails).tables;
    FindUserAppended(t.users, UserRow(t.userSeq + 1, user, h.hash(pass, salt), phone, RoleFor(code)));
  }

  /** Looking up a name that was absent before the new last row finds that row. */
  lemma {:induction false} FindUserAppended(users: seq<UserRow>, row: UserRow)
    requires FindUser(users, row.username).None?
    ensures FindUser(users + [row], row.username) == Some(row)
  {
    if users != [] {
      assert (users + [row])[1..] == users[1..] + [row];
      FindUserAppended(users[1..], row);
    }
  }

  /** Registering a name twice: the second call reports -1 and exactly one row carries the name. */
  lemma RegisterSameNameTwice(h: Hasher, t: Tables, user: Text,
                              pass1: Text, phone1: Text, code1: Text, salt1: Text, fails1: bool,
                              pass2: Text, phone2: Text, code2: Text, salt2: Text, fails2: bool)
    requires Valid(t)
    requires Register(h, t, Some(user), Some(pass1), Some(phone1), Some(code1), salt1, fails1).result == 1
    ensures var t1 := Register(h, t, Some(user), Some(pass1), Some(phone1), Some(code1), salt1, fails1).tables;
      && Register(h, t1, Some(user), Some(pass2), Some(phone2), Some(code2), salt2, fails2) == Step(-1, t1)
      && (forall i, j ::
            (0 <= i < |t1.users| && 0 <= j < |t1.users| && t1.users[i].username == user && t1.users[j].username == user)
            ==> i == j)
  {
    var t1 := Register(h, t, Some(user), Some(pass1), Some(phone1), Some(code1), salt1, fails1).tables;
    RegisterPreservesValid(h, t, Some(user), Some(pass1), Some(phone1), Some(code1), salt1, fails1);
    assert t1.users[|t.users|].username == user;
  }

  /** After a password change the new password logs in; the old hash plays no further part. */
  lemma UpdatePasswordThenLogin(h: Hasher, t: Tables, k: nat, p: Text, salt: Text, attempt: Text)
    requires h.Sound() && Valid(t)
    requires k < |t.users|
    ensures var t1 := UpdatePassword(h, t, t.users[k].id, p, salt).tables;
      && Login(h, t1, Some(t.users[k].username), Some(p)).result == 1
      && CurrentUserId(Login(h, t1, Some(t.users[k].username), Some(p)).tables) == t.users[k].id
      && (Login(h, t1, Some(t.users[k].username), Some(attempt)).result == 1 <==>
          h.verify(attempt, h.hash(p, salt)))
  {
    var u := t.users[k].id;
    var t1 := UpdatePassword(h, t, u, p, salt).tables;
    UpdatePasswordPreservesValid(h, t, u, p, salt);
    FindUserAt(t1.users, k);
  }

  /** In a table with unique names, looking up the name of row k finds row k. */
  lemma {:induction false} FindUserAt(users: seq<UserRow>, k: nat)
    requires k < |users|
    requires forall i, j :: 0 <= i < j < |users| ==> users[i].username != users[j].username
    ensures FindUser(users, users[k].username) == Some(users[k])
  {
    if k > 0 {
      assert users[1..][k - 1] == users[k];
      FindUserAt(users[1..], k - 1);
    }
  }

  // ---------------------------------------------------------------------------
  // Goals and weight entries
  // ---------------------------------------------------------------------------

  /** With the goal constraint in force, -1 from getMostRecentGoalWeight means "no goal" and nothing else. */
  lemma MostRecentGoalWeightMeaning(t: Tables, u: int)
    requires Valid(t)
    ensures MostRecentGoalWeight(t, u) == -1 <==> !HasGoal(t.goals, u)
    ensures MostRecentGoalWeight(t, u) != -1 ==> MostRecentGoalWeight(t, u) > 0
  {
    var g := LatestGoal(t.goals, u);
    if g.Some? {
      var i :| 0 <= i < |t.goals| && t.goals[i] == g.value;
    }
  }

  /**
   * The goal just set is the latest one: getMostRecentGoalWeight returns it and
   * getMostRecentTargetDate reads its (empty) target date; other users' goals are untouched.
   */
  lemma SetGoalBecomesLatest(t: Tables, u: int, v: int)
    requires Valid(t) && v > 0
    ensures MostRecentGoalWeight(SetGoal(t, u, v).tables, u) == v
    ensures MostRecentTargetDate(SetGoal(t, u, v).tables, u) == None
    ensures forall other :: other != u ==>
      && MostRecentGoalWeight(SetGoal(t, u, v).tables, other) == MostRecentGoalWeight(t, other)
      && MostRecentTargetDate(SetGoal(t, u, v).tables, other) == MostRecentTargetDate(t, other)
  {
    var goals := SetGoal(t, u, v).tables.goals;
    var row := GoalRow(t.goalSeq + 1, u, v, None);
    var latest := LatestGoal(goals, u);
    assert goals[|t.goals|] == row;
    assert forall i :: 0 <= i < |t.goals| ==> goals[i] == t.goals[i] && goals[i].id < row.id;
    assert latest.value.id >= row.id;
    assert latest.value == row;
    forall other | other != u
      ensures LatestGoal(goals, other) == LatestGoal(t.goals, other)
    {
      LatestGoalIgnoresOthers(t.goals, row, other);
    }
  }

  /** Appending a goal row of another user leaves a user's latest goal as it was. */
  lemma {:induction false} LatestGoalIgnoresOthers(goals: seq<GoalRow>, row: GoalRow, u: int)
    requires row.userId != u
    ensures LatestGoal(goals + [row], u) == LatestGoal(goals, u)
  {
    if goals != [] {
      assert (goals + [row])[1..] == goals[1..] + [row];
      LatestGoalIgnoresOthers(goals[1..], row, u);
    }
  }

  /** Before any goal exists for the user, addDailyWeight fails and inserts nothing. */
  lemma NoGoalNoEntry(t: Tables, u: int, w: int, date: Text)
    requires Valid(t) && !HasGoal(t.goals, u)
    ensures AddWeight(t, u, w, date) == Step(false, t)
  {
    MostRecentGoalWeightMeaning(t, u);
  }

  /**
   * A weight entry survives every later call except a delete that matches it, with its
   * goal snapshot unchanged: no call rewrites an existing `user_data` row.
   */
  lemma {:induction false} EntryPersists(h: Hasher, t: Tables, ops: seq<Op>, e: WeightRow)
    requires e in t.entries
    requires forall k :: 0 <= k < |ops| && ops[k].DeleteOp? ==>
                           !Matches(e, ops[k].userId, ops[k].weight, ops[k].target, ops[k].date)
    ensures e in Run(h, t, ops).entries
    decreases |ops|
  {
    if ops != [] {
      var t1 := Apply(h, t, ops[0]);
      assert e in t1.entries;
      assert forall k :: 1 <= k < |ops| ==> ops[1..][k - 1] == ops[k];
      EntryPersists(h, t1, ops[1..], e);
    }
  }

  /**
   * The snapshot scenario: set goal 150, record 160, then any calls without a matching
   * delete (setting goal 140, say) leave an entry (160, 150) in the user's history.
   */
  lemma SnapshotSurvivesNewGoals(h: Hasher, t: Tables, u: int, date: Text, later: seq<Op>)
    requires Valid(t)
    requires forall k :: 0 <= k < |later| && later[k].DeleteOp? ==> later[k].userId != u
    ensures var t1 := AddWeight(SetGoal(t, u, 150).tables, u, 160, date).tables;
      WeightPoint(160, 150, date) in UserWeightsWithTarget(Run(h, t1, later).entries, u)
  {
    var t0 := SetGoal(t, u, 150).tables;
    SetGoalBecomesLatest(t, u, 150);
    var t1 := AddWeight(t0, u, 160, date).tables;
    var e := WeightRow(t0.entrySeq + 1, u, date, 160, 150);
    assert e == t1.entries[|t0.entries|];
    EntryPersists(h, t1, later, e);
  }

  // ---------------------------------------------------------------------------
  // Deletes and target dates
  // ---------------------------------------------------------------------------

  /** The list without every occurrence of one point, order kept. */
  function Without(points: seq<WeightPoint>, p: WeightPoint): (r: seq<WeightPoint>)
    ensures forall x :: x in r <==> x in points && x != p
  {
    if points == [] then []
    else
      var rest := Without(points[1..], p);
      assert forall x :: x in points <==> x == points[0] || x in points[1..];
      if points[0] == p then rest else [points[0]] + rest
  }

  /**
   * After deleteWeightEntry(u, w, g, d) the user's history is the old one, in the same
   * order, minus every (w, g, d); every other user's history is unchanged.
   */
  lemma {:induction false} HistoryAfterDelete(rows: seq<WeightRow>, u: int, w: int, g: int, d: Text, v: int)
    ensures UserWeightsWithTarget(RemoveMatching(rows, u, w, g, d), v) ==
      if v == u then Without(UserWeightsWithTarget(rows, v), WeightPoint(w, g, d))
      else UserWeightsWithTarget(rows, v)
  {
    if rows != [] {
      HistoryAfterDelete(rows[1..], u, w, g, d, v);
      var rest := RemoveMatching(rows[1..], u, w, g, d);
      if !Matches(rows[0], u, w, g, d) {
        assert ([rows[0]] + rest)[1..] == rest;
      }
    }
  }

  /** After the delete no entry equal to the deleted tuple is listed for that user. */
  lemma DeletedTupleGone(t: Tables, u: int, w: int, g: int, d: Text)
    ensures WeightPoint(w, g, d) !in UserWeightsWithTarget(DeleteEntry(t, u, w, g, d).entries, u)
  {
    HistoryAfterDelete(t.entries, u, w, g, d, u);
  }

  /** After a successful setTargetDate, getMostRecentTargetDate reads the new date. */
  lemma TargetDateReadBack(t: Tables, u: int, d: Option<Text>)
    requires HasGoal(t.goals, u)
    ensures MostRecentTargetDate(SetTargetDate(t, u, d).tables, u) == d
  {
    var goals := SetTargetDate(t, u, d).tables.goals;
    SameIdsSameLatest(t.goals, goals, u);
  }

  /** Two goal tables that agree on every row except target dates have the same latest row id. */
  lemma {:induction false} SameIdsSameLatest(a: seq<GoalRow>, b: seq<GoalRow>, u: int)
    requires |a| == |b|
    requires forall i :: 0 <= i < |a| ==> a[i].(targetDate := b[i].targetDate) == b[i]
    ensures LatestGoal(a, u).Some? <==> LatestGoal(b, u).Some?
    ensures LatestGoal(a, u).Some? ==> exists i :: 0 <= i < |a| && LatestGoal(a, u) == Some(a[i]) && LatestGoal(b, u) == Some(b[i])
  {
    if a != [] {
      assert forall i :: 0 <= i < |a| - 1 ==> a[1..][i] == a[i + 1] && b[1..][i] == b[i + 1];
      SameIdsSameLatest(a[1..], b[1..], u);
      var ra, rb := LatestGoal(a[1..], u), LatestGoal(b[1..], u);
      if ra.Some? {
        var i :| 0 <= i < |a[1..]| && ra == Some(a[1..][i]) && rb == Some(b[1..][i]);
        assert ra == Some(a[i + 1]) && rb == Some(b[i + 1]);
      }
    }
  }

  /** Reading `user_data` one more row extends the listing by that row's point, if it is the user's. */
  lemma {:induction false} UserWeightsAppend(rows: seq<WeightRow>, x: WeightRow, u: int)
    ensures UserWeightsWithTarget(rows + [x], u) ==
      UserWeightsWithTarget(rows, u) + (if x.userId == u then [PointOf(x)] else [])
  {
    if rows == [] {
      assert rows + [x] == [x];
    } else {
      assert (rows + [x])[1..] == rows[1..] + [x];
      UserWeightsAppend(rows[1..], x, u);
    }
  }
}
