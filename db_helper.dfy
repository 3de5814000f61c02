/**
 * dbConnector itself: an object holding the four tables, whose methods change them
 * statement by statement. Every method is proved to do exactly what the matching
 * transaction of StoreTables describes and to keep the table constraints.
 */
module DbHelper {
  import opened Common
  import opened StoreTables
  import StoreProperties

  class DbConnector {
    var users: seq<UserRow>
    var goals: seq<GoalRow>
    var entries: seq<WeightRow>
    var session: seq<int>
    var userSeq: int
    var goalSeq: int
    var entrySeq: int

    /** passUtils' bcrypt helpers, with the salt each call draws passed in. */
    const hasher: Hasher

    /** The tables as a value, for stating what the methods do. */
    function State(): Tables
      reads this
    {
      Tables(users, goals, entries, session, userSeq, goalSeq, entrySeq)
    }

    ghost predicate Valid()
      reads this
    {
      StoreTables.Valid(State())
    }

    /** Opening the helper on a new device: onCreate makes four empty tables. */
    constructor (h: Hasher)
      ensures State() == Fresh() && hasher == h
      ensures Valid()
    {
      users, goals, entries, session := [], [], [], [];
      userSeq, goalSeq, entrySeq := 0, 0, 0;
      hasher := h;
      StoreProperties.FreshIsValid();
    }

    /** setCurrentUserId: delete every session row, then insert one. */
    method SetCurrentUserId(u: int)
      modifies this
      ensures State() == SetSession(old(State()), u)
      ensures old(Valid() && IsUserId(users, u)) ==> Valid()
    {
      if Valid() && IsUserId(users, u) {
        StoreProperties.SetSessionPreservesValid(State(), u);
      }
      session := [];
      session := session + [u];
    }

    /**
     * registerUser. `salt` is what bcrypt draws for this call; `insertFails` is a
     * storage fault on the INSERT. Within the transaction the name is looked up,
     * the role code mapped, the password hashed, the row inserted and the session set.
     */
    method RegisterUser(user: Option<Text>, pass: Option<Text>, phone: Option<Text>, role: Option<Text>,
                        salt: Text, insertFails: bool) returns (code: int)
      requires Valid()
      modifies this
      ensures Valid()
      ensures var s := Register(hasher, old(State()), user, pass, phone, role, salt, insertFails);
        code == s.result && State() == s.tables
    {
      StoreProperties.RegisterPreservesValid(hasher, State(), user, pass, phone, role, salt, insertFails);
      if user.None? || pass.None? || phone.None? || role.None? {
        return -3;
      }
      if FindUser(users, user.value).Some? {
        return -1;
      }
      var roleName := RoleFor(role.value);
      var hashed := hasher.hash(pass.value, salt);
      if insertFails {
        return -3;
      }
      var id := userSeq + 1;
      users := users + [UserRow(id, user.value, hashed, phone.value, roleName)];
      userSeq := id;
      SetCurrentUserId(id);
      code := 1;
    }

    /** loginUser: look the name up, check the password against the stored hash, set the session. */
    method LoginUser(user: Option<Text>, pass: Option<Text>) returns (code: int)
      requires Valid()
      modifies this
      ensures Valid()
      ensures var s := Login(hasher, old(State()), user, pass);
        code == s.result && State() == s.tables
    {
      StoreProperties.LoginPreservesValid(hasher, State(), user, pass);
      if user.None? || pass.None? {
        return -2;
      }
      var found := FindUser(users, user.value);
      if found.None? {
        return -2;
      }
      var row := found.value;
      if hasher.verify(pass.value, row.password) {
        SetCurrentUserId(row.id);
        code := 1;
      } else {
        code := -2;
      }
    }

    /** getCurrentUserID: the session's user, or -1 when nobody is logged in. */
    function GetCurrentUserId(): (id: int)
      reads this
      requires Valid()
      ensures id == -1 <==> session == []
      ensures id != -1 ==> IsUserId(users, id) && session == [id]
    {
      CurrentUserId(State())
    }

    /**
     * setGoalWeight, returning false for a goal that CHECK(goal_value > 0) rejects;
     * otherwise it appends a goal row.
     */
    method SetGoalWeight(u: int, goal: int) returns (ok: bool)
      requires Valid()
      modifies this
      ensures Valid()
      ensures var s := SetGoal(old(State()), u, goal);
        ok == s.result && State() == s.tables
    {
      StoreProperties.ApplyPreservesValid(hasher, State(), StoreProperties.SetGoalOp(u, goal));
      if goal <= 0 {
        return false;
      }
      var id := goalSeq + 1;
      goals := goals + [GoalRow(id, u, goal, None)];
      goalSeq := id;
      ok := true;
    }

    /** getMostRecentGoalWeight. */
    function GetMostRecentGoalWeight(u: int): (g: int)
      reads this
      requires Valid()
      ensures g == -1 <==> !HasGoal(goals, u)
      ensures g != -1 ==> g > 0
      ensures g != -1 ==> exists i :: (0 <= i < |goals| && goals[i].userId == u && goals[i].goalValue == g &&
          forall j :: 0 <= j < |goals| && goals[j].userId == u ==> goals[j].id <= goals[i].id)
    {
      StoreProperties.MostRecentGoalWeightMeaning(State(), u);
      MostRecentGoalWeight(State(), u)
    }

    /**
     * addDailyWeight, with `today` standing for the date the device's clock formats.
     * It reads the current goal first; no goal means no row.
     */
    method AddDailyWeight(u: int, weight: int, today: Text) returns (ok: bool)
      requires Valid()
      modifies this
      ensures Valid()
      ensures var s := AddWeight(old(State()), u, weight, today);
        ok == s.result && State() == s.tables
    {
      StoreProperties.ApplyPreservesValid(hasher, State(), StoreProperties.AddWeightOp(u, weight, today));
      var current := MostRecentGoalWeight(State(), u);
      if current == -1 {
        return false;
      }
      if weight <= 0 {
        return false;
      }
      var id := entrySeq + 1;
      entries := entries + [WeightRow(id, u, today, weight, current)];
      entrySeq := id;
      ok := true;
    }

    /** getMostRecentTargetDate. */
    function GetMostRecentTargetDate(u: int): (d: Option<Text>)
      reads this
      ensures !HasGoal(goals, u) ==> d.None?
      ensures HasGoal(goals, u) ==> exists i :: (0 <= i < |goals| && goals[i].userId == u && goals[i].targetDate == d &&
          forall j :: 0 <= j < |goals| && goals[j].userId == u ==> goals[j].id <= goals[i].id)
    {
      MostRecentTargetDate(State(), u)
    }

    /** getUserWeightsWithTarget: walk the cursor over the user's rows, collecting each one's point. */
    method GetUserWeightsWithTarget(u: int) returns (weights: seq<WeightPoint>)
      ensures weights == UserWeightsWithTarget(entries, u)
    {
      weights := [];
      var i := 0;
      while i < |entries|
        invariant 0 <= i <= |entries|
        invariant weights == UserWeightsWithTarget(entries[..i], u)
      {
        StoreProperties.UserWeightsAppend(entries[..i], entries[i], u);
        assert entries[..i + 1] == entries[..i] + [entries[i]];
        if entries[i].userId == u {
          weights := weights + [PointOf(entries[i])];
        }
        i := i + 1;
      }
      assert entries[..i] == entries;
    }

    /** deleteWeightEntry: one DELETE of every row matching all four values. */
    method DeleteWeightEntry(u: int, weight: int, target: int, date: Text)
      requires Valid()
      modifies this
      ensures Valid()
      ensures State() == DeleteEntry(old(State()), u, weight, target, date)
    {
      StoreProperties.ApplyPreservesValid(hasher, State(), StoreProperties.DeleteOp(u, weight, target, date));
      entries := RemoveMatching(entries, u, weight, target, date);
    }

    /** setTargetDate: one UPDATE of every goal row of the user. */
    method SetTargetDate(u: int, date: Option<Text>) returns (ok: bool)
      requires Valid()
      modifies this
      ensures Valid()
      ensures var s := StoreTables.SetTargetDate(old(State()), u, date);
        ok == s.result && State() == s.tables
    {
      StoreProperties.ApplyPreservesValid(hasher, State(), StoreProperties.SetTargetDateOp(u, date));
      if !HasGoal(goals, u) {
        return false;
      }
      var rows := goals;
      goals := seq(|rows|, i requires 0 <= i < |rows| =>
        if rows[i].userId == u then rows[i].(targetDate := date) else rows[i]);
      ok := true;
    }

    /** updatePassword: hash the new password (with this call's salt), then UPDATE the row with that id. */
    method UpdatePassword(u: int, newPassword: Text, salt: Text) returns (ok: bool)
      requires Valid()
      modifies this
      ensures Valid()
      ensures var s := StoreTables.UpdatePassword(hasher, old(State()), u, newPassword, salt);
        ok == s.result && State() == s.tables
    {
      StoreProperties.UpdatePasswordPreservesValid(hasher, State(), u, newPassword, salt);
      if !IsUserId(users, u) {
        return false;
      }
      var hashed := hasher.hash(newPassword, salt);
      var rows := users;
      users := seq(|rows|, i requires 0 <= i < |rows| =>
        if rows[i].id == u then rows[i].(password := hashed) else rows[i]);
      ok := true;
      ghost var s := StoreTables.UpdatePassword(hasher, old(State()), u, newPassword, salt);
      forall i | 0 <= i < |users|
        ensures users[i] == s.tables.users[i]
      {
        assert s.tables.users[i].(password := rows[i].password) == rows[i];
      }
    }
  }
}
