/**
 * TrackingViewModel: the cached goal weight behind the tracking screen, kept in step
 * with the store as goals are loaded and set, and the pass-through for daily weights.
 */
module Tracking {
  import opened Common
  import opened StoreTables
  import StoreProperties
  import DbHelper

  class TrackingViewModel {
    /** The LiveData value: None until a goal is loaded or set. */
    var goalWeight: Option<int>

    constructor ()
      ensures goalWeight.None?
    {
      goalWeight := None;
    }

    /** loadGoalWeight: publish the user's latest goal; keep the old value when there is none. */
    method LoadGoalWeight(db: DbHelper.DbConnector, u: int)
      requires db.Valid()
      modifies this
      ensures HasGoal(db.goals, u) ==> goalWeight == Some(MostRecentGoalWeight(db.State(), u))
      ensures !HasGoal(db.goals, u) ==> goalWeight == old(goalWeight)
      ensures goalWeight.Some? && goalWeight != old(goalWeight) ==> goalWeight.value > 0
    {
      var current := db.GetMostRecentGoalWeight(u);
      if current != -1 {
        goalWeight := Some(current);
      }
    }

    /**
     * setGoalWeight: store the goal, and publish it when the store accepts it. On
     * success the published value is what the store now reports as the latest goal.
     */
    method SetGoalWeight(db: DbHelper.DbConnector, u: int, goal: int) returns (success: bool)
      requires db.Valid()
      modifies this, db
      ensures db.Valid()
      ensures var s := SetGoal(old(db.State()), u, goal); success == s.result && db.State() == s.tables
      ensures success <==> goal > 0
      ensures success ==> goalWeight == Some(goal) && goalWeight == Some(MostRecentGoalWeight(db.State(), u))
      ensures !success ==> goalWeight == old(goalWeight)
    {
      ghost var before := db.State();
      success := db.SetGoalWeight(u, goal);
      if success {
        StoreProperties.SetGoalBecomesLatest(before, u, goal);
        goalWeight := Some(goal);
      }
    }

    /** addDailyWeight: hand the weight to the store; the cached goal is not touched. */
    method AddDailyWeight(db: DbHelper.DbConnector, u: int, weight: int, today: Text) returns (ok: bool)
      requires db.Valid()
      modifies db
      ensures db.Valid()
      ensures var s := AddWeight(old(db.State()), u, weight, today); ok == s.result && db.State() == s.tables
      ensures ok ==> db.entries[|db.entries| - 1] == WeightRow(db.entrySeq, u, today, weight, MostRecentGoalWeight(db.State(), u))
    {
      ok := db.AddDailyWeight(u, weight, today);
    }
  }
}
