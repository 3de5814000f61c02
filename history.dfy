/**
 * HistoryViewModel: the cached list of a user's weight entries behind the history
 * screen, and the three parallel series (weights, goal snapshots, date labels) the
 * chart is drawn from.
 */
module History {
  import opened Common
  import opened StoreTables
  import StoreProperties
  import DbHelper

  /** A chart point: x is the position in the list, y the value plotted there. */
  datatype ChartEntry = ChartEntry(x: int, y: int)

  class HistoryViewModel {
    const db: DbHelper.DbConnector

    /** The LiveData value: None until the first load. */
    var weights: Option<seq<WeightPoint>>

    constructor (db: DbHelper.DbConnector)
      ensures this.db == db && weights.None?
    {
      this.db := db;
      weights := None;
    }

    /** What the chart getters iterate over: the cached list, or nothing before a load. */
    function Listed(): seq<WeightPoint>
      reads this
    {
      if weights.None? then [] else weights.value
    }

    /** loadWeightsForUser: publish the user's current rows of `user_data`. */
    method LoadWeightsForUser(u: int)
      modifies this`weights
      ensures weights == Some(UserWeightsWithTarget(db.entries, u))
    {
      var userWeights := db.GetUserWeightsWithTarget(u);
      weights := Some(userWeights);
    }

    /**
     * deleteWeightEntry: delete through the store, then reload. The list published
     * afterwards is the one before the delete with every copy of that point removed.
     */
    method DeleteWeightEntry(u: int, weight: int, target: int, date: Text)
      requires db.Valid()
      modifies this`weights, db
      ensures db.Valid()
      ensures db.State() == DeleteEntry(old(db.State()), u, weight, target, date)
      ensures weights ==
        Some(StoreProperties.Without(UserWeightsWithTarget(old(db.entries), u), WeightPoint(weight, target, date)))
      ensures WeightPoint(weight, target, date) !in Listed()
    {
      ghost var before := db.entries;
      db.DeleteWeightEntry(u, weight, target, date);
      StoreProperties.HistoryAfterDelete(before, u, weight, target, date, u);
      LoadWeightsForUser(u);
    }

    /** getWeightEntries: the i-th cached entry's weight, plotted at x = i. */
    method GetWeightEntries() returns (r: seq<ChartEntry>)
      ensures |r| == |Listed()|
      ensures forall i :: 0 <= i < |r| ==> r[i] == ChartEntry(i, Listed()[i].weight)
    {
      r := [];
      if weights.Some? {
        var userWeights := weights.value;
        for i := 0 to |userWeights|
          invariant |r| == i
          invariant forall k :: 0 <= k < i ==> r[k] == ChartEntry(k, userWeights[k].weight)
        {
          r := r + [ChartEntry(i, userWeights[i].weight)];
        }
      }
    }

    /** getTargetWeightEntries: the i-th cached entry's goal snapshot, plotted at x = i. */
    method GetTargetWeightEntries() returns (r: seq<ChartEntry>)
      ensures |r| == |Listed()|
      ensures forall i :: 0 <= i < |r| ==> r[i] == ChartEntry(i, Listed()[i].target)
    {
      r := [];
      if weights.Some? {
        var userWeights := weights.value;
        for i := 0 to |userWeights|
          invariant |r| == i
          invariant forall k :: 0 <= k < i ==> r[k] == ChartEntry(k, userWeights[k].target)
        {
          r := r + [ChartEntry(i, userWeights[i].target)];
        }
      }
    }

    /** getDateLabels: the cached entries' dates, in list order. */
    method GetDateLabels() returns (labels: seq<Text>)
      ensures |labels| == |Listed()|
      ensures forall i :: 0 <= i < |labels| ==> labels[i] == Listed()[i].date
    {
      labels := [];
      if weights.Some? {
        var userWeights := weights.value;
        for i := 0 to |userWeights|
          invariant |labels| == i
          invariant forall k :: 0 <= k < i ==> labels[k] == userWeights[k].date
        {
          labels := labels + [userWeights[i].date];
        }
      }
    }
  }
}
