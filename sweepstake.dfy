/**
 * The sweepstake assignment: the ranked standings are split into the top
 * ten and the rest, each tier is shuffled with a seed taken from the next
 * race's round number, and the alphabetically sorted players are paired
 * by position with one driver from each shuffled tier.
 */
module Sweepstake {
  import opened Sorting
  import opened Standings
  import opened Shuffle

  /** The size of the top tier. */
  const TierSize: nat := 10

  /** The players, in the order they are listed before sorting. */
  const RosterNames: seq<string> :=
    ["Will", "Alex", "Coops", "Emily", "Charlotte", "GC", "Roz", "Iain", "Ted", "Matty"]

  function Min(a: int, b: int): int
  {
    if a <= b then a else b
  }

  /**
   * The players sorted by `localeLe`, the "comes no later than" relation
   * of the locale-aware string comparison, which is not modelled.
   */
  function Players(localeLe: (string, string) -> bool): (players: seq<string>)
    requires TotalPreorder(localeLe)
    ensures multiset(players) == multiset(RosterNames)
    ensures |players| == |RosterNames| == 10
    ensures SortedBy(players, localeLe)
  {
    SortBySorted(RosterNames, localeLe);
    SortBy(RosterNames, localeLe)
  }

  /**
   * Splits the ranked drivers, by index, into the first ten and the rest,
   * pushing each driver onto one of two accumulators.
   */
  method PartitionTiers(ranked: seq<Driver>) returns (top: seq<Driver>, bottom: seq<Driver>)
    ensures |top| == Min(TierSize, |ranked|)
    ensures |bottom| == |ranked| - Min(TierSize, |ranked|)
    ensures top + bottom == ranked
  {
    top, bottom := [], [];
    for index := 0 to |ranked|
      invariant |top| == Min(TierSize, index)
      invariant top + bottom == ranked[..index]
    {
      if index < TierSize {
        top := top + [ranked[index]];
      } else {
        bottom := bottom + [ranked[index]];
      }
    }
    assert ranked[..|ranked|] == ranked;
  }

  /** One table row: a player and their drivers from the top and bottom tiers. */
  datatype Row = Row(player: string, first: Driver, second: Driver)

  /**
   * What the page shows: either the message that there are not enough
   * drivers, or the table rows together with the two shuffled tiers (which
   * the copy button exports).
   */
  datatype Outcome =
    | NotEnoughDrivers
    | Table(rows: seq<Row>, top: seq<Driver>, bottom: seq<Driver>)

  /**
   * Builds the assignment from the stored ranking, the sorted players and
   * the next race's round number: the top tier is shuffled with seed
   * `round`, the bottom tier with seed `round + 1`.
   */
  method BuildTable(ranked: seq<Driver>, players: seq<string>, round: int)
    returns (outcome: Outcome)
    requires round > 0
    ensures var n := Min(TierSize, |ranked|);
      outcome.NotEnoughDrivers? <==> |players| > n || |players| > |ranked| - n
    ensures outcome.Table? ==>
      && |outcome.rows| == |players|
      && multiset(outcome.top) == multiset(ranked[..Min(TierSize, |ranked|)])
      && multiset(outcome.bottom) == multiset(ranked[Min(TierSize, |ranked|)..])
      && |outcome.top| >= |players| && |outcome.bottom| >= |players|
      && forall i :: 0 <= i < |players| ==>
           outcome.rows[i] == Row(players[i], outcome.top[i], outcome.bottom[i])
  {
    var top, bottom := PartitionTiers(ranked);
    var topArray := new Driver[|top|](i requires 0 <= i < |top| => top[i]);
    var bottomArray := new Driver[|bottom|](i requires 0 <= i < |bottom| => bottom[i]);
    assert topArray[..] == top && bottomArray[..] == bottom;
    var randomisedTop := RandomiseArray(topArray, round);
    var randomisedBottom := RandomiseArray(bottomArray, round + 1);
    var shuffledTop, shuffledBottom := randomisedTop[..], randomisedBottom[..];
    assert |shuffledTop| == |top| && |shuffledBottom| == |bottom| by {
      assert |multiset(shuffledTop)| == |multiset(top)|;
      assert |multiset(shuffledBottom)| == |multiset(bottom)|;
    }

    if |players| > |shuffledTop| || |players| > |shuffledBottom| {
      return NotEnoughDrivers;
    }
    assert top == ranked[..|top|] && bottom == ranked[|top|..] by {
      assert ranked == top + bottom;
    }
    var rows := seq(|players|, i requires 0 <= i < |players| => Row(players[i], shuffledTop[i], shuffledBottom[i]));
    outcome := Table(rows, shuffledTop, shuffledBottom);
  }

  /**
   * The page end to end, from the standings the API returned: drop and
   * rank the drivers, sort the players, build the table. With the ten
   * players, a table is produced exactly when at least twenty drivers
   * remain after the filter.
   */
  method SweepstakePage(standings: seq<Driver>, round: int, localeLe: (string, string) -> bool)
    returns (outcome: Outcome)
    requires round > 0
    requires TotalPreorder(localeLe)
    ensures outcome.NotEnoughDrivers? <==> |ExcludeDropped(standings, DroppedDrivers)| < 2 * TierSize
    ensures outcome.Table? ==>
      && |outcome.rows| == |RosterNames|
      && |outcome.top| >= |outcome.rows| && |outcome.bottom| >= |outcome.rows|
      && multiset(outcome.top) == multiset(RankedStandings(standings)[..TierSize])
      && multiset(outcome.bottom) == multiset(RankedStandings(standings)[TierSize..])
      && (forall i :: 0 <= i < |outcome.rows| ==>
            outcome.rows[i] == Row(Players(localeLe)[i], outcome.top[i], outcome.bottom[i]))
  {
    var ranked := RankedStandings(standings);
    assert |ranked| == |ExcludeDropped(standings, DroppedDrivers)| by {
      assert multiset(ranked) == multiset(ExcludeDropped(standings, DroppedDrivers));
    }
    var players := Players(localeLe);
    assert |players| == TierSize;
    outcome := BuildTable(ranked, players, round);
    var k := |ranked|;
    assert outcome.NotEnoughDrivers? <==> TierSize > Min(TierSize, k) || TierSize > k - Min(TierSize, k);
    assert outcome.NotEnoughDrivers? <==> k < 2 * TierSize;
  }
}
