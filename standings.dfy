/**
 * The driver standings as the page keeps them: the API's list without the
 * dropped drivers, sorted by points from most to fewest.
 */
module Standings {
  import opened Sorting

  /** One entry of the standings; points are already parsed to an integer. */
  datatype Driver = Driver(givenName: string, familyName: string, constructors: seq<string>, points: int)

  /** Family names of drivers left out of the sweepstake. */
  const DroppedDrivers: seq<string> := ["Doohan"]

  /** The drivers of `ds` whose family name is not in `dropped`, in their order in `ds`. */
  function ExcludeDropped(ds: seq<Driver>, dropped: seq<string>): (r: seq<Driver>)
    ensures |r| <= |ds|
    ensures forall i :: 0 <= i < |r| ==> r[i].familyName !in dropped
  {
    if ds == [] then []
    else (if ds[0].familyName in dropped then [] else [ds[0]]) + ExcludeDropped(ds[1..], dropped)
  }

  /**
   * The filter keeps every driver whose family name is not dropped, as
   * often as it occurs, and nothing else.
   */
  lemma {:induction false} ExcludeDroppedKeeps(ds: seq<Driver>, dropped: seq<string>)
    ensures forall d :: multiset(ExcludeDropped(ds, dropped))[d]
                     == if d.familyName in dropped then 0 else multiset(ds)[d]
    ensures forall d :: d in ExcludeDropped(ds, dropped) <==> d in ds && d.familyName !in dropped
  {
    if ds != [] {
      ExcludeDroppedKeeps(ds[1..], dropped);
      assert ds == [ds[0]] + ds[1..];
    }
    forall d ensures d in ExcludeDropped(ds, dropped) <==> multiset(ExcludeDropped(ds, dropped))[d] > 0 {}
  }

  /** The filter keeps order: filtering a concatenation filters each part in place. */
  lemma {:induction false} ExcludeDroppedAppend(a: seq<Driver>, b: seq<Driver>, dropped: seq<string>)
    ensures ExcludeDropped(a + b, dropped) == ExcludeDropped(a, dropped) + ExcludeDropped(b, dropped)
  {
    if a == [] {
      assert a + b == b;
    } else {
      ExcludeDroppedAppend(a[1..], b, dropped);
      ExcludeDroppedCons(a[0], a[1..], dropped);
      ExcludeDroppedCons(a[0], a[1..] + b, dropped);
      assert a == [a[0]] + a[1..] && a + b == [a[0]] + (a[1..] + b);
    }
  }

  lemma ExcludeDroppedCons(d: Driver, s: seq<Driver>, dropped: seq<string>)
    ensures ExcludeDropped([d] + s, dropped)
         == (if d.familyName in dropped then [] else [d]) + ExcludeDropped(s, dropped)
  {
  }

  /** The comparator of the points sort: negative when `a` belongs before `b`. */
  function PointsComparator(a: Driver, b: Driver): int
  {
    b.points - a.points
  }

  /**
   * The sort may leave `a` before `b` when the comparator does not ask to
   * swap them: exactly when `a` has at least as many points.
   */
  function MorePoints(a: Driver, b: Driver): (r: bool)
    ensures r <==> a.points >= b.points
    ensures !r <==> PointsComparator(b, a) < 0
  {
    PointsComparator(a, b) <= 0
  }

  lemma MorePointsIsTotalPreorder()
    ensures TotalPreorder(MorePoints)
  {
  }

  /** The standings sorted by points, most first; drivers on equal points keep their order. */
  function RankByPoints(ds: seq<Driver>): (r: seq<Driver>)
    ensures multiset(r) == multiset(ds)
    ensures forall i, j :: 0 <= i < j < |r| ==> r[i].points >= r[j].points
  {
    MorePointsIsTotalPreorder();
    SortBySorted(ds, MorePoints);
    SortBy(ds, MorePoints)
  }

  /** Drivers on the same points as `x` appear in the ranking in the order they had in `ds`. */
  lemma RankByPointsStable(ds: seq<Driver>, x: Driver)
    ensures Ties(RankByPoints(ds), x, MorePoints) == Ties(ds, x, MorePoints)
    ensures forall d :: d in Ties(ds, x, MorePoints) ==> d.points == x.points
  {
    MorePointsIsTotalPreorder();
    SortByStable(ds, x, MorePoints);
    TiesHavePoints(ds, x);
  }

  lemma {:induction false} TiesHavePoints(ds: seq<Driver>, x: Driver)
    ensures forall d :: d in Ties(ds, x, MorePoints) <==> d in ds && d.points == x.points
  {
    if ds != [] {
      TiesHavePoints(ds[1..], x);
      assert ds == [ds[0]] + ds[1..];
    }
  }

  /** What the page stores after loading: the kept drivers ranked by points. */
  function RankedStandings(standings: seq<Driver>): (r: seq<Driver>)
    ensures multiset(r) == multiset(ExcludeDropped(standings, DroppedDrivers))
    ensures forall d :: multiset(r)[d] == if d.familyName in DroppedDrivers then 0 else multiset(standings)[d]
    ensures forall i, j :: 0 <= i < j < |r| ==> r[i].points >= r[j].points
  {
    ExcludeDroppedKeeps(standings, DroppedDrivers);
    RankByPoints(ExcludeDropped(standings, DroppedDrivers))
  }
}
