/**
 * Practice statistics over the date-filtered table
 * (server/src/handlers/get_practice_statistics.ts).
 */
module Statistics {
  import opened Schema
  import opened Filters

  /** The result of `getPracticeStatistics`. */
  datatype PracticeStatistics = PracticeStatistics(
    totalPractices: nat,
    totalDistance: real,
    totalTimeMinutes: int,
    averageDistancePerPractice: real,
    averageTimePerPractice: real,
    strokeDistribution: map<Stroke, nat>,
    mostCommonStroke: Option<Stroke>)

  /** How many of the practices have stroke `s`. */
  function CountOf(ps: seq<Practice>, s: Stroke): (n: nat)
    ensures n <= |ps|
  {
    if ps == [] then 0
    else CountOf(ps[..|ps| - 1], s) + (if ps[|ps| - 1].mainStroke == s then 1 else 0)
  }

  /** The sum of the distances of the practices. */
  function SumDistance(ps: seq<Practice>): real {
    if ps == [] then 0.0 else SumDistance(ps[..|ps| - 1]) + ps[|ps| - 1].totalDistance
  }

  /** The sum of the durations of the practices. */
  function SumMinutes(ps: seq<Practice>): int {
    if ps == [] then 0 else SumMinutes(ps[..|ps| - 1]) + ps[|ps| - 1].durationMinutes
  }

  /** The count of every stroke; the map is never sparse. */
  function Distribution(ps: seq<Practice>): (d: map<Stroke, nat>)
    ensures forall s: Stroke :: s in d && d[s] <= |ps|
  {
    assert forall s: Stroke :: s in AllStrokes by {
      forall s: Stroke ensures s in AllStrokes {
        assert AllStrokes[Position(s)] == s;
      }
    }
    map s | s in AllStrokes :: CountOf(ps, s)
  }

  /** No practice counts zero for every stroke. */
  lemma DistributionOfNone()
    ensures Distribution([]) == map[Freestyle := 0, Breaststroke := 0, Backstroke := 0, Butterfly := 0, IM := 0]
  {
  }

  /** One more practice adds one to the count of its stroke and changes no other count. */
  lemma DistributionStep(ps: seq<Practice>, p: Practice)
    ensures Distribution(ps + [p]) == Distribution(ps)[p.mainStroke := Distribution(ps)[p.mainStroke] + 1]
  {
    assert (ps + [p])[..|ps|] == ps;
  }

  /** The sum of the five counts of a distribution. */
  function TotalCount(d: map<Stroke, nat>): int
    requires forall s: Stroke :: s in d
  {
    d[Freestyle] + d[Breaststroke] + d[Backstroke] + d[Butterfly] + d[IM]
  }

  /** The counts of the distribution add up to the number of practices. */
  lemma {:induction false} DistributionSum(ps: seq<Practice>)
    ensures TotalCount(Distribution(ps)) == |ps|
  {
    if ps != [] {
      DistributionSum(ps[..|ps| - 1]);
    }
  }

  /** The practices are none exactly when every stroke count is zero. */
  lemma NoPracticesIffAllZero(ps: seq<Practice>)
    ensures |ps| == 0 <==> forall s: Stroke :: Distribution(ps)[s] == 0
  {
    DistributionSum(ps);
  }

  /** `Math.round(x * 100) / 100`: to hundredths, with halves rounded up as Math.round does. */
  function RoundToHundredths(x: real): (r: real)
    ensures x - 0.005 < r <= x + 0.005
    ensures (r * 100.0).Floor as real == r * 100.0
  {
    ((x * 100.0 + 0.5).Floor as real) / 100.0
  }

  /**
   * `s` is the stroke the scan in declared order keeps: it has a positive count, no stroke has
   * a larger one, and every stroke declared before it has a strictly smaller one.
   */
  predicate IsFirstMostCommon(d: map<Stroke, nat>, s: Stroke)
    requires forall t: Stroke :: t in d
  {
    && d[s] > 0
    && (forall t: Stroke :: d[t] <= d[s])
    && (forall t: Stroke :: Position(t) < Position(s) ==> d[t] < d[s])
  }

  /** Ties are broken one way only: at most one stroke is the first most common. */
  lemma FirstMostCommonUnique(d: map<Stroke, nat>, s: Stroke, t: Stroke)
    requires forall u: Stroke :: u in d
    requires IsFirstMostCommon(d, s) && IsFirstMostCommon(d, t)
    ensures s == t
  {
  }

  /** The mean of `n` values adding up to `total`, and 0 when there are none. */
  function MeanOrZero(total: real, n: nat): real {
    if n > 0 then total / (n as real) else 0.0
  }

  /** What the statistics of a sequence of practices are. */
  ghost predicate Summarizes(stats: PracticeStatistics, ps: seq<Practice>) {
    && stats.totalPractices == |ps|
    && stats.totalDistance == SumDistance(ps)
    && stats.totalTimeMinutes == SumMinutes(ps)
    && stats.averageDistancePerPractice == RoundToHundredths(MeanOrZero(SumDistance(ps), |ps|))
    && stats.averageTimePerPractice == RoundToHundredths(MeanOrZero(SumMinutes(ps) as real, |ps|))
    && stats.strokeDistribution == Distribution(ps)
    && (stats.mostCommonStroke.None? <==> |ps| == 0)
    && (stats.mostCommonStroke.Some? ==>
          IsFirstMostCommon(stats.strokeDistribution, stats.mostCommonStroke.value))
  }

  /** The statistics of a sequence of practices are determined by it. */
  lemma SummaryUnique(a: PracticeStatistics, b: PracticeStatistics, ps: seq<Practice>)
    requires Summarizes(a, ps) && Summarizes(b, ps)
    ensures a == b
  {
    if a.mostCommonStroke.Some? {
      FirstMostCommonUnique(Distribution(ps), a.mostCommonStroke.value, b.mostCommonStroke.value);
    }
  }

  /** Over no practices every total, average and count is zero and there is no most common stroke. */
  lemma EmptySummary(stats: PracticeStatistics)
    requires Summarizes(stats, [])
    ensures stats.totalPractices == 0 && stats.totalDistance == 0.0 && stats.totalTimeMinutes == 0
    ensures stats.averageDistancePerPractice == 0.0 && stats.averageTimePerPractice == 0.0
    ensures forall s: Stroke :: stats.strokeDistribution[s] == 0
    ensures stats.mostCommonStroke == None
  {
  }

  /**
   * Scans the strokes in declared order and keeps one whenever its count is strictly larger
   * than the largest seen so far; the result is null when that largest count is 0.
   */
  method MostCommonStroke(distribution: map<Stroke, nat>) returns (mostCommon: Option<Stroke>)
    requires forall t: Stroke :: t in distribution
    ensures mostCommon.None? <==> forall t: Stroke :: distribution[t] == 0
    ensures mostCommon.Some? ==> IsFirstMostCommon(distribution, mostCommon.value)
  {
    mostCommon := None;
    var maxCount := 0;
    var k := 0;
    while k < |AllStrokes|
      invariant 0 <= k <= |AllStrokes|
      invariant forall t: Stroke :: Position(t) < k ==> distribution[t] <= maxCount
      invariant mostCommon.None? ==> maxCount == 0
      invariant mostCommon.Some? ==>
        && Position(mostCommon.value) < k
        && distribution[mostCommon.value] == maxCount > 0
        && forall t: Stroke :: Position(t) < Position(mostCommon.value) ==> distribution[t] < maxCount
    {
      var stroke := AllStrokes[k];
      assert Position(stroke) == k;
      var count := distribution[stroke];
      if count > maxCount {
        maxCount := count;
        mostCommon := Some(stroke);
      }
      k := k + 1;
    }
    if maxCount == 0 {
      mostCommon := None;
    }
  }

  /**
   * Freestyle 60 minutes/2000, Breaststroke 45/1500 and Freestyle 75/2500: three practices,
   * 6000 in all, 180 minutes, averages 2000 and 60, two Freestyle and one Breaststroke, and
   * Freestyle is the most common stroke.
   */
  lemma ThreePracticeScenario(a: Practice, b: Practice, c: Practice, stats: PracticeStatistics)
    requires a.durationMinutes == 60 && a.totalDistance == 2000.0 && a.mainStroke == Freestyle
    requires b.durationMinutes == 45 && b.totalDistance == 1500.0 && b.mainStroke == Breaststroke
    requires c.durationMinutes == 75 && c.totalDistance == 2500.0 && c.mainStroke == Freestyle
    requires Summarizes(stats, [a, b, c])
    ensures stats.totalPractices == 3 && stats.totalDistance == 6000.0 && stats.totalTimeMinutes == 180
    ensures stats.averageDistancePerPractice == 2000.0 && stats.averageTimePerPractice == 60.0
    ensures stats.strokeDistribution[Freestyle] == 2 && stats.strokeDistribution[Breaststroke] == 1
    ensures stats.strokeDistribution[Backstroke] == 0 && stats.strokeDistribution[Butterfly] == 0
    ensures stats.strokeDistribution[IM] == 0
    ensures stats.mostCommonStroke == Some(Freestyle)
  {
    var ps := [a, b, c];
    ThreePracticeTotals(a, b, c);
    assert ps[..2] == [a, b] && ps[..2][..1] == [a] && [a][..0] == [];
    forall s ensures CountOf(ps, s) == (if s == Freestyle then 2 else if s == Breaststroke then 1 else 0) {
      assert CountOf([a], s) == (if s == Freestyle then 1 else 0);
      assert CountOf([a, b], s) == (if s == Freestyle || s == Breaststroke then 1 else 0);
    }
    var d := Distribution(ps);
    assert IsFirstMostCommon(d, Freestyle);
    FirstMostCommonUnique(d, Freestyle, stats.mostCommonStroke.value);
    RoundsOfThreePracticeMeans();
  }

  /** The sums of that scenario: 2000 + 1500 + 2500 and 60 + 45 + 75. */
  lemma ThreePracticeTotals(a: Practice, b: Practice, c: Practice)
    requires a.durationMinutes == 60 && a.totalDistance == 2000.0
    requires b.durationMinutes == 45 && b.totalDistance == 1500.0
    requires c.durationMinutes == 75 && c.totalDistance == 2500.0
    ensures SumDistance([a, b, c]) == 6000.0 && SumMinutes([a, b, c]) == 180
  {
    var ps := [a, b, c];
    assert ps[..2] == [a, b] && ps[..2][..1] == [a] && [a][..0] == [];
    assert SumDistance([a]) == 2000.0 && SumMinutes([a]) == 60;
    assert SumDistance([a, b]) == 3500.0 && SumMinutes([a, b]) == 105;
  }

  /** The two means of that scenario are whole hundredths, so rounding keeps them. */
  lemma RoundsOfThreePracticeMeans()
    ensures RoundToHundredths(6000.0 / 3.0) == 2000.0
    ensures RoundToHundredths(180.0 / 3.0) == 60.0
  {
    assert (200000.5).Floor == 200000;
    assert (6000.5).Floor == 6000;
  }

  /**
   * Freestyle, Breaststroke, Freestyle, Breaststroke: four practices, two of each stroke,
   * and the tie goes to Freestyle, declared first.
   */
  lemma FourPracticeTieScenario(a: Practice, b: Practice, c: Practice, d: Practice, stats: PracticeStatistics)
    requires a.mainStroke == Freestyle && b.mainStroke == Breaststroke
    requires c.mainStroke == Freestyle && d.mainStroke == Breaststroke
    requires Summarizes(stats, [a, b, c, d])
    ensures stats.totalPractices == 4
    ensures stats.strokeDistribution[Freestyle] == 2 && stats.strokeDistribution[Breaststroke] == 2
    ensures stats.mostCommonStroke == Some(Freestyle)
  {
    var ps := [a, b, c, d];
    assert ps[..3] == [a, b, c] && ps[..3][..2] == [a, b] && ps[..3][..2][..1] == [a];
    assert [a][..0] == [];
    forall s ensures CountOf(ps, s) == (if s == Freestyle || s == Breaststroke then 2 else 0) {
      assert CountOf([a], s) == (if s == Freestyle then 1 else 0);
      assert CountOf([a, b], s) == (if s == Freestyle || s == Breaststroke then 1 else 0);
      assert CountOf([a, b, c], s) == (if s == Freestyle then 2 else if s == Breaststroke then 1 else 0);
    }
    var dist := Distribution(ps);
    assert IsFirstMostCommon(dist, Freestyle);
    FirstMostCommonUnique(dist, Freestyle, stats.mostCommonStroke.value);
  }

  /** One pass over the practices: sums distance and time and counts each stroke. */
  method Accumulate(practices: seq<Practice>)
    returns (totalDistance: real, totalTimeMinutes: int, distribution: map<Stroke, nat>)
    ensures totalDistance == SumDistance(practices)
    ensures totalTimeMinutes == SumMinutes(practices)
    ensures distribution == Distribution(practices)
  {
    distribution := map[Freestyle := 0, Breaststroke := 0, Backstroke := 0, Butterfly := 0, IM := 0];
    DistributionOfNone();
    totalDistance := 0.0;
    totalTimeMinutes := 0;

    var i := 0;
    while i < |practices|
      invariant 0 <= i <= |practices|
      invariant totalDistance == SumDistance(practices[..i])
      invariant totalTimeMinutes == SumMinutes(practices[..i])
      invariant distribution == Distribution(practices[..i])
    {
      var p := practices[i];
      assert practices[..i + 1] == practices[..i] + [p];
      DistributionStep(practices[..i], p);
      totalDistance := totalDistance + p.totalDistance;
      totalTimeMinutes := totalTimeMinutes + p.durationMinutes;
      distribution := distribution[p.mainStroke := distribution[p.mainStroke] + 1];
      i := i + 1;
    }
    assert practices[..i] == practices;
  }

  /**
   * The practices in the date range (both bounds inclusive, a missing bound filters nothing),
   * their totals, their averages rounded to hundredths, the count of every stroke and the
   * first most common stroke in declared order.
   */
  method GetPracticeStatistics(table: seq<Practice>, dateFrom: Option<Date>, dateTo: Option<Date>)
    returns (stats: PracticeStatistics)
    ensures Summarizes(stats, Selected(table, None, dateFrom, dateTo))
  {
    var conds := BuildConditions(None, dateFrom, dateTo);
    var practices := Where(table, conds);
    WhereIsSelected(table, conds, None, dateFrom, dateTo);

    var totalPractices := |practices|;
    var totalDistance, totalTimeMinutes, distribution := Accumulate(practices);

    var averageDistance := if totalPractices > 0 then totalDistance / (totalPractices as real) else 0.0;
    var averageTime := if totalPractices > 0 then (totalTimeMinutes as real) / (totalPractices as real) else 0.0;

    NoPracticesIffAllZero(practices);
    var mostCommon := MostCommonStroke(distribution);

    stats := PracticeStatistics(
      totalPractices, totalDistance, totalTimeMinutes,
      RoundToHundredths(averageDistance), RoundToHundredths(averageTime),
      distribution, mostCommon);
  }
}
