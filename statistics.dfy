/** The single-pass reduction of a metric's time series to summary statistics. */
module Statistics {
  import opened Results

  /** One sample as the range query returns it: `[value, timestamp]`. Reading
      `point[0]` of an empty point would panic, so a point is never empty. */
  type Point = p: seq<real> | |p| > 0 witness [0.0]

  /** One series of the range query's answer. Its tags are never read and are
      not kept. */
  datatype DataPoint = DataPoint(target: string, datapoints: seq<Point>)

  /** The reduction of one metric. The standard deviation is not modelled. */
  datatype MetricStatistics = MetricStatistics(
    count: nat,
    average: real,
    sum: real,
    maximum: real,
    minimum: real)

  /** The values (first components) of a sequence of points, in order. */
  function Firsts(points: seq<Point>): (vs: seq<real>)
  {
    if points == [] then []
    else Firsts(points[..|points| - 1]) + [points[|points| - 1][0]]
  }

  /** Every value of every series, in the order the reduction visits them:
      series by series, point by point. */
  function Values(series: seq<DataPoint>): (vs: seq<real>)
  {
    if series == [] then []
    else Values(series[..|series| - 1]) + Firsts(series[|series| - 1].datapoints)
  }

  /** The number of points over all series. */
  function PointCount(series: seq<DataPoint>): nat
  {
    if series == [] then 0
    else PointCount(series[..|series| - 1]) + |series[|series| - 1].datapoints|
  }

  function Sum(vs: seq<real>): real
  {
    if vs == [] then 0.0 else Sum(vs[..|vs| - 1]) + vs[|vs| - 1]
  }

  /** The running maximum, seeded from the first value rather than from zero:
      a later value replaces it only when strictly greater. */
  function Max(vs: seq<real>): real
    requires |vs| > 0
  {
    if |vs| == 1 then vs[0]
    else
      var m := Max(vs[..|vs| - 1]);
      if vs[|vs| - 1] > m then vs[|vs| - 1] else m
  }

  /** The running minimum, seeded from the first value: a later value replaces
      it only when strictly smaller. */
  function Min(vs: seq<real>): real
    requires |vs| > 0
  {
    if |vs| == 1 then vs[0]
    else
      var m := Min(vs[..|vs| - 1]);
      if vs[|vs| - 1] < m then vs[|vs| - 1] else m
  }

  /** The running maximum is one of the values and at least every value. */
  lemma {:induction false} MaxIsAttainedBound(vs: seq<real>)
    requires |vs| > 0
    ensures Max(vs) in vs
    ensures forall k :: 0 <= k < |vs| ==> vs[k] <= Max(vs)
  {
    if |vs| > 1 {
      var init := vs[..|vs| - 1];
      MaxIsAttainedBound(init);
      assert forall k :: 0 <= k < |init| ==> init[k] == vs[k];
    }
  }

  /** The running minimum is one of the values and at most every value. */
  lemma {:induction false} MinIsAttainedBound(vs: seq<real>)
    requires |vs| > 0
    ensures Min(vs) in vs
    ensures forall k :: 0 <= k < |vs| ==> Min(vs) <= vs[k]
  {
    if |vs| > 1 {
      var init := vs[..|vs| - 1];
      MinIsAttainedBound(init);
      assert forall k :: 0 <= k < |init| ==> init[k] == vs[k];
    }
  }

  /** What `calculateStatistics` returns for the values it visits: an error when
      there are none, never a record of zeros. */
  function Reduce(vs: seq<real>): Result<MetricStatistics>
  {
    if |vs| == 0 then Failure(NoDataPoints)
    else Success(MetricStatistics(|vs|, Sum(vs) / (|vs| as real), Sum(vs), Max(vs), Min(vs)))
  }

  lemma {:induction false} FirstsLength(points: seq<Point>)
    ensures |Firsts(points)| == |points|
  {
    if points != [] {
      FirstsLength(points[..|points| - 1]);
    }
  }

  /** The visited values are exactly as many as the points. */
  lemma {:induction false} ValuesLength(series: seq<DataPoint>)
    ensures |Values(series)| == PointCount(series)
  {
    if series != [] {
      ValuesLength(series[..|series| - 1]);
      FirstsLength(series[|series| - 1].datapoints);
    }
  }

  /** A value of a sequence of points is the first component of one of them. */
  lemma {:induction false} FirstsAre(points: seq<Point>)
    ensures forall v :: v in Firsts(points) <==> exists j :: 0 <= j < |points| && v == points[j][0]
  {
    if points != [] {
      var init := points[..|points| - 1];
      FirstsAre(init);
      assert forall j :: 0 <= j < |init| ==> init[j] == points[j];
    }
  }

  /** The visited values are exactly the first components of the points. */
  lemma {:induction false} ValuesArePointValues(series: seq<DataPoint>)
    ensures forall v :: v in Values(series) <==>
      exists i, j :: 0 <= i < |series| && 0 <= j < |series[i].datapoints| && v == series[i].datapoints[j][0]
  {
    if series != [] {
      var init := series[..|series| - 1];
      var last := series[|series| - 1];
      ValuesArePointValues(init);
      FirstsAre(last.datapoints);
      assert forall i :: 0 <= i < |init| ==> init[i] == series[i];
      forall v | v in Values(series)
        ensures exists i, j :: 0 <= i < |series| && 0 <= j < |series[i].datapoints| && v == series[i].datapoints[j][0]
      {
        if v !in Values(init) {
          var j :| 0 <= j < |last.datapoints| && v == last.datapoints[j][0];
          assert v == series[|series| - 1].datapoints[j][0];
        }
      }
      forall i, j | 0 <= i < |series| && 0 <= j < |series[i].datapoints|
        ensures series[i].datapoints[j][0] in Values(series)
      {
        if i < |init| {
          assert init[i].datapoints[j][0] in Values(init);
        }
      }
    }
  }

  /** The sum over a concatenation is the sum of the sums. */
  lemma {:induction false} SumConcat(a: seq<real>, b: seq<real>)
    ensures Sum(a + b) == Sum(a) + Sum(b)
  {
    if b != [] {
      SumConcat(a, b[..|b| - 1]);
      assert (a + b)[..|a + b| - 1] == a + b[..|b| - 1];
    } else {
      assert a + b == a;
    }
  }

  /** The sums of the series one by one, added up. */
  function SeriesSums(series: seq<DataPoint>): real
  {
    if series == [] then 0.0
    else SeriesSums(series[..|series| - 1]) + Sum(Firsts(series[|series| - 1].datapoints))
  }

  /** The one running sum kept across all series equals the total of the
      per-series sums: pooling the series loses no value and counts none twice. */
  lemma {:induction false} RunningSumIsSumOfSeriesSums(series: seq<DataPoint>)
    ensures Sum(Values(series)) == SeriesSums(series)
  {
    if series != [] {
      var init := series[..|series| - 1];
      RunningSumIsSumOfSeriesSums(init);
      SumConcat(Values(init), Firsts(series[|series| - 1].datapoints));
    }
  }

  /** The reduction of a metric's series fails, with the no-data error and no
      record, exactly when there is no point at all. */
  lemma ReduceFailsIffNoPoints(series: seq<DataPoint>)
    ensures Reduce(Values(series)).Failure? <==> PointCount(series) == 0
    ensures Reduce(Values(series)).Failure? ==> Reduce(Values(series)).error == NoDataPoints
  {
    ValuesLength(series);
  }

  /** A successful reduction counts every point once, sums the value of every
      point, and its average is that sum spread over the count. */
  lemma ReduceCountsEveryPoint(series: seq<DataPoint>)
    requires PointCount(series) > 0
    ensures Reduce(Values(series)).Success?
    ensures Reduce(Values(series)).value.count == PointCount(series)
    ensures Reduce(Values(series)).value.sum == Sum(Values(series))
    ensures Reduce(Values(series)).value.average == Sum(Values(series)) / (PointCount(series) as real)
  {
    ValuesLength(series);
  }

  /** The maximum and minimum of a successful reduction bound the value of
      every point of every series. */
  lemma ReduceBoundsEveryPoint(series: seq<DataPoint>, i: nat, j: nat)
    requires i < |series| && j < |series[i].datapoints|
    ensures Reduce(Values(series)).Success?
    ensures Reduce(Values(series)).value.minimum <= series[i].datapoints[j][0] <= Reduce(Values(series)).value.maximum
  {
    var vs := Values(series);
    ValuesArePointValues(series);
    MaxIsAttainedBound(vs);
    MinIsAttainedBound(vs);
    var v := series[i].datapoints[j][0];
    assert v in vs;
    var k :| 0 <= k < |vs| && vs[k] == v;
  }

  /** The maximum and minimum of a successful reduction are the values of
      points that occur, not a seed such as zero. */
  lemma ReduceExtremesOccur(series: seq<DataPoint>)
    requires PointCount(series) > 0
    ensures Reduce(Values(series)).Success?
    ensures exists i, j :: (0 <= i < |series| && 0 <= j < |series[i].datapoints| &&
      Reduce(Values(series)).value.maximum == series[i].datapoints[j][0])
    ensures exists i, j :: (0 <= i < |series| && 0 <= j < |series[i].datapoints| &&
      Reduce(Values(series)).value.minimum == series[i].datapoints[j][0])
  {
    var vs := Values(series);
    ValuesLength(series);
    ValuesArePointValues(series);
    MaxIsAttainedBound(vs);
    MinIsAttainedBound(vs);
  }

  /** Seeding from the first value matters: when every value is negative, so
      is the maximum. */
  lemma AllNegativeHasNegativeMaximum(vs: seq<real>)
    requires |vs| > 0
    requires forall k :: 0 <= k < |vs| ==> vs[k] < 0.0
    ensures Reduce(vs).Success? && Reduce(vs).value.maximum < 0.0
  {
    MaxIsAttainedBound(vs);
  }

  /** No values give the no-data error; a single value is its own count-1 summary. */
  lemma ReduceSmallExamples()
    ensures Reduce([]) == Failure(NoDataPoints)
    ensures Reduce([5.0]) == Success(MetricStatistics(1, 5.0, 5.0, 5.0, 5.0))
  {
  }

  /** The summary of `1, 2, 3, 4`. */
  lemma ReduceOneToFour()
    ensures Reduce([1.0, 2.0, 3.0, 4.0]) == Success(MetricStatistics(4, 2.5, 10.0, 4.0, 1.0))
  {
    var vs := [1.0, 2.0, 3.0, 4.0];
    var a, b, c := [1.0], [1.0, 2.0], [1.0, 2.0, 3.0];
    assert Sum(a) == 1.0 && Max(a) == 1.0 && Min(a) == 1.0;
    Accumulate(a, 2.0);
    assert a + [2.0] == b;
    Accumulate(b, 3.0);
    assert b + [3.0] == c;
    Accumulate(c, 4.0);
    assert c + [4.0] == vs;
  }

  /** One step of the running accumulators: appending a value adds it to the
      sum, and replaces the maximum (minimum) only when strictly greater
      (smaller), or when it is the first value. */
  lemma Accumulate(seen: seq<real>, value: real)
    ensures Sum(seen + [value]) == Sum(seen) + value
    ensures Max(seen + [value]) == if |seen| == 0 || value > Max(seen) then value else Max(seen)
    ensures Min(seen + [value]) == if |seen| == 0 || value < Min(seen) then value else Min(seen)
  {
    assert (seen + [value])[..|seen|] == seen;
  }

  /** The values after one more point, following the values `before` it. */
  lemma NextPoint(before: seq<real>, points: seq<Point>, j: nat)
    requires j < |points|
    ensures before + Firsts(points[..j + 1]) == (before + Firsts(points[..j])) + [points[j][0]]
  {
    assert points[..j + 1][..j] == points[..j];
  }

  /** The values of one more series. */
  lemma NextSeries(series: seq<DataPoint>, i: nat)
    requires i < |series|
    ensures Values(series[..i + 1]) ==
      Values(series[..i]) + Firsts(series[i].datapoints[..|series[i].datapoints|])
  {
    assert series[..i + 1][..i] == series[..i];
    assert series[i].datapoints[..|series[i].datapoints|] == series[i].datapoints;
  }

  /** The running accumulators after visiting `seen`: the count of values,
      their sum, and (once a value was seen) their maximum and minimum. */
  predicate Tracks(seen: seq<real>, count: nat, sum: real, max: real, min: real)
  {
    && count == |seen|
    && sum == Sum(seen)
    && (count > 0 ==> max == Max(seen) && min == Min(seen))
  }

  /** One step of the loop body keeps the accumulators in step with the values
      visited. */
  lemma Step(seen: seq<real>, count: nat, sum: real, max: real, min: real, value: real)
    requires Tracks(seen, count, sum, max, min)
    ensures Tracks(seen + [value], count + 1, sum + value,
                   if count == 0 || value > max then value else max,
                   if count == 0 || value < min then value else min)
  {
    Accumulate(seen, value);
  }

  /** Accumulators in step with every value of every series hold the
      reduction of those values: the no-data error when the count is zero. */
  lemma Finish(series: seq<DataPoint>, count: nat, sum: real, max: real, min: real)
    requires Tracks(Values(series[..|series|]), count, sum, max, min)
    ensures Reduce(Values(series)) ==
      if count == 0 then Failure(NoDataPoints)
      else Success(MetricStatistics(count, sum / (count as real), sum, max, min))
  {
    assert series[..|series|] == series;
  }

  /** `calculateStatistics`: one pass over every point of every series,
      keeping a running count, sum, maximum and minimum; an error when no point
      was seen. */
  method CalculateStatistics(series: seq<DataPoint>) returns (r: Result<MetricStatistics>)
    ensures r == Reduce(Values(series))
  {
    var sum, max, min := 0.0, 0.0, 0.0;
    var count: nat := 0;
    ghost var seen: seq<real> := [];
    for i := 0 to |series|
      invariant seen == Values(series[..i])
      invariant Tracks(seen, count, sum, max, min)
    {
      var points := series[i].datapoints;
      ghost var done := seen;
      for j := 0 to |points|
        invariant seen == done + Firsts(points[..j])
        invariant Tracks(seen, count, sum, max, min)
      {
        var value := points[j][0];
        NextPoint(done, points, j);
        Step(seen, count, sum, max, min, value);
        sum := sum + value;
        if count == 0 || value > max {
          max := value;
        }
        if count == 0 || value < min {
          min := value;
        }
        count := count + 1;
        seen := seen + [value];
      }
      NextSeries(series, i);
    }
    Finish(series, count, sum, max, min);
    if count == 0 {
      return Failure(NoDataPoints);
    }
    var average := sum / (count as real);
    return Success(MetricStatistics(count, average, sum, max, min));
  }
}
