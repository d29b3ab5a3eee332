/** The chart's data: the entry list split into one `[date, kg]` series per
    person, each drawn with a fixed goal line. */
module WeightChart {
  import opened Entries
  import WeightsRoute

  /** The goal lines, in kg. */
  const ArymanGoal := 75
  const AmalGoal := 70

  /** One chart point, `[d.date, d.kg]`. */
  datatype Point = Point(date: Value, kg: Value)

  function PointOf(e: Entry): Point
  {
    Point(e.date, e.kg)
  }

  /** `data.filter(d => d.who === name).map(d => [d.date, d.kg])`. */
  function Series(data: seq<Entry>, name: string): (r: seq<Point>)
    ensures |r| <= |data|
  {
    if data == [] then []
    else (if data[0].who == Str(name) then [PointOf(data[0])] else []) + Series(data[1..], name)
  }

  /** One line of the chart: its person, its points and its goal. */
  datatype Line = Line(name: string, points: seq<Point>, goal: int)

  /** The two series of the chart, Aryman's then Amal's. */
  function Chart(data: seq<Entry>): (lines: seq<Line>)
    ensures |lines| == 2
    ensures lines[0].name == Aryman && lines[0].goal == ArymanGoal
    ensures lines[1].name == Amal && lines[1].goal == AmalGoal
    ensures lines[0].points == Series(data, Aryman) && lines[1].points == Series(data, Amal)
  {
    [Line(Aryman, Series(data, Aryman), ArymanGoal), Line(Amal, Series(data, Amal), AmalGoal)]
  }

  /** The goal lines do not depend on the data. */
  lemma GoalsIndependentOfData(a: seq<Entry>, b: seq<Entry>)
    ensures Chart(a)[0].goal == Chart(b)[0].goal == 75
    ensures Chart(a)[1].goal == Chart(b)[1].goal == 70
  {
  }

  /** The series of a concatenation is the concatenation of the series: no
      reordering and no aggregation. With the two cases below this fixes the
      series completely. */
  lemma {:induction false} SeriesAppend(a: seq<Entry>, b: seq<Entry>, name: string)
    ensures Series(a + b, name) == Series(a, name) + Series(b, name)
  {
    if a == [] {
      assert a + b == b;
    } else {
      var head := if a[0].who == Str(name) then [PointOf(a[0])] else [];
      assert (a + b)[0] == a[0];
      assert (a + b)[1..] == a[1..] + b;
      SeriesAppend(a[1..], b, name);
      assert Series(a + b, name) == head + Series(a[1..] + b, name);
      assert Series(a, name) == head + Series(a[1..], name);
    }
  }

  /** A single entry contributes its point exactly when its `who` is the name. */
  lemma SeriesSingle(e: Entry, name: string)
    ensures Series([e], name) == if e.who == Str(name) then [PointOf(e)] else []
  {
    assert [e][1..] == [];
  }

  /** The points of a series are exactly those of the entries with that `who`. */
  lemma {:induction false} SeriesMembership(data: seq<Entry>, name: string, p: Point)
    ensures p in Series(data, name) <==> exists i :: 0 <= i < |data| && data[i].who == Str(name) && PointOf(data[i]) == p
  {
    if data != [] {
      SeriesMembership(data[1..], name, p);
      if exists i :: 0 <= i < |data| && data[i].who == Str(name) && PointOf(data[i]) == p {
        var i :| 0 <= i < |data| && data[i].who == Str(name) && PointOf(data[i]) == p;
        if i > 0 {
          assert data[1..][i - 1] == data[i];
        }
      }
      if exists i :: 0 <= i < |data[1..]| && data[1..][i].who == Str(name) && PointOf(data[1..][i]) == p {
        var i :| 0 <= i < |data[1..]| && data[1..][i].who == Str(name) && PointOf(data[1..][i]) == p;
        assert data[i + 1] == data[1..][i];
      }
    }
  }

  /** The entries that are plotted: those whose `who` is one of the two names,
      each as often as it occurs in the input. */
  function Plotted(data: seq<Entry>): (r: seq<Entry>)
    ensures |r| <= |data|
    ensures forall e :: e in r ==> e in data && (e.who == Str(Aryman) || e.who == Str(Amal))
    ensures forall e :: e in data && (e.who == Str(Aryman) || e.who == Str(Amal)) ==> e in r
    ensures forall e: Entry :: e.who == Str(Aryman) || e.who == Str(Amal) ==> multiset(r)[e] == multiset(data)[e]
    ensures forall e: Entry :: e.who != Str(Aryman) && e.who != Str(Amal) ==> multiset(r)[e] == 0
  {
    if data == [] then []
    else
      assert data == [data[0]] + data[1..];
      (if data[0].who == Str(Aryman) || data[0].who == Str(Amal) then [data[0]] else []) + Plotted(data[1..])
  }

  /** Every plotted entry lands in exactly one series and nothing else does. */
  lemma {:induction false} SeriesLengths(data: seq<Entry>)
    ensures |Series(data, Aryman)| + |Series(data, Amal)| == |Plotted(data)|
  {
    if data != [] {
      SeriesLengths(data[1..]);
    }
  }

  /** Each point's date is no later than the next one's. */
  predicate PointsByDate(ps: seq<Point>)
  {
    forall i :: 0 < i < |ps| ==> WeightsRoute.DateLe(ps[i - 1].date, ps[i].date)
  }

  /** Fed the date-ordered listing that `GET` returns, each series is in date order. */
  lemma {:induction false} SeriesInDateOrder(data: seq<Entry>, name: string)
    requires WeightsRoute.SortedByDate(data)
    ensures PointsByDate(Series(data, name))
  {
    if data != [] {
      var rest := data[1..];
      assert WeightsRoute.SortedByDate(rest) by {
        forall i | 0 < i < |rest| ensures WeightsRoute.DateLe(rest[i - 1].date, rest[i].date) {
          assert rest[i - 1] == data[i] && rest[i] == data[i + 1];
        }
      }
      SeriesInDateOrder(rest, name);
      var s := Series(rest, name);
      if data[0].who == Str(name) {
        var all := Series(data, name);
        assert all == [PointOf(data[0])] + s;
        if s != [] {
          SeriesMembership(rest, name, s[0]);
          var j :| 0 <= j < |rest| && rest[j].who == Str(name) && PointOf(rest[j]) == s[0];
          assert rest[j] == data[j + 1];
          WeightsRoute.SortedByDateAllPairs(data, 0, j + 1);
          assert WeightsRoute.DateLe(all[0].date, all[1].date);
        }
        forall k | 1 < k < |all| ensures WeightsRoute.DateLe(all[k - 1].date, all[k].date) {
          assert all[k - 1] == s[k - 2] && all[k] == s[k - 1];
        }
      }
    }
  }
}
