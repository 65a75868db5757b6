/**
 * Delta bias correction of future degree-day projections against station climatologies.
 * Historical model output is averaged per (model, scenario) into a baseline; every future
 * value is then re-anchored from the model's own baseline to the observed station one:
 * corrected = observed + (projected - model baseline).
 */
module BiasCorrection {
  import opened Wrappers
  import opened Rounding
  import StationClimatology

  // ---------------------------------------------------------------- the metrics table

  /** The four degree-day metrics, in the order of the `metrics` table. */
  datatype Metric = Heating | FreezingIndex | ThawingIndex | BelowZero

  const Metrics: seq<Metric> := [Heating, FreezingIndex, ThawingIndex, BelowZero]

  /** The metric's key in the table (and in the degree-day API's paths). */
  function MetricKey(m: Metric): string
  {
    match m
    case Heating => "heating"
    case FreezingIndex => "freezing_index"
    case ThawingIndex => "thawing_index"
    case BelowZero => "below_zero"
  }

  /** The metric's label, the suffix of every climatology column for it. */
  function MetricLabel(m: Metric): string
  {
    match m
    case Heating => "Heating Degree Days Climatology"
    case FreezingIndex => "Air Freezing Index Climatology"
    case ThawingIndex => "Air Thawing Index Climatology"
    case BelowZero => "Degree Days Below 0F Climatology"
  }

  /** Stations with a shorter median record than this many years are dropped. */
  const WrccYearThreshold: int := 20

  /** The table lists every metric exactly once. */
  lemma MetricsListed()
    ensures forall m: Metric :: m in Metrics
    ensures forall i, j :: 0 <= i < j < |Metrics| ==> Metrics[i] != Metrics[j]
  {
    forall m: Metric ensures m in Metrics {
      match m
      case Heating => assert Metrics[0] == m;
      case FreezingIndex => assert Metrics[1] == m;
      case ThawingIndex => assert Metrics[2] == m;
      case BelowZero => assert Metrics[3] == m;
    }
  }

  /** No two metrics share a key or a label, so every column name below names one metric. */
  lemma MetricNamesDistinct(m1: Metric, m2: Metric)
    requires m1 != m2
    ensures MetricKey(m1) != MetricKey(m2)
    ensures MetricLabel(m1) != MetricLabel(m2)
  {
  }

  // ---------------------------------------------------------------- column names

  /** The observed station climatology column for a metric. */
  function WrccColumn(m: Metric): string
  {
    "WRCC " + MetricLabel(m)
  }

  /** The model climatology column `"<model> <scenario> <label>"`. */
  function ClimoColumn(model: string, scenario: string, m: Metric): (col: string)
    ensures |col| == |model| + |scenario| + |MetricLabel(m)| + 2
    ensures col[..|model| + 1] == model + " "
  {
    model + " " + scenario + " " + MetricLabel(m)
  }

  /** The column holding a metric's uncorrected projections. */
  function FutureColumn(m: Metric): string
  {
    "biased " + (MetricKey(m) + " futures")
  }

  /** The column the JSON writer and the reformatter read a metric's corrected projections from. */
  function CorrectedColumn(m: Metric): string
  {
    "bias corrected " + (MetricKey(m) + " futures")
  }

  /** The results-table column the station runner stores a metric's observed climatology in. */
  function RunnerColumn(m: Metric): StationClimatology.Column
  {
    match m
    case Heating => StationClimatology.HeatingCol
    case FreezingIndex => StationClimatology.FreezingIndexCol
    case ThawingIndex => StationClimatology.ThawingIndexCol
    case BelowZero => StationClimatology.BelowZeroCol
  }

  /** The observed climatology column the corrector reads is the one the station runner writes. */
  lemma WrccColumnIsRunnerColumn(m: Metric)
    ensures WrccColumn(m) == StationClimatology.ColumnName(RunnerColumn(m))
  {
    match m
    case Heating => HeatingColumnAgrees();
    case FreezingIndex => FreezingIndexColumnAgrees();
    case ThawingIndex => ThawingIndexColumnAgrees();
    case BelowZero => BelowZeroColumnAgrees();
  }

  lemma HeatingColumnAgrees()
    ensures WrccColumn(Heating) == StationClimatology.ColumnName(StationClimatology.HeatingCol)
  {
    assert "WRCC " + "Heating Degree Days Climatology" == "WRCC Heating Degree Days Climatology";
  }

  lemma FreezingIndexColumnAgrees()
    ensures WrccColumn(FreezingIndex) == StationClimatology.ColumnName(StationClimatology.FreezingIndexCol)
  {
    assert "WRCC " + "Air Freezing Index Climatology" == "WRCC Air Freezing Index Climatology";
  }

  lemma ThawingIndexColumnAgrees()
    ensures WrccColumn(ThawingIndex) == StationClimatology.ColumnName(StationClimatology.ThawingIndexCol)
  {
    assert "WRCC " + "Air Thawing Index Climatology" == "WRCC Air Thawing Index Climatology";
  }

  lemma BelowZeroColumnAgrees()
    ensures WrccColumn(BelowZero) == StationClimatology.ColumnName(StationClimatology.BelowZeroCol)
  {
    assert "WRCC " + "Degree Days Below 0F Climatology" == "WRCC Degree Days Below 0F Climatology";
  }

  /** Joining a space-free name, a space and any rest: the name and the rest can be read back. */
  lemma SpaceJoinInjective(m1: string, rest1: string, m2: string, rest2: string)
    requires ' ' !in m1 && ' ' !in m2
    requires m1 + " " + rest1 == m2 + " " + rest2
    ensures m1 == m2 && rest1 == rest2
  {
    var a := m1 + " " + rest1;
    var b := m2 + " " + rest2;
    assert a[|m1|] == ' ' && b[|m2|] == ' ';
    assert forall k :: 0 <= k < |m1| ==> a[k] == m1[k] != ' ';
    assert forall k :: 0 <= k < |m2| ==> b[k] == m2[k] != ' ';
    assert m1 == a[..|m1|];
    assert m2 == b[..|m2|];
    assert rest1 == a[|m1| + 1..];
    assert rest2 == b[|m2| + 1..];
  }

  /**
   * When model names contain no space, a climatology column name determines its model and
   * scenario, so distinct (model, scenario) pairs never share a column.
   */
  lemma ClimoColumnInjective(m1: string, s1: string, m2: string, s2: string, metric: Metric)
    requires ' ' !in m1 && ' ' !in m2
    requires ClimoColumn(m1, s1, metric) == ClimoColumn(m2, s2, metric)
    ensures m1 == m2 && s1 == s2
  {
    JoinedNamesInjective(m1, s1, m2, s2, MetricLabel(metric));
  }

  lemma JoinedNamesInjective(m1: string, s1: string, m2: string, s2: string, suffix: string)
    requires ' ' !in m1 && ' ' !in m2
    requires m1 + " " + s1 + " " + suffix == m2 + " " + s2 + " " + suffix
    ensures m1 == m2 && s1 == s2
  {
    var tail := " " + suffix;
    assert m1 + " " + s1 + " " + suffix == m1 + " " + (s1 + tail);
    assert m2 + " " + s2 + " " + suffix == m2 + " " + (s2 + tail);
    SpaceJoinInjective(m1, s1 + tail, m2, s2 + tail);
    SuffixCancels(s1, s2, tail);
  }

  lemma SuffixCancels(s1: string, s2: string, suffix: string)
    requires s1 + suffix == s2 + suffix
    ensures s1 == s2
  {
    assert s1 == (s1 + suffix)[..|s1|];
    assert s2 == (s2 + suffix)[..|s2|];
  }

  // ---------------------------------------------------------------- community lookup

  /** One entry of the community list: its name, coordinates and identifier. */
  datatype Community = Community(name: string, latitude: real, longitude: real, id: string)

  datatype Location = Location(latitude: real, longitude: real, id: string)

  /**
   * The coordinates and id of the first community whose name is exactly `communityName`;
   * None (the all-None triple) when no entry has that name.
   */
  method FetchLatLonId(communities: seq<Community>, communityName: string) returns (loc: Option<Location>)
    ensures loc.None? <==> forall i :: 0 <= i < |communities| ==> communities[i].name != communityName
    ensures loc.Some? ==> exists i ::
      && 0 <= i < |communities| && communities[i].name == communityName
      && (forall j :: 0 <= j < i ==> communities[j].name != communityName)
      && loc.value == Location(communities[i].latitude, communities[i].longitude, communities[i].id)
  {
    for i := 0 to |communities|
      invariant forall j :: 0 <= j < i ==> communities[j].name != communityName
    {
      var item := communities[i];
      if item.name == communityName {
        return Some(Location(item.latitude, item.longitude, item.id));
      }
    }
    return None;
  }

  // ---------------------------------------------------------------- nested projections

  /** One year's value in an API response: `{"dd": value}`. */
  datatype Leaf = Leaf(dd: real)

  /** The API's nesting: model, then scenario, then year. */
  type Nested<T> = map<string, map<string, map<string, T>>>

  // ---------------------------------------------------------------- model climatology

  /** The sum of `dd` over a scenario's years. */
  ghost function SumDd(years: map<string, Leaf>): real
    decreases |years|
  {
    if years == map[] then 0.0
    else
      var y :| y in years;
      assert |years - {y}| < |years| by {
        assert (years - {y}).Keys == years.Keys - {y};
      }
      years[y].dd + SumDd(years - {y})
  }

  /** The sum does not depend on which year is taken out first. */
  lemma {:induction false} SumDdRemove(years: map<string, Leaf>, y: string)
    requires y in years
    ensures SumDd(years) == years[y].dd + SumDd(years - {y})
    decreases |years|
  {
    var z :| z in years && SumDd(years) == years[z].dd + SumDd(years - {z});
    if z != y {
      assert (years - {z}).Keys == years.Keys - {z};
      assert (years - {y}).Keys == years.Keys - {y};
      SumDdRemove(years - {z}, y);
      SumDdRemove(years - {y}, z);
      assert years - {z} - {y} == years - {y} - {z};
    }
  }

  /** Raising some years' values (over the same years) never lowers the sum. */
  lemma {:induction false} SumDdMonotone(low: map<string, Leaf>, high: map<string, Leaf>)
    requires low.Keys == high.Keys
    requires forall y :: y in low ==> low[y].dd <= high[y].dd
    ensures SumDd(low) <= SumDd(high)
    decreases |low|
  {
    if low != map[] {
      var y :| y in low;
      SumDdRemove(low, y);
      SumDdRemove(high, y);
      assert (low - {y}).Keys == low.Keys - {y};
      assert (high - {y}).Keys == high.Keys - {y};
      SumDdMonotone(low - {y}, high - {y});
    }
  }

  /** A (model, scenario) baseline: the mean of `dd` over its years, rounded half to even. */
  ghost function Climatology(years: map<string, Leaf>): int
    requires years != map[]
  {
    RoundHalfEven(SumDd(years) / |years| as real)
  }

  /** Dividing by the same positive count keeps the order of two sums. */
  lemma DivideMonotone(a: real, b: real, n: real)
    requires a <= b && n > 0.0
    ensures a / n <= b / n
  {
    assert b / n - a / n == (b - a) / n;
  }

  /** Over the same years, pointwise higher values never give a lower baseline. */
  lemma ClimatologyMonotone(low: map<string, Leaf>, high: map<string, Leaf>)
    requires low != map[] && low.Keys == high.Keys
    requires forall y :: y in low ==> low[y].dd <= high[y].dd
    ensures Climatology(low) <= Climatology(high)
  {
    SumDdMonotone(low, high);
    assert |low| == |high| by {
      assert |low.Keys| == |high.Keys|;
    }
    var n := |low| as real;
    assert n > 0.0 by {
      var y :| y in low;
    }
    DivideMonotone(SumDd(low), SumDd(high), n);
    RoundHalfEvenMonotone(SumDd(low) / n, SumDd(high) / n);
  }

  /** Averaging a scenario with no years divides by zero. */
  datatype ClimoError = ZeroDivision(model: string, scenario: string)

  /** Visiting one more year adds its `dd` to the sum over the visited years and one to their count. */
  lemma VisitYear(years: map<string, Leaf>, pending: set<string>, year: string)
    requires pending <= years.Keys && year in pending
    ensures SumDd(years - (pending - {year})) == SumDd(years - pending) + years[year].dd
    ensures |years.Keys - (pending - {year})| == |years.Keys - pending| + 1
  {
    var after := years - (pending - {year});
    assert after - {year} == years - pending;
    SumDdRemove(after, year);
    assert years.Keys - (pending - {year}) == (years.Keys - pending) + {year};
  }

  /** The year loop of the averaging: the running total of `dd` and the number of years. */
  method SumYears(years: map<string, Leaf>) returns (total: real, count: int)
    ensures total == SumDd(years)
    ensures count == |years|
  {
    total := 0.0;
    count := 0;
    var pending := years.Keys;
    while pending != {}
      invariant pending <= years.Keys
      invariant total == SumDd(years - pending)
      invariant count == |years.Keys - pending|
      decreases pending
    {
      var year :| year in pending;
      VisitYear(years, pending, year);
      total := total + years[year].dd;
      count := count + 1;
      pending := pending - {year};
    }
    assert years - {} == years;
    assert |years.Keys| == |years|;
  }

  /** `v` under column `k` is the baseline of (model, scenario), which names that column. */
  ghost predicate Produced(historical: Nested<Leaf>, metric: Metric, model: string, scenario: string, k: string, v: int)
  {
    && model in historical && scenario in historical[model]
    && historical[model][scenario] != map[]
    && k == ClimoColumn(model, scenario, metric)
    && v == Climatology(historical[model][scenario])
  }

  /** Every (model, scenario) of `historical` has at least one year. */
  ghost predicate NoEmptyScenario(historical: Nested<Leaf>)
  {
    forall model, scenario :: model in historical && scenario in historical[model] ==> historical[model][scenario] != map[]
  }

  /**
   * The averaging loop: one baseline column per (model, scenario). A scenario without years
   * raises a division by zero. Entries whose column names collide keep one of their values.
   */
  method HistoricalClimatologies(historical: Nested<Leaf>, metric: Metric) returns (r: Result<map<string, int>, ClimoError>)
    ensures r.Failure? <==> !NoEmptyScenario(historical)
    ensures r.Failure? ==>
      && r.error.model in historical && r.error.scenario in historical[r.error.model]
      && historical[r.error.model][r.error.scenario] == map[]
    ensures r.Success? ==> forall model, scenario :: model in historical && scenario in historical[model] ==>
      ClimoColumn(model, scenario, metric) in r.value
    ensures r.Success? ==> forall k :: k in r.value ==>
      exists model, scenario :: Produced(historical, metric, model, scenario, k, r.value[k])
    ensures r.Success? && (forall model :: model in historical ==> ' ' !in model) ==>
      forall model, scenario :: model in historical && scenario in historical[model] ==>
        r.value[ClimoColumn(model, scenario, metric)] == Climatology(historical[model][scenario])
  {
    var climos: map<string, int> := map[];
    ghost var done: set<(string, string)> := {};
    var models := historical.Keys;
    while models != {}
      invariant models <= historical.Keys
      invariant forall model, scenario :: model in historical && model !in models && scenario in historical[model] ==> (model, scenario) in done
      invariant forall p :: p in done ==> p.0 in historical && p.1 in historical[p.0] && historical[p.0][p.1] != map[] && ClimoColumn(p.0, p.1, metric) in climos
      invariant forall k :: k in climos ==> exists p :: p in done && Produced(historical, metric, p.0, p.1, k, climos[k])
      decreases models
    {
      var model :| model in models;
      var scenarios := historical[model];
      var remaining := scenarios.Keys;
      while remaining != {}
        invariant remaining <= scenarios.Keys
        invariant forall m, scenario :: m in historical && m !in models && scenario in historical[m] ==> (m, scenario) in done
        invariant forall scenario :: scenario in scenarios && scenario !in remaining ==> (model, scenario) in done
        invariant forall p :: p in done ==> p.0 in historical && p.1 in historical[p.0] && historical[p.0][p.1] != map[] && ClimoColumn(p.0, p.1, metric) in climos
        invariant forall k :: k in climos ==> exists p :: p in done && Produced(historical, metric, p.0, p.1, k, climos[k])
        decreases remaining
      {
        var scenario :| scenario in remaining;
        var years := scenarios[scenario];
        var total, count := SumYears(years);
        if count == 0 {
          assert years == map[];
          return Failure(ZeroDivision(model, scenario));
        }
        var key := ClimoColumn(model, scenario, metric);
        var value := RoundHalfEven(total / count as real);
        assert Produced(historical, metric, model, scenario, key, value);
        StoreKeepsProduced(historical, metric, climos, done, model, scenario, key, value,
                           climos[key := value], done + {(model, scenario)});
        climos := climos[key := value];
        done := done + {(model, scenario)};
        remaining := remaining - {scenario};
      }
      models := models - {model};
    }
    r := Success(climos);
    ProducedColumns(historical, metric, climos, done);
  }

  /** Storing the baseline of one more (model, scenario) keeps every column accounted for. */
  lemma StoreKeepsProduced(historical: Nested<Leaf>, metric: Metric, climos: map<string, int>, done: set<(string, string)>,
                           model: string, scenario: string, key: string, value: int,
                           climos': map<string, int>, done': set<(string, string)>)
    requires Produced(historical, metric, model, scenario, key, value)
    requires forall k :: k in climos ==> exists p :: p in done && Produced(historical, metric, p.0, p.1, k, climos[k])
    requires climos' == climos[key := value] && done' == done + {(model, scenario)}
    ensures forall k :: k in climos' ==> exists p :: p in done' && Produced(historical, metric, p.0, p.1, k, climos'[k])
  {
    forall k | k in climos'
      ensures exists p :: p in done' && Produced(historical, metric, p.0, p.1, k, climos'[k])
    {
      if k == key {
        assert (model, scenario) in done';
      } else {
        var p :| p in done && Produced(historical, metric, p.0, p.1, k, climos[k]);
        assert p in done';
      }
    }
  }

  /**
   * Every stored column holds the baseline of some (model, scenario) that names it; with
   * space-free model names that pair is unique, so each column holds its own pair's baseline.
   */
  lemma ProducedColumns(historical: Nested<Leaf>, metric: Metric, climos: map<string, int>, done: set<(string, string)>)
    requires NoEmptyScenario(historical)
    requires forall model, scenario :: model in historical && scenario in historical[model] ==> ClimoColumn(model, scenario, metric) in climos
    requires forall k :: k in climos ==> exists p :: p in done && Produced(historical, metric, p.0, p.1, k, climos[k])
    ensures forall k :: k in climos ==> exists model, scenario :: Produced(historical, metric, model, scenario, k, climos[k])
    ensures (forall model :: model in historical ==> ' ' !in model) ==>
      forall model, scenario :: model in historical && scenario in historical[model] ==>
        climos[ClimoColumn(model, scenario, metric)] == Climatology(historical[model][scenario])
  {
    forall k | k in climos
      ensures exists model, scenario :: Produced(historical, metric, model, scenario, k, climos[k])
    {
      var p :| p in done && Produced(historical, metric, p.0, p.1, k, climos[k]);
    }
    if forall model :: model in historical ==> ' ' !in model {
      forall model, scenario | model in historical && scenario in historical[model]
        ensures climos[ClimoColumn(model, scenario, metric)] == Climatology(historical[model][scenario])
      {
        var k := ClimoColumn(model, scenario, metric);
        var p :| p in done && Produced(historical, metric, p.0, p.1, k, climos[k]);
        ClimoColumnInjective(p.0, p.1, model, scenario, metric);
        assert p == (model, scenario);
      }
    }
  }

  // ---------------------------------------------------------------- delta correction

  /**
   * A cell of a pandas table, as the correction reads it: a number, or NaN. pandas keeps a table
   * rectangular, so a row with no value in a column that the table has holds NaN there.
   */
  datatype Float = Num(v: real) | NaN

  /** The climatology columns one station row has a value in: observed and per (model, scenario). */
  type ClimoRow = map<string, real>

  /** The cell of `row` in a column of the table: its value, or NaN when the row has none. */
  function CellOf(row: ClimoRow, column: string): (r: Float)
    ensures r.Num? <==> column in row
    ensures r.Num? ==> r.v == row[column]
  {
    if column in row then Num(row[column]) else NaN
  }

  /**
   * `wrcc_climo + (dd - model_scenario_climo)` in floating point: NaN when either baseline is NaN,
   * and otherwise the projected value moved by the observed-minus-model offset.
   */
  function Offset(observed: Float, dd: real, baseline: Float): (r: Float)
    ensures r.Num? <==> observed.Num? && baseline.Num?
    ensures r.Num? ==> r.v - dd == observed.v - baseline.v
  {
    if observed.Num? && baseline.Num? then Num(observed.v + (dd - baseline.v)) else NaN
  }

  /** Every (model, scenario) of the projection has its baseline column in the table. */
  ghost predicate BaselinesPresent(columns: set<string>, metric: Metric, projection: Nested<Leaf>)
  {
    forall model, scenario :: model in projection && scenario in projection[model] ==> ClimoColumn(model, scenario, metric) in columns
  }

  /**
   * `out` has exactly the (model, scenario, year) keys of `projection`, and each of its leaves is
   * the projected value offset by the station row's baseline cell for its (model, scenario).
   */
  ghost predicate IsCorrection(observed: Float, climoRow: ClimoRow, metric: Metric, projection: Nested<Leaf>, out: Nested<Float>)
  {
    && out.Keys == projection.Keys
    && (forall model :: model in projection ==> out[model].Keys == projection[model].Keys)
    && (forall model, scenario :: model in projection && scenario in projection[model] ==>
          out[model][scenario].Keys == projection[model][scenario].Keys)
    && (forall model, scenario, year :: model in projection && scenario in projection[model] && year in projection[model][scenario] ==>
          out[model][scenario][year] == Offset(observed, projection[model][scenario][year].dd, CellOf(climoRow, ClimoColumn(model, scenario, metric))))
  }

  /** A `KeyError` from a table lookup: the row and the column that were asked for. */
  datatype LookupError =
    | MissingClimatology(row: int, column: string)
    | MissingProjection(row: int, column: string)

  /** The innermost loop: every year of one (model, scenario) re-anchored to the observed baseline. */
  method CorrectYears(observed: Float, baseline: Float, years: map<string, Leaf>) returns (corrected: map<string, Float>)
    ensures corrected.Keys == years.Keys
    ensures forall year :: year in years ==> corrected[year] == Offset(observed, years[year].dd, baseline)
  {
    corrected := map[];
    var pending := years.Keys;
    while pending != {}
      invariant pending <= years.Keys
      invariant corrected.Keys == years.Keys - pending
      invariant forall year :: year in corrected ==> corrected[year] == Offset(observed, years[year].dd, baseline)
      decreases pending
    {
      var year :| year in pending;
      var correctedValue := Offset(observed, years[year].dd, baseline);
      corrected := corrected[year := correctedValue];
      pending := pending - {year};
    }
  }

  /**
   * The scenario loop of one model: look up each scenario's baseline, then correct its years.
   * Only a column missing from the whole table raises; a missing cell of this row is NaN.
   */
  method CorrectScenarios(observed: Float, columns: set<string>, climoRow: ClimoRow, metric: Metric, index: int,
                          model: string, scenarios: map<string, map<string, Leaf>>)
    returns (r: Result<map<string, map<string, Float>>, LookupError>)
    ensures r.Failure? <==> exists scenario :: scenario in scenarios && ClimoColumn(model, scenario, metric) !in columns
    ensures r.Failure? ==> exists scenario ::
      && scenario in scenarios
      && r.error == MissingClimatology(index, ClimoColumn(model, scenario, metric))
      && ClimoColumn(model, scenario, metric) !in columns
    ensures r.Success? ==> r.value.Keys == scenarios.Keys
    ensures r.Success? ==> forall scenario :: scenario in scenarios ==> r.value[scenario].Keys == scenarios[scenario].Keys
    ensures r.Success? ==> forall scenario, year :: scenario in scenarios && year in scenarios[scenario] ==>
      r.value[scenario][year] == Offset(observed, scenarios[scenario][year].dd, CellOf(climoRow, ClimoColumn(model, scenario, metric)))
  {
    var out: map<string, map<string, Float>> := map[];
    var remaining := scenarios.Keys;
    while remaining != {}
      invariant remaining <= scenarios.Keys
      invariant out.Keys == scenarios.Keys - remaining
      invariant forall scenario :: scenario in out ==> ClimoColumn(model, scenario, metric) in columns
      invariant forall scenario :: scenario in out ==> out[scenario].Keys == scenarios[scenario].Keys
      invariant forall scenario, year :: scenario in out && year in scenarios[scenario] ==>
        out[scenario][year] == Offset(observed, scenarios[scenario][year].dd, CellOf(climoRow, ClimoColumn(model, scenario, metric)))
      decreases remaining
    {
      var scenario :| scenario in remaining;
      var column := ClimoColumn(model, scenario, metric);
      if column !in columns {
        return Failure(MissingClimatology(index, column));
      }
      var corrected := CorrectYears(observed, CellOf(climoRow, column), scenarios[scenario]);
      out := out[scenario := corrected];
      remaining := remaining - {scenario};
    }
    r := Success(out);
  }

  /** The model loop of one station and metric: the whole projection corrected, or the first missing baseline column. */
  method CorrectModels(observed: Float, columns: set<string>, climoRow: ClimoRow, metric: Metric, index: int, projection: Nested<Leaf>)
    returns (r: Result<Nested<Float>, LookupError>)
    ensures r.Failure? <==> !BaselinesPresent(columns, metric, projection)
    ensures r.Failure? ==> exists model, scenario ::
      && model in projection && scenario in projection[model]
      && r.error == MissingClimatology(index, ClimoColumn(model, scenario, metric))
      && ClimoColumn(model, scenario, metric) !in columns
    ensures r.Success? ==> IsCorrection(observed, climoRow, metric, projection, r.value)
  {
    var out: Nested<Float> := map[];
    var remaining := projection.Keys;
    while remaining != {}
      invariant remaining <= projection.Keys
      invariant out.Keys == projection.Keys - remaining
      invariant forall model, scenario :: model in out && scenario in projection[model] ==> ClimoColumn(model, scenario, metric) in columns
      invariant forall model :: model in out ==> out[model].Keys == projection[model].Keys
      invariant forall model, scenario :: model in out && scenario in projection[model] ==>
        out[model][scenario].Keys == projection[model][scenario].Keys
      invariant forall model, scenario, year :: model in out && scenario in projection[model] && year in projection[model][scenario] ==>
        out[model][scenario][year] == Offset(observed, projection[model][scenario][year].dd, CellOf(climoRow, ClimoColumn(model, scenario, metric)))
      decreases remaining
    {
      var model :| model in remaining;
      var corrected := CorrectScenarios(observed, columns, climoRow, metric, index, model, projection[model]);
      if corrected.Failure? {
        return Failure(corrected.error);
      }
      out := out[model := corrected.value];
      remaining := remaining - {model};
    }
    r := Success(out);
  }

  /**
   * The observed climatologies table: the columns of the whole table, and per station index the
   * cells that row has a value in. A row without a value in one of `columns` holds NaN there.
   */
  datatype ClimoTable = ClimoTable(columns: set<string>, rows: map<int, ClimoRow>)

  /** The future projections table: per station index, the nested projection of each `biased ... futures` column. */
  type FutureTable = map<int, map<string, Nested<Leaf>>>

  /** One station's corrected projections, per metric. */
  type CorrectedRow = map<Metric, Nested<Float>>

  /** A station row can be corrected for a metric: every lookup the correction makes succeeds. */
  ghost predicate Correctable(climo: ClimoTable, future: FutureTable, index: int, metric: Metric)
  {
    && index in future
    && index in climo.rows
    && WrccColumn(metric) in climo.columns
    && FutureColumn(metric) in future[index]
    && BaselinesPresent(climo.columns, metric, future[index][FutureColumn(metric)])
  }

  /** The station's corrected projection for `metric` is `out`. */
  ghost predicate CorrectedAt(climo: ClimoTable, future: FutureTable, index: int, metric: Metric, out: Nested<Float>)
  {
    && Correctable(climo, future, index, metric)
    && IsCorrection(CellOf(climo.rows[index], WrccColumn(metric)), climo.rows[index], metric, future[index][FutureColumn(metric)], out)
  }

  /** The error names a lookup that genuinely misses: a row, or a column of the whole table. */
  ghost predicate GenuineError(climo: ClimoTable, future: FutureTable, e: LookupError)
  {
    match e
    case MissingClimatology(row, column) => row in future && (row !in climo.rows || column !in climo.columns)
    case MissingProjection(row, column) => row in future && column !in future[row]
  }

  /** A set of station indices is empty or has a member (set extensionality, spelled out for integers). */
  lemma EmptyOrHasMember(s: set<int>)
    ensures s == {} || exists x :: x in s
  {
    if !exists x :: x in s {
      assert s == {};
    }
  }

  /** The row loop for one metric: each station's observed baseline, projection, and corrected projection. */
  method CorrectMetric(climo: ClimoTable, future: FutureTable, metric: Metric) returns (r: Result<map<int, Nested<Float>>, LookupError>)
    ensures r.Failure? <==> exists index :: index in future && !Correctable(climo, future, index, metric)
    ensures r.Failure? ==> GenuineError(climo, future, r.error)
    ensures r.Success? ==> r.value.Keys == future.Keys
    ensures r.Success? ==> forall index :: index in future ==> CorrectedAt(climo, future, index, metric, r.value[index])
  {
    var column: map<int, Nested<Float>> := map[];
    var pending := future.Keys;
    while pending != {}
      invariant pending <= future.Keys
      invariant column.Keys == future.Keys - pending
      invariant forall index :: index in column ==> CorrectedAt(climo, future, index, metric, column[index])
      decreases pending
    {
      EmptyOrHasMember(pending);
      var index :| index in pending;
      assert index in future;
      if index !in climo.rows || WrccColumn(metric) !in climo.columns {
        assert !Correctable(climo, future, index, metric);
        return Failure(MissingClimatology(index, WrccColumn(metric)));
      }
      var wrccClimo := CellOf(climo.rows[index], WrccColumn(metric));
      if FutureColumn(metric) !in future[index] {
        assert !Correctable(climo, future, index, metric);
        return Failure(MissingProjection(index, FutureColumn(metric)));
      }
      var corrected := CorrectModels(wrccClimo, climo.columns, climo.rows[index], metric, index, future[index][FutureColumn(metric)]);
      if corrected.Failure? {
        assert !Correctable(climo, future, index, metric);
        return Failure(corrected.error);
      }
      column := column[index := corrected.value];
      pending := pending - {index};
    }
    assert forall index :: index in future ==> index in column;
    r := Success(column);
  }

  /**
   * Storing one more metric's column into every station row keeps the metrics stored so far
   * and adds the new one, for any property `P` of a stored value.
   */
  lemma MergePreserves<M>(P: (int, M, Nested<Float>) -> bool, rows: map<int, map<M, Nested<Float>>>, metric: M, column: map<int, Nested<Float>>, done: seq<M>)
    requires rows.Keys <= column.Keys
    requires forall index, m :: index in rows && m in done ==> m in rows[index] && P(index, m, rows[index][m])
    requires forall index :: index in rows ==> P(index, metric, column[index])
    ensures var merged := map index | index in rows :: rows[index][metric := column[index]];
      forall index, m :: index in merged && m in done + [metric] ==> m in merged[index] && P(index, m, merged[index][m])
  {
  }

  /**
   * `bias_correct_future_projections`: every metric of the table, every station row, every
   * (model, scenario, year) leaf corrected. Any failed lookup raises and ends the whole run.
   */
  method BiasCorrectFutureProjections(climo: ClimoTable, future: FutureTable) returns (r: Result<map<int, CorrectedRow>, LookupError>)
    ensures r.Failure? <==> exists metric: Metric, index :: index in future && !Correctable(climo, future, index, metric)
    ensures r.Failure? ==> GenuineError(climo, future, r.error)
    ensures r.Success? ==> r.value.Keys == future.Keys
    ensures r.Success? ==> forall index :: index in r.value ==> forall metric: Metric :: metric in r.value[index]
    ensures r.Success? ==> forall index, metric: Metric :: index in future ==> CorrectedAt(climo, future, index, metric, r.value[index][metric])
  {
    MetricsListed();
    var out: map<int, CorrectedRow> := map index | index in future :: map[];
    for i := 0 to |Metrics|
      invariant out.Keys == future.Keys
      invariant forall index, metric :: index in out && metric in Metrics[..i] ==>
        metric in out[index] && CorrectedAt(climo, future, index, metric, out[index][metric])
    {
      var metric := Metrics[i];
      var column := CorrectMetric(climo, future, metric);
      if column.Failure? {
        ghost var bad :| bad in future && !Correctable(climo, future, bad, metric);
        assert exists m: Metric, index :: index in future && !Correctable(climo, future, index, m);
        return Failure(column.error);
      }
      MergePreserves((index, m, v) => CorrectedAt(climo, future, index, m, v), out, metric, column.value, Metrics[..i]);
      assert Metrics[..i + 1] == Metrics[..i] + [metric];
      out := map index | index in out :: out[index][metric := column.value[index]];
    }
    assert Metrics[..|Metrics|] == Metrics;
    forall index, metric: Metric | index in future
      ensures metric in out[index] && CorrectedAt(climo, future, index, metric, out[index][metric])
      ensures Correctable(climo, future, index, metric)
    {
      assert metric in Metrics[..|Metrics|];
    }
    r := Success(out);
  }

  /**
   * A station whose row has no value in a baseline column that other stations have does not
   * raise: every year of that (model, scenario) comes out NaN.
   */
  lemma MissingBaselineCellGivesNaN(climo: ClimoTable, future: FutureTable, index: int, metric: Metric, out: Nested<Float>,
                                    model: string, scenario: string, year: string)
    requires CorrectedAt(climo, future, index, metric, out)
    requires model in future[index][FutureColumn(metric)] && scenario in future[index][FutureColumn(metric)][model]
    requires year in future[index][FutureColumn(metric)][model][scenario]
    requires ClimoColumn(model, scenario, metric) !in climo.rows[index]
    ensures ClimoColumn(model, scenario, metric) in climo.columns
    ensures out[model][scenario][year] == NaN
  {
  }

  /** Corrections with equal observed and model baselines leave every projected value as it was. */
  lemma ZeroOffsetIsIdentity(observed: real, climoRow: ClimoRow, metric: Metric, projection: Nested<Leaf>, out: Nested<Float>)
    requires IsCorrection(Num(observed), climoRow, metric, projection, out)
    requires forall model, scenario :: model in projection && scenario in projection[model] ==>
      ClimoColumn(model, scenario, metric) in climoRow && climoRow[ClimoColumn(model, scenario, metric)] == observed
    ensures forall model, scenario, year :: model in projection && scenario in projection[model] && year in projection[model][scenario] ==>
      out[model][scenario][year] == Num(projection[model][scenario][year].dd)
  {
  }

  /** Where both baselines are numbers, the correction keeps each model's projected change between any two years. */
  lemma CorrectionKeepsTrend(observed: real, climoRow: ClimoRow, metric: Metric, projection: Nested<Leaf>, out: Nested<Float>,
                             model: string, scenario: string, y1: string, y2: string)
    requires IsCorrection(Num(observed), climoRow, metric, projection, out)
    requires model in projection && scenario in projection[model]
    requires y1 in projection[model][scenario] && y2 in projection[model][scenario]
    requires ClimoColumn(model, scenario, metric) in climoRow
    ensures out[model][scenario][y1].Num? && out[model][scenario][y2].Num?
    ensures out[model][scenario][y1].v - out[model][scenario][y2].v
         == projection[model][scenario][y1].dd - projection[model][scenario][y2].dd
  {
  }

  /**
   * Nothing clamps the corrected value: an observed baseline of 10 against a model baseline of 80
   * turns a projected 0 into -70.
   */
  lemma CorrectionIsNotFloored(climoRow: ClimoRow, metric: Metric, projection: Nested<Leaf>, out: Nested<Float>,
                               model: string, scenario: string, year: string)
    requires IsCorrection(Num(10.0), climoRow, metric, projection, out)
    requires model in projection && scenario in projection[model] && year in projection[model][scenario]
    requires projection[model][scenario][year].dd == 0.0
    requires ClimoColumn(model, scenario, metric) in climoRow && climoRow[ClimoColumn(model, scenario, metric)] == 80.0
    ensures out[model][scenario][year] == Num(-70.0)
  {
  }

  // ---------------------------------------------------------------- column rename

  /** `pattern` starts at position `i` of `s`. */
  predicate OccursAt(s: string, pattern: string, i: int)
  {
    0 <= i <= |s| - |pattern| && s[i..i + |pattern|] == pattern
  }

  ghost predicate Occurs(s: string, pattern: string)
  {
    exists i :: OccursAt(s, pattern, i)
  }

  /** An occurrence in the tail is an occurrence in the whole string. */
  lemma OccursInTail(s: string, pattern: string)
    requires s != []
    ensures Occurs(s[1..], pattern) ==> Occurs(s, pattern)
  {
    if Occurs(s[1..], pattern) {
      var i :| OccursAt(s[1..], pattern, i);
      assert s[1..][i..i + |pattern|] == s[i + 1..i + 1 + |pattern|];
      assert OccursAt(s, pattern, i + 1);
    }
  }

  /**
   * Python's `str.replace`: every non-overlapping occurrence of `pattern`, left to right. A string
   * without the pattern is returned as it is, and a replacement no shorter than the pattern never
   * shortens the string.
   */
  function ReplaceAll(s: string, pattern: string, replacement: string): (r: string)
    requires pattern != []
    ensures !Occurs(s, pattern) ==> r == s
    ensures |pattern| <= |replacement| ==> |s| <= |r|
    ensures |pattern| == |replacement| ==> |r| == |s|
    decreases |s|
  {
    if |s| < |pattern| then s
    else if s[..|pattern|] == pattern then
      assert OccursAt(s, pattern, 0);
      replacement + ReplaceAll(s[|pattern|..], pattern, replacement)
    else
      OccursInTail(s, pattern);
      [s[0]] + ReplaceAll(s[1..], pattern, replacement)
  }

  /** A string without the pattern's first character is left as it is. */
  lemma {:induction false} ReplaceAllWithoutFirstChar(s: string, pattern: string, replacement: string)
    requires pattern != [] && pattern[0] !in s
    ensures ReplaceAll(s, pattern, replacement) == s
  {
    if |s| >= |pattern| {
      assert s[..|pattern|][0] == s[0];
      ReplaceAllWithoutFirstChar(s[1..], pattern, replacement);
    }
  }

  /** A leading occurrence followed by a rest the replacement leaves alone: only the occurrence changes. */
  lemma ReplaceLeadingOnly(pattern: string, rest: string, replacement: string)
    requires pattern != []
    requires ReplaceAll(rest, pattern, replacement) == rest
    ensures ReplaceAll(pattern + rest, pattern, replacement) == replacement + rest
  {
    ReplaceAllLeading(pattern, rest, replacement);
  }

  /** A leading occurrence is replaced and the scan resumes after it. */
  lemma ReplaceAllLeading(pattern: string, rest: string, replacement: string)
    requires pattern != []
    ensures ReplaceAll(pattern + rest, pattern, replacement) == replacement + ReplaceAll(rest, pattern, replacement)
  {
    assert (pattern + rest)[..|pattern|] == pattern;
    assert (pattern + rest)[|pattern|..] == rest;
  }

  /**
   * The rename applied to every column name, replacing each `"biased "` with `replacement`: names
   * without `"biased "` are kept, and a replacement at least as long as the pattern shortens no name.
   */
  function Rename(col: string, replacement: string): (r: string)
    ensures !Occurs(col, "biased ") ==> r == col
    ensures |"biased "| <= |replacement| ==> |col| <= |r|
  {
    ReplaceAll(col, "biased ", replacement)
  }

  /** The replacement the source uses. */
  const AsWrittenReplacement: string := "bias_corrected"

  /** The replacement that the JSON writer's column names call for. */
  const IntendedReplacement: string := "bias corrected "

  /** The metric's key followed by " futures" holds no occurrence of the pattern. */
  lemma FuturesSuffixUntouched(m: Metric, replacement: string)
    ensures ReplaceAll(MetricKey(m) + " futures", "biased ", replacement) == MetricKey(m) + " futures"
  {
    var s := MetricKey(m) + " futures";
    if m == BelowZero {
      assert s[..7] != "biased " by { assert s[1] == 'e'; }
      assert s[1..] == "elow_zero futures";
      ReplaceAllWithoutFirstChar(s[1..], "biased ", replacement);
    } else {
      ReplaceAllWithoutFirstChar(s, "biased ", replacement);
    }
  }

  /** As written, a projection column is renamed to `"bias_corrected<key> futures"`, with no space. */
  lemma RenamedFutureColumn(m: Metric)
    ensures Rename(FutureColumn(m), AsWrittenReplacement) == "bias_corrected" + (MetricKey(m) + " futures")
  {
    FuturesSuffixUntouched(m, AsWrittenReplacement);
    ReplaceLeadingOnly("biased ", MetricKey(m) + " futures", AsWrittenReplacement);
  }

  /** As written, the renamed column is not the one the JSON writer selects, so that selection raises. */
  lemma RenamedColumnMissesWriter(m: Metric)
    ensures Rename(FutureColumn(m), AsWrittenReplacement) != CorrectedColumn(m)
  {
    RenamedFutureColumn(m);
    var renamed := Rename(FutureColumn(m), AsWrittenReplacement);
    assert renamed[4] == '_' && CorrectedColumn(m)[4] == ' ';
  }

  /** With the intended replacement, the renamed column is exactly the one the writer and the reformatter read. */
  lemma IntendedRenameMatchesWriter(m: Metric)
    ensures Rename(FutureColumn(m), IntendedReplacement) == CorrectedColumn(m)
  {
    FuturesSuffixUntouched(m, IntendedReplacement);
    ReplaceLeadingOnly("biased ", MetricKey(m) + " futures", IntendedReplacement);
  }

  /** Columns without a 'b' (the names, ids and coordinates) keep their names. */
  lemma OtherColumnsKeepNames(col: string)
    requires 'b' !in col
    ensures Rename(col, AsWrittenReplacement) == col && Rename(col, IntendedReplacement) == col
  {
    ReplaceAllWithoutFirstChar(col, "biased ", AsWrittenReplacement);
    ReplaceAllWithoutFirstChar(col, "biased ", IntendedReplacement);
  }

  // ---------------------------------------------------------------- record-length filter

  /** The stations kept for correction: those whose median years of observation reach the threshold. */
  function KeepLongRecords(cells: StationClimatology.Cells): (kept: StationClimatology.Cells)
    ensures kept.Keys <= cells.Keys
    ensures forall id :: id in kept ==> kept[id] == cells[id]
    ensures forall id :: id in cells ==>
      (id in kept <==> StationClimatology.MedianYearsCol in cells[id] && cells[id][StationClimatology.MedianYearsCol] >= WrccYearThreshold)
  {
    map id | id in cells && StationClimatology.MedianYearsCol in cells[id] && cells[id][StationClimatology.MedianYearsCol] >= WrccYearThreshold :: cells[id]
  }

  /** Filtering twice keeps the same stations as filtering once. */
  lemma KeepLongRecordsIdempotent(cells: StationClimatology.Cells)
    ensures KeepLongRecords(KeepLongRecords(cells)) == KeepLongRecords(cells)
  {
    var once := KeepLongRecords(cells);
    assert KeepLongRecords(once).Keys == once.Keys;
  }

  /**
   * A new station whose file had no days gets its metric cells but no median (no rollback);
   * the filter then drops it, as it drops any row without a median.
   */
  lemma EmptyStationFileIsDropped(cells: StationClimatology.Cells, f: StationClimatology.StationFile)
    requires StationClimatology.IsCsv(f.name) && f.rows == Some([])
    requires StationClimatology.StationId(f.name) !in cells
    ensures StationClimatology.StationId(f.name) in StationClimatology.StepFile(cells, f).0
    ensures StationClimatology.StationId(f.name) !in KeepLongRecords(StationClimatology.StepFile(cells, f).0)
  {
    StationClimatology.MedianFailureKeepsMetrics(cells, f);
  }

  /**
   * No rollback, seen by the filter: an empty file for a station that an earlier file stored with a
   * long record keeps the old median, so the station is kept, now with zero metric cells.
   */
  lemma EmptyFileAfterLongRecordIsKept(cells: StationClimatology.Cells, f: StationClimatology.StationFile)
    requires StationClimatology.IsCsv(f.name) && f.rows == Some([])
    requires StationClimatology.StationId(f.name) in cells
    requires StationClimatology.MedianYearsCol in cells[StationClimatology.StationId(f.name)]
    requires cells[StationClimatology.StationId(f.name)][StationClimatology.MedianYearsCol] >= WrccYearThreshold
    ensures StationClimatology.StationId(f.name) in KeepLongRecords(StationClimatology.StepFile(cells, f).0)
    ensures KeepLongRecords(StationClimatology.StepFile(cells, f).0)[StationClimatology.StationId(f.name)][StationClimatology.HeatingCol] == 0
  {
    StationClimatology.MedianFailureKeepsMetrics(cells, f);
  }
}
