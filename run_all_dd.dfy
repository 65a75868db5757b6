/**
 * The station climatology runner: for every `.csv` station file it averages the daily
 * maximum and minimum into a daily mean, accumulates the four degree-day metrics over it,
 * and writes them, with the median record length, into one row of a results table keyed
 * by station id. A file that fails is reported and skipped; the loop carries on.
 */
module StationClimatology {
  import opened Wrappers
  import opened Rounding
  import opened DegreeDays

  /** One day of a station file: the daily normals and the years of record behind the maximum. */
  datatype DailyRecord = DailyRecord(tmax: real, tmin: real, numYears: real)

  /**
   * A directory entry. `rows` is None when reading the file, or selecting its `tmax` and
   * `tmin` columns, raises.
   */
  datatype StationFile = StationFile(name: string, rows: Option<seq<DailyRecord>>)

  /** The columns of the results table. */
  datatype Column = FreezingIndexCol | HeatingCol | BelowZeroCol | ThawingIndexCol | MedianYearsCol

  function ColumnName(c: Column): string
  {
    match c
    case FreezingIndexCol => "WRCC Air Freezing Index Climatology"
    case HeatingCol => "WRCC Heating Degree Days Climatology"
    case BelowZeroCol => "WRCC Degree Days Below 0F Climatology"
    case ThawingIndexCol => "WRCC Air Thawing Index Climatology"
    case MedianYearsCol => "Median Years of Observations"
  }

  /** The results table's cells: station id, then column; a cell never written is absent. */
  type Cells = map<string, map<Column, int>>

  /** How the processing of one directory entry ended. */
  datatype FileOutcome =
    | Skipped        // not a `.csv` entry
    | Stored         // every column of the station's row written
    | ReadFailed     // raised before any cell was written
    | MedianFailed   // raised after the four metric cells were written

  // ---------------------------------------------------------------- file names

  /** `filename.endswith(".csv")`: the name ends in the extension, whose first character is a '.'. */
  predicate IsCsv(name: string): (b: bool)
    ensures b ==> |name| >= 4 && name[|name| - 4] == '.'
  {
    |name| >= 4 && name[|name| - 4..] == ".csv"
  }

  /** The file name up to its first '.', or the whole name when it has none. */
  function StationId(name: string): (id: string)
    ensures id <= name
    ensures '.' !in id
    ensures |id| < |name| ==> name[|id|] == '.'
  {
    if name == [] || name[0] == '.' then [] else [name[0]] + StationId(name[1..])
  }

  /** The station id of a `.csv` file stops at or before its extension. */
  lemma CsvStationIdSkipsExtension(name: string)
    requires IsCsv(name)
    ensures |StationId(name)| <= |name| - 4
  {
  }

  // ---------------------------------------------------------------- daily means

  /** The row-wise average of the `tmax` and `tmin` columns. */
  function DailyMeans(rows: seq<DailyRecord>): (means: seq<real>)
    ensures |means| == |rows|
    ensures forall i :: 0 <= i < |rows| ==> means[i] + means[i] == rows[i].tmax + rows[i].tmin
  {
    seq(|rows|, i requires 0 <= i < |rows| => (rows[i].tmax + rows[i].tmin) / 2.0)
  }

  /** The daily mean lies between the day's minimum and maximum, whichever order they come in. */
  lemma DailyMeanBetweenExtremes(rows: seq<DailyRecord>, i: int)
    requires 0 <= i < |rows|
    ensures rows[i].tmin <= rows[i].tmax ==> rows[i].tmin <= DailyMeans(rows)[i] <= rows[i].tmax
    ensures rows[i].tmax <= rows[i].tmin ==> rows[i].tmax <= DailyMeans(rows)[i] <= rows[i].tmin
  {
  }

  // ---------------------------------------------------------------- median

  predicate Sorted(s: seq<real>)
  {
    forall i, j :: 0 <= i < j < |s| ==> s[i] <= s[j]
  }

  function Insert(x: real, s: seq<real>): (r: seq<real>)
    requires Sorted(s)
    ensures Sorted(r)
    ensures multiset(r) == multiset(s) + multiset{x}
    ensures |r| == |s| + 1
    ensures forall k :: 0 <= k < |r| ==> r[k] == x || r[k] in s
  {
    if s == [] then [x]
    else if x <= s[0] then [x] + s
    else
      var rest := Insert(x, s[1..]);
      InsertBehindHead(x, s, rest);
      [s[0]] + rest
  }

  /** Keeping the head in front of the insertion into the tail keeps the order and the values. */
  lemma InsertBehindHead(x: real, s: seq<real>, rest: seq<real>)
    requires s != [] && Sorted(s) && s[0] < x
    requires Sorted(rest)
    requires multiset(rest) == multiset(s[1..]) + multiset{x}
    requires forall k :: 0 <= k < |rest| ==> rest[k] == x || rest[k] in s[1..]
    ensures Sorted([s[0]] + rest)
    ensures multiset([s[0]] + rest) == multiset(s) + multiset{x}
    ensures forall k :: 0 <= k < |rest| + 1 ==> ([s[0]] + rest)[k] == x || ([s[0]] + rest)[k] in s
  {
    assert s == [s[0]] + s[1..];
    forall k | 0 <= k < |rest| ensures s[0] <= rest[k] && (rest[k] == x || rest[k] in s) {
      if rest[k] != x {
        var j :| 0 <= j < |s[1..]| && s[1..][j] == rest[k];
        assert s[j + 1] == rest[k];
      }
    }
    var r := [s[0]] + rest;
    forall i, j | 0 <= i < j < |r| ensures r[i] <= r[j] {
      if i > 0 {
        assert r[i] == rest[i - 1] && r[j] == rest[j - 1];
      } else {
        assert r[j] == rest[j - 1];
      }
    }
    forall k | 0 <= k < |r| ensures r[k] == x || r[k] in s {
      if k > 0 {
        assert r[k] == rest[k - 1];
      }
    }
  }

  /** The values of `s` in ascending order. */
  function SortAscending(s: seq<real>): (r: seq<real>)
    ensures Sorted(r)
    ensures multiset(r) == multiset(s)
    ensures |r| == |s|
  {
    if s == [] then []
    else
      assert s == [s[0]] + s[1..];
      Insert(s[0], SortAscending(s[1..]))
  }

  /** pandas' median: the middle value, or the mean of the two middle values; none for no values. */
  function Median(s: seq<real>): (m: Option<real>)
    ensures m.None? <==> s == []
  {
    if s == [] then None
    else
      var t := SortAscending(s);
      var n := |t|;
      if n % 2 == 1 then Some(t[n / 2]) else Some((t[n / 2 - 1] + t[n / 2]) / 2.0)
  }

  /** The median lies between some value of the column and some other value of it. */
  lemma MedianWithinRange(s: seq<real>)
    requires s != []
    ensures exists i :: 0 <= i < |s| && s[i] <= Median(s).value
    ensures exists j :: 0 <= j < |s| && Median(s).value <= s[j]
  {
    var t := SortAscending(s);
    var n := |t|;
    assert t[0] in multiset(s) && t[n - 1] in multiset(s);
    var i :| 0 <= i < |s| && s[i] == t[0];
    var j :| 0 <= j < |s| && s[j] == t[n - 1];
    assert s[i] <= Median(s).value <= s[j];
  }

  /** A column holding one value throughout has that value as its median. */
  lemma MedianOfConstant(s: seq<real>, c: real)
    requires s != []
    requires forall i :: 0 <= i < |s| ==> s[i] == c
    ensures Median(s) == Some(c)
  {
    var t := SortAscending(s);
    forall k | 0 <= k < |t| ensures t[k] == c {
      assert t[k] in multiset(s);
    }
  }

  /**
   * The median splits the column: in its ascending order, every value of the lower half
   * (the middle one included) is at most the median, and every value of the upper half is at least it.
   */
  lemma MedianSplitsValues(s: seq<real>)
    requires s != []
    ensures forall i :: 0 <= i <= (|s| - 1) / 2 ==> SortAscending(s)[i] <= Median(s).value
    ensures forall i :: |s| / 2 <= i < |s| ==> Median(s).value <= SortAscending(s)[i]
  {
    var t := SortAscending(s);
    var n := |t|;
    MedianBetweenMiddles(s);
    forall i | 0 <= i <= (n - 1) / 2 ensures t[i] <= Median(s).value {
      SortedAt(t, i, (n - 1) / 2);
    }
    forall i | n / 2 <= i < n ensures Median(s).value <= t[i] {
      SortedAt(t, n / 2, i);
    }
  }

  lemma SortedAt(t: seq<real>, i: int, j: int)
    requires Sorted(t) && 0 <= i <= j < |t|
    ensures t[i] <= t[j]
  {
    if i < j {
      assert t[i] <= t[j];
    }
  }

  /** The median lies between the two middle values of the ascending order (one value when the count is odd). */
  lemma MedianBetweenMiddles(s: seq<real>)
    requires s != []
    ensures SortAscending(s)[(|s| - 1) / 2] <= Median(s).value <= SortAscending(s)[|s| / 2]
  {
    var t := SortAscending(s);
    var n := |t|;
    var m := Median(s).value;
    if n % 2 == 1 {
      assert (n - 1) / 2 == n / 2;
      assert m == t[n / 2];
    } else {
      var a, b := t[n / 2 - 1], t[n / 2];
      assert (n - 1) / 2 == n / 2 - 1;
      assert m == (a + b) / 2.0;
      assert a <= b;
      assert a <= m <= b;
    }
    assert t[(n - 1) / 2] <= m <= t[n / 2];
  }

  function NumYearsColumn(rows: seq<DailyRecord>): (col: seq<real>)
    ensures |col| == |rows|
    ensures forall i :: 0 <= i < |rows| ==> col[i] == rows[i].numYears
  {
    seq(|rows|, i requires 0 <= i < |rows| => rows[i].numYears)
  }

  /**
   * `df["num_years"].median().astype(int)`: the median record length truncated to an
   * integer. The median of an empty column cannot be cast, so an empty file fails here.
   */
  function MedianYears(rows: seq<DailyRecord>): (m: Option<int>)
    ensures m.None? <==> rows == []
  {
    match Median(NumYearsColumn(rows))
    case None => None
    case Some(x) => Some(TruncateToInt(x))
  }

  // ---------------------------------------------------------------- the table

  /** Writing one cell: the station's row gains (or replaces) that column; nothing else changes. */
  function Put(cells: Cells, station: string, column: Column, value: int): (r: Cells)
    ensures r.Keys == cells.Keys + {station}
    ensures r[station].Keys == (if station in cells then cells[station].Keys else {}) + {column}
    ensures r[station][column] == value
    ensures forall c :: c in r[station] && c != column ==> r[station][c] == cells[station][c]
    ensures forall s :: s in cells && s != station ==> r[s] == cells[s]
  {
    var row := if station in cells then cells[station] else map[];
    cells[station := row[column := value]]
  }

  /** The table after processing one directory entry, and how that ended. */
  function StepFile(cells: Cells, f: StationFile): (Cells, FileOutcome)
  {
    if !IsCsv(f.name) then (cells, Skipped)
    else match f.rows
      case None => (cells, ReadFailed)
      case Some(rows) =>
        var temps := DailyMeans(rows);
        var id := StationId(f.name);
        var c1 := Put(cells, id, FreezingIndexCol, Accumulate(temps, FreezingThreshold, true));
        var c2 := Put(c1, id, HeatingCol, Accumulate(temps, HeatingThreshold, true));
        var c3 := Put(c2, id, BelowZeroCol, Accumulate(temps, BelowZeroThreshold, true));
        var c4 := Put(c3, id, ThawingIndexCol, Accumulate(temps, ThawingThreshold, false));
        match MedianYears(rows)
        case None => (c4, MedianFailed)
        case Some(m) => (Put(c4, id, MedianYearsCol, m), Stored)
  }

  predicate Failed(o: FileOutcome)
  {
    o == ReadFailed || o == MedianFailed
  }

  /** The table and the failure reports after processing `files` in order. */
  function Run(cells: Cells, files: seq<StationFile>): (Cells, seq<string>)
  {
    if files == [] then (cells, [])
    else
      var (before, reports) := Run(cells, files[..|files| - 1]);
      var f := files[|files| - 1];
      var (after, outcome) := StepFile(before, f);
      (after, if Failed(outcome) then reports + [f.name] else reports)
  }

  /** The `results` data frame, filled in cell by cell. */
  class ResultsTable {
    var cells: Cells

    constructor ()
      ensures cells == map[]
    {
      cells := map[];
    }

    /** `results.loc[station, column] = value` */
    method Set(station: string, column: Column, value: int)
      modifies this
      ensures cells == Put(old(cells), station, column, value)
    {
      var row := if station in cells then cells[station] else map[];
      cells := cells[station := row[column := value]];
    }
  }

  /** The body of the runner's loop for one directory entry. */
  method ProcessFile(results: ResultsTable, f: StationFile) returns (outcome: FileOutcome)
    modifies results
    ensures (results.cells, outcome) == StepFile(old(results.cells), f)
  {
    if !IsCsv(f.name) {
      return Skipped;
    }
    if f.rows.None? {
      return ReadFailed;
    }
    var rows := f.rows.value;
    var temps := DailyMeans(rows);
    var freezingIndex := ComputeCumulativeFreezingIndex(temps);
    var heatingDegreeDays := ComputeCumulativeHeatingDegreeDays(temps);
    var degreeDaysBelow0F := ComputeCumulativeDegreeDaysBelow0F(temps);
    var thawingIndex := ComputeCumulativeThawingIndex(temps);
    var stationId := StationId(f.name);
    results.Set(stationId, FreezingIndexCol, freezingIndex);
    results.Set(stationId, HeatingCol, heatingDegreeDays);
    results.Set(stationId, BelowZeroCol, degreeDaysBelow0F);
    results.Set(stationId, ThawingIndexCol, thawingIndex);
    var medianYears := MedianYears(rows);
    if medianYears.None? {
      return MedianFailed;
    }
    results.Set(stationId, MedianYearsCol, medianYears.value);
    outcome := Stored;
  }

  /** The runner: every directory entry in turn; a failing file is reported and the loop continues. */
  method RunAllDd(files: seq<StationFile>) returns (results: ResultsTable, failures: seq<string>)
    ensures fresh(results)
    ensures (results.cells, failures) == Run(map[], files)
  {
    results := new ResultsTable();
    failures := [];
    for i := 0 to |files|
      invariant (results.cells, failures) == Run(map[], files[..i])
    {
      assert files[..i + 1][..i] == files[..i];
      var outcome := ProcessFile(results, files[i]);
      if Failed(outcome) {
        failures := failures + [files[i].name];
      }
    }
    assert files[..|files|] == files;
  }

  // ---------------------------------------------------------------- properties

  /** The full row a successfully processed file produces. */
  function StoredRow(rows: seq<DailyRecord>, medianYears: int): map<Column, int>
  {
    var temps := DailyMeans(rows);
    map[FreezingIndexCol := Accumulate(temps, FreezingThreshold, true),
        HeatingCol := Accumulate(temps, HeatingThreshold, true),
        BelowZeroCol := Accumulate(temps, BelowZeroThreshold, true),
        ThawingIndexCol := Accumulate(temps, ThawingThreshold, false),
        MedianYearsCol := medianYears]
  }

  /** Overwriting all five columns of a row leaves nothing of what it held. */
  lemma AllColumnsOverwritten(prior: map<Column, int>, freezing: int, heating: int, belowZero: int, thawing: int, years: int)
    ensures prior[FreezingIndexCol := freezing][HeatingCol := heating][BelowZeroCol := belowZero]
                 [ThawingIndexCol := thawing][MedianYearsCol := years]
         == map[FreezingIndexCol := freezing, HeatingCol := heating, BelowZeroCol := belowZero,
                ThawingIndexCol := thawing, MedianYearsCol := years]
  {
    var row := prior[FreezingIndexCol := freezing][HeatingCol := heating][BelowZeroCol := belowZero]
                    [ThawingIndexCol := thawing][MedianYearsCol := years];
    var expected := map[FreezingIndexCol := freezing, HeatingCol := heating, BelowZeroCol := belowZero,
                        ThawingIndexCol := thawing, MedianYearsCol := years];
    forall c: Column ensures c in row && c in expected && row[c] == expected[c] {
      match c
      case MedianYearsCol =>
      case _ =>
    }
  }

  /** Writing all five columns of a row replaces whatever the row held before. */
  lemma FiveWritesReplaceRow(cells: Cells, id: string, freezing: int, heating: int, belowZero: int, thawing: int, years: int)
    ensures var c1 := Put(cells, id, FreezingIndexCol, freezing);
      var c2 := Put(c1, id, HeatingCol, heating);
      var c3 := Put(c2, id, BelowZeroCol, belowZero);
      var c4 := Put(c3, id, ThawingIndexCol, thawing);
      Put(c4, id, MedianYearsCol, years)[id]
        == map[FreezingIndexCol := freezing, HeatingCol := heating, BelowZeroCol := belowZero,
               ThawingIndexCol := thawing, MedianYearsCol := years]
  {
    var prior := if id in cells then cells[id] else map[];
    AllColumnsOverwritten(prior, freezing, heating, belowZero, thawing, years);
  }

  /**
   * A `.csv` file with at least one day leaves its station's row holding exactly its own
   * four metrics and median record length, whatever the row held before.
   */
  lemma StoredRowHoldsStationValues(cells: Cells, f: StationFile)
    requires IsCsv(f.name) && f.rows.Some? && f.rows.value != []
    ensures StepFile(cells, f).1 == Stored
    ensures StepFile(cells, f).0[StationId(f.name)] == StoredRow(f.rows.value, MedianYears(f.rows.value).value)
  {
    var rows := f.rows.value;
    var temps := DailyMeans(rows);
    FiveWritesReplaceRow(cells, StationId(f.name),
      Accumulate(temps, FreezingThreshold, true), Accumulate(temps, HeatingThreshold, true),
      Accumulate(temps, BelowZeroThreshold, true), Accumulate(temps, ThawingThreshold, false),
      MedianYears(rows).value);
  }

  /** Processing a file touches only its own station's row. */
  lemma StepTouchesOnlyItsStation(cells: Cells, f: StationFile, other: string)
    requires other != StationId(f.name)
    ensures other in StepFile(cells, f).0 <==> other in cells
    ensures other in cells ==> StepFile(cells, f).0[other] == cells[other]
  {
  }

  /**
   * No rollback: a file whose median cannot be taken still leaves the four metric cells
   * written, and its median cell as it was (absent for a new station).
   */
  lemma MedianFailureKeepsMetrics(cells: Cells, f: StationFile)
    requires IsCsv(f.name) && f.rows == Some([])
    ensures var (after, outcome) := StepFile(cells, f);
      var id := StationId(f.name);
      && outcome == MedianFailed
      && id in after
      && after[id].Keys >= {FreezingIndexCol, HeatingCol, BelowZeroCol, ThawingIndexCol}
      && after[id][FreezingIndexCol] == 0 && after[id][BelowZeroCol] == 0
      && (MedianYearsCol in after[id] <==> id in cells && MedianYearsCol in cells[id])
      && after[id] == (if id in cells then cells[id] else map[])
           [FreezingIndexCol := 0][HeatingCol := 0][BelowZeroCol := 0][ThawingIndexCol := 0]
  {
    var id := StationId(f.name);
    var temps := DailyMeans([]);
    assert temps == [];
    NoDaysNoDegreeDays(FreezingThreshold, true);
    NoDaysNoDegreeDays(HeatingThreshold, true);
    NoDaysNoDegreeDays(BelowZeroThreshold, true);
    NoDaysNoDegreeDays(ThawingThreshold, false);
    var prior := if id in cells then cells[id] else map[];
    var c1 := Put(cells, id, FreezingIndexCol, 0);
    var c2 := Put(c1, id, HeatingCol, 0);
    var c3 := Put(c2, id, BelowZeroCol, 0);
    var c4 := Put(c3, id, ThawingIndexCol, 0);
    assert StepFile(cells, f) == (c4, MedianFailed);
    PutRow(cells, id, FreezingIndexCol, 0);
    PutRow(c1, id, HeatingCol, 0);
    PutRow(c2, id, BelowZeroCol, 0);
    PutRow(c3, id, ThawingIndexCol, 0);
    var row := prior[FreezingIndexCol := 0][HeatingCol := 0][BelowZeroCol := 0][ThawingIndexCol := 0];
    assert c4[id] == row;
    MetricCellsZeroed(prior);
    assert MedianYearsCol in prior <==> id in cells && MedianYearsCol in cells[id];
  }

  /** Zeroing the four metric cells of a row sets them and leaves its median cell, present or not, alone. */
  lemma MetricCellsZeroed(prior: map<Column, int>)
    ensures var row := prior[FreezingIndexCol := 0][HeatingCol := 0][BelowZeroCol := 0][ThawingIndexCol := 0];
      && row.Keys == prior.Keys + {FreezingIndexCol, HeatingCol, BelowZeroCol, ThawingIndexCol}
      && row[FreezingIndexCol] == 0 && row[HeatingCol] == 0 && row[BelowZeroCol] == 0 && row[ThawingIndexCol] == 0
      && (MedianYearsCol in row <==> MedianYearsCol in prior)
  {
  }

  /** The row a write leaves: the station's old row, or an empty one, with that one cell set. */
  lemma PutRow(cells: Cells, station: string, column: Column, value: int)
    ensures Put(cells, station, column, value)[station] == (if station in cells then cells[station] else map[])[column := value]
  {
  }

  /** Processing `a` and then `b` is processing `a + b`: the table carries over from one listing to the next. */
  lemma {:induction false} RunAppend(cells: Cells, a: seq<StationFile>, b: seq<StationFile>)
    ensures Run(cells, a + b).0 == Run(Run(cells, a).0, b).0
    ensures Run(cells, a + b).1 == Run(cells, a).1 + Run(Run(cells, a).0, b).1
  {
    if b == [] {
      assert a + b == a;
    } else {
      var init := b[..|b| - 1];
      var f := b[|b| - 1];
      assert (a + b)[..|a + b| - 1] == a + init;
      assert (a + b)[|a + b| - 1] == f;
      RunAppend(cells, a, init);
      var (mid, first) := Run(cells, a);
      var (before, reports) := Run(mid, init);
      var (after, outcome) := StepFile(before, f);
      assert Run(cells, a + init) == (before, first + reports);
      assert Run(mid, b) == (after, if Failed(outcome) then reports + [f.name] else reports);
      assert Run(cells, a + b) == (after, if Failed(outcome) then (first + reports) + [f.name] else first + reports);
    }
  }

  /** A station that no readable `.csv` entry maps to keeps its row, or its absence, through the whole run. */
  lemma {:induction false} RunKeepsOtherRows(cells: Cells, files: seq<StationFile>, id: string)
    requires forall k :: 0 <= k < |files| && Writes(files[k]) ==> StationId(files[k].name) != id
    ensures id in Run(cells, files).0 <==> id in cells
    ensures id in cells ==> Run(cells, files).0[id] == cells[id]
  {
    if files != [] {
      var init := files[..|files| - 1];
      var f := files[|files| - 1];
      RunKeepsOtherRows(cells, init, id);
      if Writes(f) {
        StepTouchesOnlyItsStation(Run(cells, init).0, f, id);
      }
    }
  }

  /**
   * Two files that share a station id: the later one's values replace the earlier one's, and
   * stay in place while no later readable file maps to the same station.
   */
  lemma LaterFileOverwrites(cells: Cells, before: seq<StationFile>, f: StationFile, after: seq<StationFile>)
    requires IsCsv(f.name) && f.rows.Some? && f.rows.value != []
    requires forall k :: 0 <= k < |after| && Writes(after[k]) ==> StationId(after[k].name) != StationId(f.name)
    ensures StationId(f.name) in Run(cells, before + [f] + after).0
    ensures Run(cells, before + [f] + after).0[StationId(f.name)] == StoredRow(f.rows.value, MedianYears(f.rows.value).value)
  {
    assert (before + [f])[..|before + [f]| - 1] == before;
    StoredRowHoldsStationValues(Run(cells, before).0, f);
    RunAppend(cells, before + [f], after);
    RunKeepsOtherRows(Run(cells, before + [f]).0, after, StationId(f.name));
  }

  /** The entries that reach a table write: `.csv` files that could be read. */
  predicate Writes(f: StationFile)
  {
    IsCsv(f.name) && f.rows.Some?
  }

  function WritingFiles(files: seq<StationFile>): (r: seq<StationFile>)
    ensures |r| <= |files|
    ensures forall k :: 0 <= k < |r| ==> Writes(r[k])
  {
    if files == [] then []
    else WritingFiles(files[..|files| - 1]) + (if Writes(files[|files| - 1]) then [files[|files| - 1]] else [])
  }

  /**
   * Failure isolation: entries that are not `.csv` files, and files that fail to be read,
   * have no effect on the table; the result is as if they had never been listed.
   */
  lemma {:induction false} OnlyReadableCsvFilesShapeTable(cells: Cells, files: seq<StationFile>)
    ensures Run(cells, files).0 == Run(cells, WritingFiles(files)).0
  {
    if files != [] {
      var init := files[..|files| - 1];
      var f := files[|files| - 1];
      OnlyReadableCsvFilesShapeTable(cells, init);
      if Writes(f) {
        var w := WritingFiles(init) + [f];
        assert WritingFiles(files) == w;
        assert w[..|w| - 1] == WritingFiles(init);
      } else {
        assert WritingFiles(files) == WritingFiles(init) + [];
        assert WritingFiles(init) + [] == WritingFiles(init);
      }
    }
  }

  /** A `.csv` entry whose processing raises: it cannot be read, or it has no days to take a median of. */
  predicate FailsToProcess(f: StationFile)
  {
    IsCsv(f.name) && (f.rows.None? || |f.rows.value| == 0)
  }

  /** The names of the entries that fail to process, in listing order. */
  function FailingNames(files: seq<StationFile>): (r: seq<string>)
    ensures |r| <= |files|
  {
    if files == [] then []
    else
      var f := files[|files| - 1];
      FailingNames(files[..|files| - 1]) + (if FailsToProcess(f) then [f.name] else [])
  }

  /** An entry is reported exactly when it fails to process, whatever the table held before. */
  lemma StepFailsIffFailsToProcess(cells: Cells, f: StationFile)
    ensures Failed(StepFile(cells, f).1) <==> FailsToProcess(f)
  {
  }

  /** Some listed entry carrying `name` fails to process. */
  ghost predicate NamesFailingEntry(files: seq<StationFile>, name: string)
  {
    exists i :: 0 <= i < |files| && files[i].name == name && FailsToProcess(files[i])
  }

  /** Every name on the failing list is the name of a listed entry that fails to process. */
  lemma {:induction false} FailingNamesAreListed(files: seq<StationFile>)
    ensures forall k :: 0 <= k < |FailingNames(files)| ==> NamesFailingEntry(files, FailingNames(files)[k])
  {
    if files != [] {
      var init := files[..|files| - 1];
      var f := files[|files| - 1];
      FailingNamesAreListed(init);
      var earlier := FailingNames(init);
      var names := FailingNames(files);
      assert names == earlier + (if FailsToProcess(f) then [f.name] else []);
      forall k | 0 <= k < |names|
        ensures NamesFailingEntry(files, names[k])
      {
        if k < |earlier| {
          assert NamesFailingEntry(init, earlier[k]);
          var i :| 0 <= i < |init| && init[i].name == earlier[k] && FailsToProcess(init[i]);
          assert files[i] == init[i];
        } else {
          var i := |files| - 1;
          assert files[i] == f && FailsToProcess(f) && names[k] == f.name;
        }
      }
    }
  }

  /** Some listed `.csv` entry carries `name`. */
  ghost predicate NamesCsvEntry(files: seq<StationFile>, name: string)
  {
    exists i :: 0 <= i < |files| && files[i].name == name && IsCsv(files[i].name)
  }

  /**
   * The reports are exactly the names of the failing entries, in listing order: at most one per
   * entry, and every report names a listed `.csv` file.
   */
  lemma {:induction false} ReportsAreFailingFiles(cells: Cells, files: seq<StationFile>)
    ensures Run(cells, files).1 == FailingNames(files)
    ensures |Run(cells, files).1| <= |files|
    ensures forall k :: 0 <= k < |Run(cells, files).1| ==> NamesCsvEntry(files, Run(cells, files).1[k])
  {
    ReportsAreFailingNames(cells, files);
    FailingNamesAreListed(files);
    var names := FailingNames(files);
    forall k | 0 <= k < |names|
      ensures NamesCsvEntry(files, names[k])
    {
      assert NamesFailingEntry(files, names[k]);
      var i :| 0 <= i < |files| && files[i].name == names[k] && FailsToProcess(files[i]);
      assert IsCsv(files[i].name);
    }
  }

  lemma {:induction false} ReportsAreFailingNames(cells: Cells, files: seq<StationFile>)
    ensures Run(cells, files).1 == FailingNames(files)
  {
    if files != [] {
      var init := files[..|files| - 1];
      var f := files[|files| - 1];
      ReportsAreFailingNames(cells, init);
      var (before, earlier) := Run(cells, init);
      StepFailsIffFailsToProcess(before, f);
    }
  }
}
