/**
  The electricity panel (eia_extraction/flatten_to_panel.py): series
  identifiers such as `ELEC.SALES.TN-RES.M` are decoded into metric,
  geography, sector and frequency; the monthly series are pivoted into one
  row per (geography, sector, period) with a column per metric, and the
  rows are written in ascending key order.
 */
module FlattenToPanel {
  import opened Wrappers
  import opened Ordering
  import opened Text
  import opened Panels

  /** The decoded identifier: `(metric, geography, sector, frequency)`. */
  datatype SeriesKey = SeriesKey(metric: string, geo: string, sector: string, freq: string)

  /**
    The geography-sector token split at its LAST hyphen, so that a hyphenated
    regional geography keeps its hyphens; without a hyphen the sector is "ALL".
   */
  function SplitGeoSector(token: string): (r: (string, string))
    ensures '-' in token ==> r.0 + "-" + r.1 == token && '-' !in r.1
    ensures '-' !in token ==> r == (token, "ALL")
  {
    match LastIndexOf(token, '-')
    case None => (token, "ALL")
    case Some(i) =>
      assert token == token[..i] + "-" + token[i + 1..];
      (token[..i], token[i + 1..])
  }

  /** Splitting `geo + "-" + sector` recovers both parts whenever the sector has no hyphen. */
  lemma SplitGeoSectorInverse(geo: string, sector: string)
    requires '-' !in sector
    ensures SplitGeoSector(geo + "-" + sector) == (geo, sector)
  {
    var token := geo + "-" + sector;
    assert token[|geo|] == '-';
    assert token[..|geo|] == geo && token[|geo| + 1..] == sector;
  }

  lemma SplitGeoSectorExamples()
    ensures SplitGeoSector("SAT-ALL") == ("SAT", "ALL")
    ensures SplitGeoSector("TN-RES") == ("TN", "RES")
    ensures SplitGeoSector("US") == ("US", "ALL")
  {
    assert "SAT-ALL" == "SAT" + "-" + "ALL" && "TN-RES" == "TN" + "-" + "RES";
    SplitGeoSectorInverse("SAT", "ALL");
    SplitGeoSectorInverse("TN", "RES");
    assert "US"[0] != '-' && "US"[1] != '-';
  }

  /** `parse_series_id`: `None` (the all-None tuple) when the identifier has fewer than four dot-separated parts. */
  function ParseSeriesId(id: string): (r: Option<SeriesKey>)
    ensures r.None? <==> CountChar(id, '.') < 3
  {
    var parts := Split(id, '.');
    if |parts| < 4 then None
    else
      var (geo, sector) := SplitGeoSector(parts[2]);
      Some(SeriesKey(parts[1], geo, sector, parts[3]))
  }

  /**
    An identifier assembled from dot-free parts parses back to part 1 as the
    metric, part 2 split into geography and sector, and part 3 as the frequency;
    parts after the fourth are ignored.
   */
  lemma ParseSeriesIdOfParts(parts: seq<string>)
    requires |parts| >= 4 && forall i :: 0 <= i < |parts| ==> '.' !in parts[i]
    ensures ParseSeriesId(Join(parts, '.'))
         == Some(SeriesKey(parts[1], SplitGeoSector(parts[2]).0, SplitGeoSector(parts[2]).1, parts[3]))
  {
    SplitJoin(parts, '.');
  }

  lemma ParseSeriesIdExample()
    ensures ParseSeriesId("ELEC.SALES.TN-RES.M") == Some(SeriesKey("SALES", "TN", "RES", "M"))
  {
    var parts := ["ELEC", "SALES", "TN-RES", "M"];
    assert Join(parts, '.') == "ELEC.SALES.TN-RES.M";
    ParseSeriesIdOfParts(parts);
    SplitGeoSectorExamples();
  }

  /** `format_date`: a 6-character period `YYYYMM` becomes `YYYY-MM`; any other is kept as it is. */
  function FormatDate(d: string): string
  {
    if |d| == 6 then d[..4] + "-" + d[4..] else d
  }

  /** The `year` column: the first four characters, or "" for a shorter period. */
  function YearOf(d: string): string
  {
    if |d| >= 4 then d[..4] else ""
  }

  /** The `month` column: everything from index 4 on, or "" for a period shorter than six. */
  function MonthOf(d: string): string
  {
    if |d| >= 6 then d[4..] else ""
  }

  /**
    For a six-character period the `date`, `year` and `month` columns agree:
    the date is the year, a hyphen, and the month, and dropping the hyphen
    gives the period back.  Any other length leaves the date unchanged.
   */
  lemma PeriodColumnsAgree(d: string)
    ensures |d| == 6 ==> FormatDate(d) == YearOf(d) + "-" + MonthOf(d) && |YearOf(d)| == 4 && |MonthOf(d)| == 2
    ensures |d| == 6 ==> FormatDate(d)[..4] + FormatDate(d)[5..] == d
    ensures |d| >= 6 ==> YearOf(d) + MonthOf(d) == d
    ensures |d| != 6 ==> FormatDate(d) == d
  {
    if |d| == 6 {
      assert FormatDate(d)[..4] == d[..4] && FormatDate(d)[5..] == d[4..];
    }
    if |d| >= 6 {
      assert d == d[..4] + d[4..];
    }
  }

  lemma FormatDateExample()
    ensures FormatDate("202501") == "2025-01"
  {
  }

  /** Only a record with a non-empty metric and geography and frequency "M" reaches the inner loop. */
  predicate Contributes(k: SeriesKey)
  {
    k.metric != "" && k.geo != "" && k.freq == "M"
  }

  /** The writes `main` attempts for one record: one per data point, under `(geo, sector, date)` and the lower-cased metric. */
  function SeriesWrites(s: Series): seq<Write>
  {
    match ParseSeriesId(s.seriesId)
    case None => []
    case Some(k) => if Contributes(k) then PointWrites([k.geo, k.sector], Lower(k.metric), s.data) else []
  }

  function Writes(series: seq<Series>): seq<Write>
  {
    Log(series, SeriesWrites)
  }

  /** The panel `main` builds from the series list. */
  function PanelOf(series: seq<Series>): Cells
  {
    ApplyWrites(map[], Writes(series))
  }

  /** The accumulation loop of `main`, run on a fresh `defaultdict(dict)`. */
  method Assemble(series: seq<Series>) returns (p: Panel)
    ensures fresh(p) && p.Valid()
    ensures p.cells == PanelOf(series)
  {
    p := new Panel();
    var i := 0;
    while i < |series|
      invariant 0 <= i <= |series|
      invariant p.Valid()
      invariant p.cells == PanelOf(series[..i])
    {
      var s := series[i];
      LogStep(series, SeriesWrites, i);
      var parsed := ParseSeriesId(s.seriesId);
      if parsed.Some? && Contributes(parsed.value) {
        AddPoints(p, [parsed.value.geo, parsed.value.sector], Lower(parsed.value.metric), s.data);
      } else {
        assert SeriesWrites(s) == [];
      }
      i := i + 1;
    }
    assert series[..|series|] == series;
  }

  /** A record that does not parse, has an empty metric or geography, or is not monthly changes nothing. */
  lemma SkippedSeriesChangeNothing(series: seq<Series>, s: Series)
    requires ParseSeriesId(s.seriesId).None? || !Contributes(ParseSeriesId(s.seriesId).value)
    ensures PanelOf(series + [s]) == PanelOf(series)
  {
    var all := series + [s];
    LogStep(all, SeriesWrites, |series|);
    assert all[..|series|] == series && all[..|series| + 1] == all;
    assert SeriesWrites(s) == [];
  }

  /** Every write of `main` is keyed by `(geo, sector, date)` with a non-empty geography and a hyphen-free sector. */
  lemma {:induction false} WritesHaveKeyShape(series: seq<Series>)
    ensures forall w :: w in Writes(series) ==> |w.key| == 3 && w.key[0] != "" && '-' !in w.key[1]
    decreases |series|
  {
    if series != [] {
      WritesHaveKeyShape(series[..|series| - 1]);
      var s := series[|series| - 1];
      match ParseSeriesId(s.seriesId)
      case None =>
      case Some(k) =>
        if Contributes(k) {
          var parts := Split(s.seriesId, '.');
          assert k.sector == SplitGeoSector(parts[2]).1;
        }
    }
  }

  /** Every row key of the panel is a `(geo, sector, date)` triple with a non-empty geography and a hyphen-free sector. */
  lemma PanelKeyShape(series: seq<Series>)
    ensures forall key :: key in PanelOf(series) ==> |key| == 3 && key[0] != "" && '-' !in key[1]
  {
    WritesHaveKeyShape(series);
    forall key | key in PanelOf(series) ensures |key| == 3 && key[0] != "" && '-' !in key[1] {
      KeysAreStoredKeys(Writes(series), key);
      var j :| 0 <= j < |Writes(series)| && Writes(series)[j].key == key && !IsSentinel(Writes(series)[j].value);
      assert Writes(series)[j] in Writes(series);
    }
  }

  /**
    A later record overwrites an earlier one: after a contributing record whose
    last data point is not the sentinel, the cell for that point holds its value,
    whatever the earlier records wrote there.
   */
  lemma LaterRecordOverwrites(series: seq<Series>, s: Series)
    requires ParseSeriesId(s.seriesId).Some? && Contributes(ParseSeriesId(s.seriesId).value)
    requires |s.data| > 0 && !IsSentinel(s.data[|s.data| - 1].value)
    ensures var k := ParseSeriesId(s.seriesId).value;
            var last := s.data[|s.data| - 1];
            Lookup(PanelOf(series + [s]), [k.geo, k.sector, last.period], Lower(k.metric)) == Some(last.value)
  {
    var k := ParseSeriesId(s.seriesId).value;
    var last := s.data[|s.data| - 1];
    assert (series + [s])[..|series|] == series;
    var ws := Writes(series + [s]);
    assert ws == Writes(series) + PointWrites([k.geo, k.sector], Lower(k.metric), s.data);
    assert ws[|ws| - 1] == Write([k.geo, k.sector] + [last.period], Lower(k.metric), last.value);
    assert [k.geo, k.sector] + [last.period] == [k.geo, k.sector, last.period];
    LastWriteWins(map[], ws, |ws| - 1, [k.geo, k.sector, last.period], Lower(k.metric));
  }

  /** One output row of the electricity panel CSV. */
  datatype PanelRow = PanelRow(geography: string, sector: string, date: string, year: string, month: string,
                               salesMillionKwh: Json, priceCentsKwh: Json, customers: Json)

  function RenderRow(key: Key, metrics: map<string, Json>): PanelRow
    requires |key| == 3
  {
    PanelRow(key[0], key[1], FormatDate(key[2]), YearOf(key[2]), MonthOf(key[2]),
             Column(metrics, "sales"), Column(metrics, "price"), Column(metrics, "customers"))
  }

  /** The CSV `main` writes, as a function of the records alone. */
  function PanelRows(series: seq<Series>): (rows: seq<PanelRow>)
  {
    var keys := LogKeys(Writes(series));
    PanelKeyShape(series);
    seq(|keys|, i requires 0 <= i < |keys| => RenderRow(keys[i], PanelOf(series)[keys[i]]))
  }

  /**
    The whole of `main` apart from I/O: assemble the panel, then write its
    rows.  The output is one row per panel key, in ascending key order, and
    does not depend on the order in which the keys were first inserted.
   */
  method FlattenToPanel(series: seq<Series>) returns (rows: seq<PanelRow>)
    ensures rows == PanelRows(series)
    ensures |rows| == |PanelOf(series)|
  {
    var p := Assemble(series);
    PanelKeyShape(series);
    rows := EmitRows(p, RenderRow);
    SortedKeysDependOnlyOnMembers(p.order, StoredKeys(Writes(series)));
  }
}
