/**
  The state expenditure panel (eia_extraction/extract_seds_burden.py): the
  bulk file is scanned for the records whose identifier names one of four
  expenditure series, their identifiers such as `SEDS.TEEAP.AZ.A` are
  decoded into metric, state and frequency, and the records are pivoted
  into one row per (state, year) with a column per metric.
 */
module SedsBurden {
  import opened Wrappers
  import opened Ordering
  import opened Text
  import opened Panels
  import opened Tables

  /** Total energy, and residential electricity, expenditures per capita and in billions. */
  const BurdenPatterns: seq<string> := ["TEEAP", "ESRCP", "ESRCB", "TERCB"]

  /** `matches_pattern`: one of the four series codes occurs somewhere in the identifier. */
  function MatchesPattern(id: string): (b: bool)
    ensures b <==> exists n, i :: 0 <= n < |BurdenPatterns| && OccursAt(id, BurdenPatterns[n], i)
  {
    ContainsAny(id, BurdenPatterns)
  }

  lemma MatchesPatternExamples()
    ensures MatchesPattern("SEDS.TEEAP.AZ.A")
    ensures MatchesPattern("SEDS.ESRCB.TX.A")
    ensures !MatchesPattern("")
  {
    assert OccursAt("SEDS.TEEAP.AZ.A", BurdenPatterns[0], 5);
    assert OccursAt("SEDS.ESRCB.TX.A", BurdenPatterns[2], 5);
  }

  /** The decoded identifier: `(metric, state, frequency)`. */
  datatype SedsKey = SedsKey(metric: string, state: string, freq: string)

  /** `parse_series_id`: `None` (the all-None tuple) when the identifier has fewer than four dot-separated parts. */
  function ParseSeriesId(id: string): (r: Option<SedsKey>)
    ensures r.None? <==> CountChar(id, '.') < 3
  {
    var parts := Split(id, '.');
    if |parts| < 4 then None else Some(SedsKey(parts[1], parts[2], parts[3]))
  }

  /**
    An identifier assembled from dot-free parts parses back to part 1 as the
    metric, part 2 as the state, taken whole with any hyphen in it, and part
    3 as the frequency.
   */
  lemma ParseSeriesIdOfParts(parts: seq<string>)
    requires |parts| >= 4 && forall i :: 0 <= i < |parts| ==> '.' !in parts[i]
    ensures ParseSeriesId(Join(parts, '.')) == Some(SedsKey(parts[1], parts[2], parts[3]))
  {
    SplitJoin(parts, '.');
  }

  lemma ParseSeriesIdExample()
    ensures ParseSeriesId("SEDS.TEEAP.AZ.A") == Some(SedsKey("TEEAP", "AZ", "A"))
  {
    var parts := ["SEDS", "TEEAP", "AZ", "A"];
    assert Join(parts, '.') == "SEDS.TEEAP.AZ.A";
    ParseSeriesIdOfParts(parts);
  }

  /** The records the scan keeps: lines that decode, whose identifier matches, in file order. */
  function MatchingRecords(lines: seq<Option<Series>>): (r: seq<Series>)
    ensures |r| <= |lines|
    ensures forall s :: s in r <==> Some(s) in lines && MatchesPattern(s.seriesId)
    decreases |lines|
  {
    if lines == [] then []
    else
      var init := lines[..|lines| - 1];
      var last := lines[|lines| - 1];
      assert forall l :: l in lines <==> l in init || l == last;
      MatchingRecords(init) + (if last.Some? && MatchesPattern(last.value.seriesId) then [last.value] else [])
  }

  /** A line the scan keeps: it decodes, and its identifier matches. */
  predicate KeptLine(line: Option<Series>)
  {
    line.Some? && MatchesPattern(line.value.seriesId)
  }

  /**
    The kept records are the kept lines themselves, one per line and in file
    order, so a later line's points are written after an earlier line's.
   */
  lemma {:induction false} MatchingRecordsAreKeptLines(lines: seq<Option<Series>>)
    ensures var kept := Filter(lines, KeptLine);
            |MatchingRecords(lines)| == |kept|
            && forall i :: 0 <= i < |kept| ==> kept[i].Some? && MatchingRecords(lines)[i] == kept[i].value
    decreases |lines|
  {
    if lines != [] {
      var init, last := lines[..|lines| - 1], lines[|lines| - 1];
      assert lines == init + [last];
      MatchingRecordsAreKeptLines(init);
      FilterAppend(init, last, KeptLine);
      var r, kept := MatchingRecords(lines), Filter(lines, KeptLine);
      var rinit, kinit := MatchingRecords(init), Filter(init, KeptLine);
      assert r == rinit + (if KeptLine(last) then [last.value] else []);
      assert kept == kinit + (if KeptLine(last) then [last] else []);
      forall i | 0 <= i < |kept|
        ensures kept[i].Some? && r[i] == kept[i].value
      {
        if i < |kinit| {
          assert kept[i] == kinit[i] && r[i] == rinit[i];
        }
      }
    }
  }

  /**
    The scanning loop of `main`.  Each line is a decoded record or `None`
    for a line that is not valid JSON, which is counted and skipped.
   */
  method ScanLines(lines: seq<Option<Series>>) returns (matched: seq<Series>, totalLines: nat, matchedCount: nat)
    ensures totalLines == |lines|
    ensures matched == MatchingRecords(lines)
    ensures matchedCount == |matched| <= totalLines
  {
    matched, totalLines, matchedCount := [], 0, 0;
    while totalLines < |lines|
      invariant totalLines <= |lines|
      invariant matched == MatchingRecords(lines[..totalLines])
      invariant matchedCount == |matched|
    {
      var line := lines[totalLines];
      assert lines[..totalLines + 1][..totalLines] == lines[..totalLines];
      totalLines := totalLines + 1;
      if line.Some? && MatchesPattern(line.value.seriesId) {
        matchedCount := matchedCount + 1;
        matched := matched + [line.value];
      }
    }
    assert lines[..totalLines] == lines;
  }

  /** Only a record with a non-empty metric and state is stored; the frequency is not checked. */
  predicate Usable(k: SedsKey)
  {
    k.metric != "" && k.state != ""
  }

  /** The writes `main` attempts for one record: one per data point, under `(state, date)` and the lower-cased metric. */
  function SeriesWrites(s: Series): seq<Write>
  {
    match ParseSeriesId(s.seriesId)
    case None => []
    case Some(k) => if Usable(k) then PointWrites([k.state], Lower(k.metric), s.data) else []
  }

  function Writes(series: seq<Series>): seq<Write>
  {
    Log(series, SeriesWrites)
  }

  /** The panel `main` builds from the matched records. */
  function PanelOf(series: seq<Series>): Cells
  {
    ApplyWrites(map[], Writes(series))
  }

  /** The panel-building loop of `main`, run on a fresh `defaultdict(dict)`. */
  method Assemble(series: seq<Series>) returns (p: Panel)
    ensures fresh(p) && p.Valid()
    ensures p.cells == PanelOf(series)
  {
    p := new Panel();
    var i := 0;
    while i < |series|
      invariant 0 <= i <= |series|
      invariant p.Valid()
      invariant p.cells == PanelOf(series[..i])
    {
      var s := series[i];
      LogStep(series, SeriesWrites, i);
      var parsed := ParseSeriesId(s.seriesId);
      if parsed.Some? && Usable(parsed.value) {
        AddPoints(p, [parsed.value.state], Lower(parsed.value.metric), s.data);
      } else {
        assert SeriesWrites(s) == [];
      }
      i := i + 1;
    }
    assert series[..|series|] == series;
  }

  /**
    The frequency is not a filter: two records that differ only in the
    frequency part of their identifier make the same writes, so annual and
    monthly series of the same metric and state land in the same cells.
   */
  lemma FrequencyIgnored(source: string, metric: string, state: string, f1: string, f2: string, data: seq<Point>)
    requires '.' !in source && '.' !in metric && '.' !in state && '.' !in f1 && '.' !in f2
    ensures SeriesWrites(Series(Join([source, metric, state, f1], '.'), data))
         == SeriesWrites(Series(Join([source, metric, state, f2], '.'), data))
  {
    ParseSeriesIdOfParts([source, metric, state, f1]);
    ParseSeriesIdOfParts([source, metric, state, f2]);
  }

  /** A record that does not parse or has an empty metric or state changes nothing. */
  lemma SkippedSeriesChangeNothing(series: seq<Series>, s: Series)
    requires ParseSeriesId(s.seriesId).None? || !Usable(ParseSeriesId(s.seriesId).value)
    ensures PanelOf(series + [s]) == PanelOf(series)
  {
    var all := series + [s];
    LogStep(all, SeriesWrites, |series|);
    assert all[..|series|] == series && all[..|series| + 1] == all;
    assert SeriesWrites(s) == [];
  }

  /** Every write of `main` is keyed by a `(state, date)` pair with a non-empty state. */
  lemma {:induction false} WritesHaveKeyShape(series: seq<Series>)
    ensures forall w :: w in Writes(series) ==> |w.key| == 2 && w.key[0] != ""
    decreases |series|
  {
    if series != [] {
      WritesHaveKeyShape(series[..|series| - 1]);
    }
  }

  /** Every row key of the panel is a `(state, date)` pair with a non-empty state. */
  lemma PanelKeyShape(series: seq<Series>)
    ensures forall key :: key in PanelOf(series) ==> |key| == 2 && key[0] != ""
  {
    WritesHaveKeyShape(series);
    forall key | key in PanelOf(series) ensures |key| == 2 && key[0] != "" {
      KeysAreStoredKeys(Writes(series), key);
      var j :| 0 <= j < |Writes(series)| && Writes(series)[j].key == key && !IsSentinel(Writes(series)[j].value);
      assert Writes(series)[j] in Writes(series);
    }
  }

  /**
    A later record overwrites an earlier one: after a usable record whose last
    data point is not the sentinel, the cell for that point holds its value.
   */
  lemma LaterRecordOverwrites(series: seq<Series>, s: Series)
    requires ParseSeriesId(s.seriesId).Some? && Usable(ParseSeriesId(s.seriesId).value)
    requires |s.data| > 0 && !IsSentinel(s.data[|s.data| - 1].value)
    ensures var k := ParseSeriesId(s.seriesId).value;
            var last := s.data[|s.data| - 1];
            Lookup(PanelOf(series + [s]), [k.state, last.period], Lower(k.metric)) == Some(last.value)
  {
    var k := ParseSeriesId(s.seriesId).value;
    var last := s.data[|s.data| - 1];
    assert (series + [s])[..|series|] == series;
    var ws := Writes(series + [s]);
    assert ws == Writes(series) + PointWrites([k.state], Lower(k.metric), s.data);
    assert ws[|ws| - 1] == Write([k.state] + [last.period], Lower(k.metric), last.value);
    assert [k.state] + [last.period] == [k.state, last.period];
    LastWriteWins(map[], ws, |ws| - 1, [k.state, last.period], Lower(k.metric));
  }

  /** One output row of the expenditure CSV; `year` is the period string as stored. */
  datatype SedsRow = SedsRow(state: string, year: string, totalEnergyExpendPerCapita: Json,
                             elecResidExpendPerCapita: Json, elecResidExpendBillion: Json,
                             totalEnergyExpendBillion: Json)

  function RenderRow(key: Key, metrics: map<string, Json>): SedsRow
    requires |key| == 2
  {
    SedsRow(key[0], key[1], Column(metrics, "teeap"), Column(metrics, "esrcp"),
            Column(metrics, "esrcb"), Column(metrics, "tercb"))
  }

  /** The CSV `main` writes, as a function of the matched records alone. */
  function PanelRows(series: seq<Series>): (rows: seq<SedsRow>)
  {
    var keys := LogKeys(Writes(series));
    PanelKeyShape(series);
    seq(|keys|, i requires 0 <= i < |keys| => RenderRow(keys[i], PanelOf(series)[keys[i]]))
  }

  /**
    The whole of `main` apart from I/O: scan the lines, assemble the panel
    from the matching records, then write its rows.
   */
  method ExtractSedsBurden(lines: seq<Option<Series>>) returns (rows: seq<SedsRow>, totalLines: nat, matchedCount: nat)
    ensures totalLines == |lines| && matchedCount == |MatchingRecords(lines)|
    ensures rows == PanelRows(MatchingRecords(lines))
    ensures |rows| == |PanelOf(MatchingRecords(lines))|
  {
    var matched;
    matched, totalLines, matchedCount := ScanLines(lines);
    var p := Assemble(matched);
    PanelKeyShape(matched);
    rows := EmitRows(p, RenderRow);
    SortedKeysDependOnlyOnMembers(p.order, StoredKeys(Writes(matched)));
  }
}
