/**
  The panel both extraction scripts accumulate: a `defaultdict(dict)` from a
  key tuple to a dict from lower-cased metric name to the value read from the
  series' `data` array.  A value is written only when it is not the source's
  missing-value sentinel, and a later write to the same key and metric
  replaces the earlier one.

  The writes a script performs, in order, form a log (`seq<Write>`);
  `ApplyWrites` gives the panel that log produces, and the lemmas below
  characterise each cell by the log alone.
 */
module Panels {
  import opened Wrappers
  import opened Ordering

  /** A scalar from a series' `data` array: JSON `null`, a string or a number. */
  datatype Json = JNull | JStr(s: string) | JNum(n: real)

  /** One `[period, value]` pair of a series' `data` array. */
  datatype Point = Point(period: string, value: Json)

  /** A series record: its `series_id` (empty when absent) and its `data` pairs (empty when absent). */
  datatype Series = Series(seriesId: string, data: seq<Point>)

  /** A panel key: the Python tuple `(geo, sector, date)` or `(state, date)` as a sequence. */
  type Key = seq<string>

  type Cells = map<Key, map<string, Json>>

  /** The value that means "not reported": the placeholder `"- -"` or JSON `null`. */
  predicate IsSentinel(v: Json)
  {
    v == JNull || v == JStr("- -")
  }

  datatype Write = Write(key: Key, metric: string, value: Json)

  /** The writes the inner loop attempts for one series: one per data point, in order. */
  function PointWrites(prefix: Key, metric: string, data: seq<Point>): seq<Write>
  {
    seq(|data|, i requires 0 <= i < |data| => Write(prefix + [data[i].period], metric, data[i].value))
  }

  lemma PointWritesStep(prefix: Key, metric: string, data: seq<Point>, j: nat)
    requires j < |data|
    ensures PointWrites(prefix, metric, data[..j + 1])
         == PointWrites(prefix, metric, data[..j]) + [Write(prefix + [data[j].period], metric, data[j].value)]
  {
  }

  /** `panel_data[key][metric] = value` on a defaultdict(dict). */
  function Store(cells: Cells, key: Key, metric: string, v: Json): Cells
  {
    cells[key := (if key in cells then cells[key] else map[])[metric := v]]
  }

  /** One write, skipped when its value is the sentinel. */
  function ApplyWrite(cells: Cells, w: Write): Cells
  {
    if IsSentinel(w.value) then cells else Store(cells, w.key, w.metric, w.value)
  }

  function ApplyWrites(cells: Cells, ws: seq<Write>): Cells
    decreases |ws|
  {
    if ws == [] then cells else ApplyWrite(ApplyWrites(cells, ws[..|ws| - 1]), ws[|ws| - 1])
  }

  lemma ApplyWritesStep(cells: Cells, ws: seq<Write>, w: Write)
    ensures ApplyWrites(cells, ws + [w]) == ApplyWrite(ApplyWrites(cells, ws), w)
  {
    assert (ws + [w])[..|ws|] == ws;
  }

  lemma {:induction false} ApplyWritesAppend(cells: Cells, a: seq<Write>, b: seq<Write>)
    ensures ApplyWrites(cells, a + b) == ApplyWrites(ApplyWrites(cells, a), b)
    decreases |b|
  {
    if b == [] {
      assert a + b == a;
    } else {
      var init := b[..|b| - 1];
      ApplyWritesAppend(cells, a, init);
      assert a + b == (a + init) + [b[|b| - 1]];
      ApplyWritesStep(cells, a + init, b[|b| - 1]);
    }
  }

  /**
    The log a script's accumulation loop produces: the writes of each record
    in turn, `recordWrites` saying which writes one record makes.
   */
  function Log(series: seq<Series>, recordWrites: Series -> seq<Write>): seq<Write>
    decreases |series|
  {
    if series == [] then [] else Log(series[..|series| - 1], recordWrites) + recordWrites(series[|series| - 1])
  }

  lemma LogStep(series: seq<Series>, recordWrites: Series -> seq<Write>, i: nat)
    requires i < |series|
    ensures ApplyWrites(map[], Log(series[..i + 1], recordWrites))
         == ApplyWrites(ApplyWrites(map[], Log(series[..i], recordWrites)), recordWrites(series[i]))
  {
    assert series[..i + 1][..i] == series[..i];
    ApplyWritesAppend(map[], Log(series[..i], recordWrites), recordWrites(series[i]));
  }

  /** `panel_data[key].get(metric)`, without creating the key. */
  function Lookup(cells: Cells, key: Key, metric: string): Option<Json>
  {
    if key in cells && metric in cells[key] then Some(cells[key][metric]) else None
  }

  /** `w` stores a value under `key` and `metric`. */
  predicate Stores(w: Write, key: Key, metric: string)
  {
    w.key == key && w.metric == metric && !IsSentinel(w.value)
  }

  /** A write that stores nothing under `key`/`metric` leaves that cell as it was. */
  lemma {:induction false} ApplyWriteOther(cells: Cells, w: Write, key: Key, metric: string)
    requires !Stores(w, key, metric)
    ensures Lookup(ApplyWrite(cells, w), key, metric) == Lookup(cells, key, metric)
  {
  }

  /**
    Last write wins: the cell holds the value of the last write that stored
    under its key and metric, whatever came before.
   */
  lemma {:induction false} LastWriteWins(cells: Cells, ws: seq<Write>, i: nat, key: Key, metric: string)
    requires i < |ws| && Stores(ws[i], key, metric)
    requires forall j :: i < j < |ws| ==> !Stores(ws[j], key, metric)
    ensures Lookup(ApplyWrites(cells, ws), key, metric) == Some(ws[i].value)
    decreases |ws|
  {
    var init := ws[..|ws| - 1];
    if i == |ws| - 1 {
      assert ApplyWrites(cells, ws) == Store(ApplyWrites(cells, init), key, metric, ws[i].value);
    } else {
      LastWriteWins(cells, init, i, key, metric);
      ApplyWriteOther(ApplyWrites(cells, init), ws[|ws| - 1], key, metric);
    }
  }

  /** A cell is absent exactly when no write stored anything under its key and metric. */
  lemma {:induction false} AbsentIffNeverStored(ws: seq<Write>, key: Key, metric: string)
    ensures Lookup(ApplyWrites(map[], ws), key, metric).None?
        <==> forall j :: 0 <= j < |ws| ==> !Stores(ws[j], key, metric)
    decreases |ws|
  {
    if ws != [] {
      var init := ws[..|ws| - 1];
      AbsentIffNeverStored(init, key, metric);
      if Stores(ws[|ws| - 1], key, metric) {
        LastWriteWins(map[], ws, |ws| - 1, key, metric);
      } else {
        ApplyWriteOther(ApplyWrites(map[], init), ws[|ws| - 1], key, metric);
      }
    }
  }

  /** No stored value is the sentinel, and every key holds at least one metric. */
  ghost predicate WellFormed(cells: Cells)
  {
    forall key :: key in cells ==> |cells[key]| > 0 && forall m :: m in cells[key] ==> !IsSentinel(cells[key][m])
  }

  /** A panel built from an empty dict never holds the sentinel, nor an empty row. */
  lemma {:induction false} ApplyWritesWellFormed(ws: seq<Write>)
    ensures WellFormed(ApplyWrites(map[], ws))
    decreases |ws|
  {
    if ws != [] {
      ApplyWritesWellFormed(ws[..|ws| - 1]);
      ApplyWriteWellFormed(ApplyWrites(map[], ws[..|ws| - 1]), ws[|ws| - 1]);
    }
  }

  lemma {:induction false} ApplyWriteWellFormed(cells: Cells, w: Write)
    requires WellFormed(cells)
    ensures WellFormed(ApplyWrite(cells, w))
  {
    if !IsSentinel(w.value) {
      var row := (if w.key in cells then cells[w.key] else map[])[w.metric := w.value];
      assert w.metric in row;
      assert ApplyWrite(cells, w) == cells[w.key := row];
    }
  }

  /** A key has a row exactly when some write for it carried a value other than the sentinel. */
  lemma {:induction false} KeysAreStoredKeys(ws: seq<Write>, key: Key)
    ensures key in ApplyWrites(map[], ws) <==> exists j :: 0 <= j < |ws| && ws[j].key == key && !IsSentinel(ws[j].value)
    decreases |ws|
  {
    if ws != [] {
      var init := ws[..|ws| - 1];
      KeysAreStoredKeys(init, key);
      assert forall j :: 0 <= j < |init| ==> init[j] == ws[j];
    }
  }

  /** `sorted(panel_data.keys())`: the keys in ascending tuple order, each once. */
  function SortedKeys(order: seq<Key>): (r: seq<Key>)
    ensures StrictlySorted(r, KeyLess)
    ensures forall key :: key in r <==> key in order
    ensures NoDuplicates(order) ==> |r| == |order|
  {
    KeyLessIsStrictTotalOrder();
    SortUnique(order, KeyLess)
  }

  /**
    Sorting the keys gives the same sequence whatever order they were
    inserted in: only which keys are present matters.
   */
  lemma SortedKeysDependOnlyOnMembers(order: seq<Key>, other: seq<Key>)
    requires forall key :: key in order <==> key in other
    ensures SortedKeys(order) == SortedKeys(other)
  {
    KeyLessIsStrictTotalOrder();
    StrictlySortedUnique(SortedKeys(order), SortedKeys(other), KeyLess);
  }

  /** The keys of the log's non-sentinel writes, in log order, repeats included. */
  function StoredKeys(ws: seq<Write>): (r: seq<Key>)
    ensures forall key :: key in r <==> key in ApplyWrites(map[], ws)
    decreases |ws|
  {
    if ws == [] then []
    else
      var w := ws[|ws| - 1];
      StoredKeys(ws[..|ws| - 1]) + (if IsSentinel(w.value) then [] else [w.key])
  }

  /** `sorted(panel_data.keys())` of the panel a log builds: ascending, each key once. */
  function LogKeys(ws: seq<Write>): (r: seq<Key>)
    ensures StrictlySorted(r, KeyLess)
    ensures forall key :: key in r <==> key in ApplyWrites(map[], ws)
  {
    SortedKeys(StoredKeys(ws))
  }

  /** `values.get(name, "")`: a metric the key never received renders as the empty string. */
  function Column(metrics: map<string, Json>, name: string): Json
  {
    if name in metrics then metrics[name] else JStr("")
  }

  /**
    A metric column is "" when no write stored a value for that key and
    metric, and otherwise holds the value of the last write that did.
   */
  lemma RenderedColumnFromLog(ws: seq<Write>, key: Key, name: string)
    requires key in ApplyWrites(map[], ws)
    ensures (forall j :: 0 <= j < |ws| ==> !Stores(ws[j], key, name)) ==> Column(ApplyWrites(map[], ws)[key], name) == JStr("")
    ensures forall i :: 0 <= i < |ws| && Stores(ws[i], key, name) &&
                        (forall j :: i < j < |ws| ==> !Stores(ws[j], key, name))
                        ==> Column(ApplyWrites(map[], ws)[key], name) == ws[i].value
  {
    AbsentIffNeverStored(ws, key, name);
    forall i | 0 <= i < |ws| && Stores(ws[i], key, name) && (forall j :: i < j < |ws| ==> !Stores(ws[j], key, name))
      ensures Column(ApplyWrites(map[], ws)[key], name) == ws[i].value
    {
      LastWriteWins(map[], ws, i, key, name);
    }
  }

  /**
    The `defaultdict(dict)` itself: `cells` is its content and `order` its keys
    in first-insertion order, which is the order a Python dict iterates in.
   */
  class Panel {
    var cells: Cells
    var order: seq<Key>

    ghost predicate Valid()
      reads this
    {
      NoDuplicates(order) && (forall key :: key in cells <==> key in order) && |order| == |cells|
    }

    constructor ()
      ensures Valid() && cells == map[] && order == []
    {
      cells := map[];
      order := [];
    }

    /** `panel_data[key][metric] = v`: creates the key's dict on first use. */
    method Put(key: Key, metric: string, v: Json)
      requires Valid()
      modifies this
      ensures Valid()
      ensures cells == Store(old(cells), key, metric, v)
      ensures order == if key in old(cells) then old(order) else old(order) + [key]
    {
      if key !in cells {
        order := order + [key];
      }
      var row := if key in cells then cells[key] else map[];
      cells := cells[key := row[metric := v]];
    }
  }

  /**
    The inner loop both scripts run for one usable record: every data point
    whose value is not the sentinel is stored under `prefix + [period]` and
    `metric`.
   */
  method AddPoints(p: Panel, prefix: Key, metric: string, data: seq<Point>)
    requires p.Valid()
    modifies p
    ensures p.Valid()
    ensures p.cells == ApplyWrites(old(p.cells), PointWrites(prefix, metric, data))
  {
    var j := 0;
    while j < |data|
      invariant 0 <= j <= |data|
      invariant p.Valid()
      invariant p.cells == ApplyWrites(old(p.cells), PointWrites(prefix, metric, data[..j]))
    {
      var pt := data[j];
      PointWritesStep(prefix, metric, data, j);
      ApplyWritesStep(old(p.cells), PointWrites(prefix, metric, data[..j]), Write(prefix + [pt.period], metric, pt.value));
      if !IsSentinel(pt.value) {
        p.Put(prefix + [pt.period], metric, pt.value);
      }
      j := j + 1;
    }
    assert data[..|data|] == data;
  }

  /**
    The row-writing loop both extraction scripts end with: one rendered row
    per key of the panel, in ascending key order.
   */
  method EmitRows<R>(p: Panel, render: (Key, map<string, Json>) --> R) returns (rows: seq<R>)
    requires p.Valid()
    requires forall key :: key in p.cells ==> render.requires(key, p.cells[key])
    ensures |rows| == |p.cells|
    ensures forall i :: 0 <= i < |rows| ==>
              SortedKeys(p.order)[i] in p.cells &&
              rows[i] == render(SortedKeys(p.order)[i], p.cells[SortedKeys(p.order)[i]])
  {
    var keys := SortedKeys(p.order);
    rows := [];
    var i := 0;
    while i < |keys|
      invariant 0 <= i <= |keys| == |p.order|
      invariant |rows| == i
      invariant forall n :: 0 <= n < i ==> keys[n] in p.cells && rows[n] == render(keys[n], p.cells[keys[n]])
    {
      var key := keys[i];
      assert key in p.order;
      rows := rows + [render(key, p.cells[key])];
      i := i + 1;
    }
  }
}
