/**
  The master table (eia_extraction/merge_all_data.py): the residential rows
  of the monthly electricity panel are aggregated to one row per state and
  year, consumption per customer is derived, and the table is left-joined
  with the state expenditure panel on `(state, year)` and with the state
  reliability aggregate on `state` alone; the estimated annual bill is
  derived last.  A pandas NaN is `None`.
 */
module MergeAll {
  import opened Wrappers
  import opened Ordering
  import opened Tables
  import opened Reliability

  /** One row of the electricity panel CSV as read back: `year` is missing for a period shorter than four characters. */
  datatype ElecRecord = ElecRecord(geography: string, sector: string, year: Option<int>,
                                   sales: Option<real>, price: Option<real>, customers: Option<real>)

  /** `elec[elec['sector'] == 'RES']`. */
  function ResidentialRows(elec: seq<ElecRecord>): (res: seq<ElecRecord>)
    ensures forall r :: r in res <==> r in elec && r.sector == "RES"
  {
    Filter(elec, (r: ElecRecord) => r.sector == "RES")
  }

  /** The `groupby(['geography', 'year'])` key of a row; a missing year forms no group. */
  function GroupKeys(res: seq<ElecRecord>): (ks: seq<(string, int)>)
    ensures forall k :: k in ks <==> exists r :: r in res && r.geography == k.0 && r.year == Some(k.1)
    decreases |res|
  {
    if res == [] then []
    else
      var init, r := res[..|res| - 1], res[|res| - 1];
      assert forall x :: x in res <==> x in init || x == r;
      GroupKeys(init) + (if r.year.Some? then [(r.geography, r.year.value)] else [])
  }

  /** The distinct group keys in ascending `(geography, year)` order. */
  function SortedGroupKeys(res: seq<ElecRecord>): (ks: seq<(string, int)>)
    ensures StrictlySorted(ks, StrIntLess)
    ensures forall k :: k in ks <==> exists r :: r in res && r.geography == k.0 && r.year == Some(k.1)
  {
    StrIntLessIsStrictTotalOrder();
    SortUnique(GroupKeys(res), StrIntLess)
  }

  /** The rows of one group, in order. */
  function GroupRows(res: seq<ElecRecord>, k: (string, int)): (g: seq<ElecRecord>)
    ensures forall r :: r in g <==> r in res && r.geography == k.0 && r.year == Some(k.1)
  {
    Filter(res, (r: ElecRecord) => r.geography == k.0 && r.year == Some(k.1))
  }

  function SalesColumn(g: seq<ElecRecord>): (c: seq<Option<real>>)
    ensures |c| == |g| && forall i :: 0 <= i < |g| ==> c[i] == g[i].sales
  {
    seq(|g|, i requires 0 <= i < |g| => g[i].sales)
  }

  function PriceColumn(g: seq<ElecRecord>): (c: seq<Option<real>>)
    ensures |c| == |g| && forall i :: 0 <= i < |g| ==> c[i] == g[i].price
  {
    seq(|g|, i requires 0 <= i < |g| => g[i].price)
  }

  function CustomersColumn(g: seq<ElecRecord>): (c: seq<Option<real>>)
    ensures |c| == |g| && forall i :: 0 <= i < |g| ==> c[i] == g[i].customers
  {
    seq(|g|, i requires 0 <= i < |g| => g[i].customers)
  }

  /** One row of `elec_annual`, after the rename and the derived consumption column. */
  datatype AnnualRow = AnnualRow(state: string, year: int, sales: real, avgPrice: Option<real>,
                                 avgCustomers: Option<real>, kwhPerCustomer: Option<real>)

  /**
    `kwh_per_customer`: annual sales in million kWh over the mean customer
    count, in kWh.  Missing when the customer mean is missing, and also when
    it is zero, where pandas would produce an infinity or NaN.
   */
  function KwhPerCustomer(sales: real, avgCustomers: Option<real>): (r: Option<real>)
    ensures r.None? <==> avgCustomers.None? || avgCustomers.value == 0.0
    ensures r.Some? ==> r.value * avgCustomers.value == sales * 1000000.0
  {
    if avgCustomers.None? || avgCustomers.value == 0.0 then None
    else Some(sales * 1000000.0 / avgCustomers.value)
  }

  /** The `agg` step for one group: summed sales, mean price and mean customers. */
  function AnnualOf(res: seq<ElecRecord>, k: (string, int)): (a: AnnualRow)
    ensures a.state == k.0 && a.year == k.1
  {
    var g := GroupRows(res, k);
    var sales := SumPresent(SalesColumn(g));
    var customers := MeanPresent(CustomersColumn(g));
    AnnualRow(k.0, k.1, sales, MeanPresent(PriceColumn(g)), customers, KwhPerCustomer(sales, customers))
  }

  /** `elec_annual`: one row per `(geography, year)` group of residential rows, in ascending key order. */
  function AnnualTable(elec: seq<ElecRecord>): seq<AnnualRow>
  {
    var res := ResidentialRows(elec);
    var ks := SortedGroupKeys(res);
    seq(|ks|, i requires 0 <= i < |ks| => AnnualOf(res, ks[i]))
  }

  function AnnualKey(a: AnnualRow): (string, int)
  {
    (a.state, a.year)
  }

  /** The `(state, year)` column pair of a table. */
  function AnnualKeys(t: seq<AnnualRow>): (ks: seq<(string, int)>)
    ensures |ks| == |t| && forall i :: 0 <= i < |t| ==> ks[i] == AnnualKey(t[i])
  {
    seq(|t|, i requires 0 <= i < |t| => AnnualKey(t[i]))
  }

  /**
    The annual table has one row per `(state, year)` group, in strictly
    ascending order, and a group exists exactly when some residential row
    has that geography and year.
   */
  lemma AnnualTableKeys(elec: seq<ElecRecord>)
    ensures StrictlySorted(AnnualKeys(AnnualTable(elec)), StrIntLess)
    ensures forall k :: k in AnnualKeys(AnnualTable(elec)) <==>
              exists r :: r in elec && r.sector == "RES" && r.geography == k.0 && r.year == Some(k.1)
  {
    var res := ResidentialRows(elec);
    assert AnnualKeys(AnnualTable(elec)) == SortedGroupKeys(res);
    forall k: (string, int) ensures (exists r :: r in res && r.geography == k.0 && r.year == Some(k.1))
                 <==> exists r :: r in elec && r.sector == "RES" && r.geography == k.0 && r.year == Some(k.1)
    {
      if exists r :: r in elec && r.sector == "RES" && r.geography == k.0 && r.year == Some(k.1) {
        var r :| r in elec && r.sector == "RES" && r.geography == k.0 && r.year == Some(k.1);
        assert r in res;
      }
    }
  }

  /** A row of another sector changes nothing in the annual table. */
  lemma NonResidentialIgnored(elec: seq<ElecRecord>, r: ElecRecord)
    requires r.sector != "RES"
    ensures AnnualTable(elec + [r]) == AnnualTable(elec)
  {
    FilterAppend(elec, r, (x: ElecRecord) => x.sector == "RES");
    assert ResidentialRows(elec + [r]) == ResidentialRows(elec);
  }

  /** Within a group, sales are 0, not missing, when no month reports them. */
  lemma AnnualSalesOfNothing(res: seq<ElecRecord>, k: (string, int))
    requires forall r :: r in GroupRows(res, k) ==> r.sales.None?
    ensures AnnualOf(res, k).sales == 0.0
  {
    var g := GroupRows(res, k);
    assert forall i :: 0 <= i < |g| ==> g[i] in g;
    SumOfNothingIsZero(SalesColumn(g));
  }

  /** The mean price and mean customer count are missing exactly when no month of the group reports them. */
  lemma AnnualMeansMissing(res: seq<ElecRecord>, k: (string, int))
    ensures AnnualOf(res, k).avgPrice.None? <==> forall r :: r in GroupRows(res, k) ==> r.price.None?
    ensures AnnualOf(res, k).avgCustomers.None? <==> forall r :: r in GroupRows(res, k) ==> r.customers.None?
  {
    var g := GroupRows(res, k);
    CountPresentZero(PriceColumn(g));
    CountPresentZero(CustomersColumn(g));
    assert forall r :: r in g ==> exists i :: 0 <= i < |g| && g[i] == r;
  }

  /** The mean price of a group lies between the least and greatest monthly price. */
  lemma AnnualPriceBounds(res: seq<ElecRecord>, k: (string, int), lo: real, hi: real)
    requires forall r :: r in GroupRows(res, k) && r.price.Some? ==> lo <= r.price.value <= hi
    ensures AnnualOf(res, k).avgPrice.Some? ==> lo <= AnnualOf(res, k).avgPrice.value <= hi
  {
    var g := GroupRows(res, k);
    assert forall i :: 0 <= i < |g| ==> g[i] in g;
    MeanPresentBounds(PriceColumn(g), lo, hi);
  }

  /** One row of the expenditure CSV as read back: `year` after numeric coercion, missing when not a number. */
  datatype SedsRecord = SedsRecord(state: string, year: Option<real>, totalEnergyExpendPc: Option<real>,
                                   elecExpendPc: Option<real>, elecExpendBillion: Option<real>,
                                   totalEnergyExpendBillion: Option<real>)

  /** A SEDS row with an integer year. */
  datatype SedsYearRow = SedsYearRow(state: string, year: int, totalEnergyExpendPc: Option<real>,
                                     elecExpendPc: Option<real>, elecExpendBillion: Option<real>,
                                     totalEnergyExpendBillion: Option<real>)

  /** `astype(int)`: truncation toward zero. */
  function TruncToInt(x: real): (n: int)
    ensures x >= 0.0 ==> n as real <= x < n as real + 1.0
    ensures x < 0.0 ==> n as real - 1.0 < x <= n as real
  {
    if x >= 0.0 then x.Floor else -((-x).Floor)
  }

  lemma TruncOfInteger(n: int)
    ensures TruncToInt(n as real) == n
  {
  }

  /** The year coercion: rows whose year is not a number are dropped, the others get an integer year; order is kept. */
  function CleanSeds(seds: seq<SedsRecord>): (c: seq<SedsYearRow>)
    ensures |c| <= |seds|
    decreases |seds|
  {
    if seds == [] then []
    else
      var s := seds[|seds| - 1];
      CleanSeds(seds[..|seds| - 1])
      + (if s.year.Some?
         then [SedsYearRow(s.state, TruncToInt(s.year.value), s.totalEnergyExpendPc, s.elecExpendPc,
                           s.elecExpendBillion, s.totalEnergyExpendBillion)]
         else [])
  }

  /**
    A cleaned row comes from a row with a numeric year, truncated, and every
    such row gives one; a row whose year is missing leaves no trace.
   */
  lemma {:induction false} CleanSedsMembers(seds: seq<SedsRecord>)
    ensures forall c :: c in CleanSeds(seds) <==>
              exists s :: s in seds && s.year.Some? && c == SedsYearRow(s.state, TruncToInt(s.year.value),
                                  s.totalEnergyExpendPc, s.elecExpendPc, s.elecExpendBillion, s.totalEnergyExpendBillion)
    decreases |seds|
  {
    if seds != [] {
      var init := seds[..|seds| - 1];
      CleanSedsMembers(init);
      assert forall x :: x in seds <==> x in init || x == seds[|seds| - 1];
    }
  }

  lemma CleanSedsDropsMissingYear(seds: seq<SedsRecord>, s: SedsRecord)
    requires s.year.None?
    ensures CleanSeds(seds + [s]) == CleanSeds(seds)
  {
    assert (seds + [s])[..|seds|] == seds;
  }

  function SedsKey(s: SedsYearRow): (string, int)
  {
    (s.state, s.year)
  }

  /** An annual row with the two expenditure columns the first merge attaches. */
  datatype SpendRow = SpendRow(annual: AnnualRow, elecExpendPc: Option<real>, totalEnergyExpendPc: Option<real>)

  function AttachSpend(a: AnnualRow, s: Option<SedsYearRow>): SpendRow
  {
    match s
    case None => SpendRow(a, None, None)
    case Some(s) => SpendRow(a, s.elecExpendPc, s.totalEnergyExpendPc)
  }

  /** The first merge: `how='left'` on `['state', 'year']`. */
  function MergeSpend(annual: seq<AnnualRow>, seds: seq<SedsYearRow>): seq<SpendRow>
  {
    LeftJoin(annual, seds, AnnualKey, SedsKey, AttachSpend)
  }

  /**
    With one SEDS row per `(state, year)`, the expenditure join keeps every
    annual row, in order, and attaches the matching row's per-capita
    expenditures, or nothing where no row matches.
   */
  lemma MergeSpendKeepsRows(annual: seq<AnnualRow>, seds: seq<SedsYearRow>)
    requires UniqueKeys(seds, SedsKey)
    ensures var m := MergeSpend(annual, seds);
            |m| == |annual| &&
            forall i :: 0 <= i < |m| ==>
              m[i].annual == annual[i] &&
              match Find(seds, SedsKey, AnnualKey(annual[i]))
              case None => m[i].elecExpendPc.None? && m[i].totalEnergyExpendPc.None?
              case Some(s) => m[i].elecExpendPc == s.elecExpendPc && m[i].totalEnergyExpendPc == s.totalEnergyExpendPc
  {
    LeftJoinUnique(annual, seds, AnnualKey, SedsKey, AttachSpend);
  }

  /**
    Whatever the SEDS side holds, no annual row is lost: it is joined with
    each SEDS row of its `(state, year)`, and kept with empty expenditures
    when there is none.
   */
  lemma MergeSpendKeepsEveryRow(annual: seq<AnnualRow>, seds: seq<SedsYearRow>)
    ensures forall i, s :: 0 <= i < |annual| && s in seds && SedsKey(s) == AnnualKey(annual[i]) ==>
              SpendRow(annual[i], s.elecExpendPc, s.totalEnergyExpendPc) in MergeSpend(annual, seds)
    ensures forall i :: 0 <= i < |annual| && (forall s :: s in seds ==> SedsKey(s) != AnnualKey(annual[i])) ==>
              SpendRow(annual[i], None, None) in MergeSpend(annual, seds)
  {
    forall i | 0 <= i < |annual|
      ensures forall s :: s in seds && SedsKey(s) == AnnualKey(annual[i]) ==>
                SpendRow(annual[i], s.elecExpendPc, s.totalEnergyExpendPc) in MergeSpend(annual, seds)
      ensures (forall s :: s in seds ==> SedsKey(s) != AnnualKey(annual[i])) ==>
                SpendRow(annual[i], None, None) in MergeSpend(annual, seds)
    {
      JoinRowCovers(annual[i], seds, AnnualKey, SedsKey, AttachSpend);
      JoinRowInLeftJoin(annual, seds, AnnualKey, SedsKey, AttachSpend, i);
    }
  }

  /** One row of the master table. */
  datatype MasterRow = MasterRow(state: string, year: int, sales: real, avgPrice: Option<real>,
                                 avgCustomers: Option<real>, kwhPerCustomer: Option<real>,
                                 elecExpendPc: Option<real>, totalEnergyExpendPc: Option<real>,
                                 saidi: Option<real>, saifi: Option<real>, estAnnualBill: Option<real>)

  /**
    `est_annual_bill`: the mean price, converted from cents to dollars, times
    the annual consumption per customer; missing when either is missing.
   */
  function EstAnnualBill(avgPrice: Option<real>, kwh: Option<real>): (r: Option<real>)
    ensures r.None? <==> avgPrice.None? || kwh.None?
    ensures r.Some? ==> r.value * 100.0 == avgPrice.value * kwh.value
  {
    if avgPrice.None? || kwh.None? then None else Some(avgPrice.value / 100.0 * kwh.value)
  }

  function SpendState(r: SpendRow): string
  {
    r.annual.state
  }

  function ReliabilityState(r: StateRow): string
  {
    r.state
  }

  /** The second merge's row, with the derived bill: `saidi`/`saifi` are the without-major-event averages. */
  function AttachReliability(r: SpendRow, rel: Option<StateRow>): MasterRow
  {
    var a := r.annual;
    MasterRow(a.state, a.year, a.sales, a.avgPrice, a.avgCustomers, a.kwhPerCustomer,
              r.elecExpendPc, r.totalEnergyExpendPc,
              if rel.Some? then rel.value.saidiWoMed else None,
              if rel.Some? then rel.value.saifiWoMed else None,
              EstAnnualBill(a.avgPrice, a.kwhPerCustomer))
  }

  /** The second merge: `how='left'` on `state` alone, followed by the bill column. */
  function MergeReliability(spend: seq<SpendRow>, reliability: seq<StateRow>): seq<MasterRow>
  {
    LeftJoin(spend, reliability, SpendState, ReliabilityState, AttachReliability)
  }

  /** The whole of `main` apart from I/O: aggregate, derive, merge twice, derive the bill. */
  function MasterTable(elec: seq<ElecRecord>, seds: seq<SedsRecord>, reliability: seq<StateRow>): seq<MasterRow>
  {
    MergeReliability(MergeSpend(AnnualTable(elec), CleanSeds(seds)), reliability)
  }

  /**
    The reliability join is on `state` alone: with one reliability row per
    state, every row keeps its place and passes its electricity and
    expenditure columns through unchanged, and any two rows of the same state,
    whatever their years, carry the same `saidi` and `saifi`, taken from the
    without-major-event averages, or both have none.
   */
  lemma ReliabilityJoinIgnoresYear(spend: seq<SpendRow>, reliability: seq<StateRow>)
    requires UniqueKeys(reliability, ReliabilityState)
    ensures var m := MergeReliability(spend, reliability);
            |m| == |spend|
            && (forall i :: 0 <= i < |m| ==>
                  m[i].state == spend[i].annual.state && m[i].year == spend[i].annual.year &&
                  m[i].sales == spend[i].annual.sales && m[i].avgPrice == spend[i].annual.avgPrice &&
                  m[i].avgCustomers == spend[i].annual.avgCustomers &&
                  m[i].kwhPerCustomer == spend[i].annual.kwhPerCustomer &&
                  m[i].elecExpendPc == spend[i].elecExpendPc &&
                  m[i].totalEnergyExpendPc == spend[i].totalEnergyExpendPc &&
                  m[i].estAnnualBill == EstAnnualBill(spend[i].annual.avgPrice, spend[i].annual.kwhPerCustomer) &&
                  match Find(reliability, ReliabilityState, m[i].state)
                  case None => m[i].saidi.None? && m[i].saifi.None?
                  case Some(rel) => m[i].saidi == rel.saidiWoMed && m[i].saifi == rel.saifiWoMed)
            && forall i, j :: 0 <= i < |m| && 0 <= j < |m| && m[i].state == m[j].state ==>
                  m[i].saidi == m[j].saidi && m[i].saifi == m[j].saifi
  {
    LeftJoinUnique(spend, reliability, SpendState, ReliabilityState, AttachReliability);
  }

  /** The state table of the reliability stage has one row per state. */
  lemma StateTableUniqueStates(survey: seq<SurveyRow>)
    ensures UniqueKeys(StateTable(survey), ReliabilityState)
  {
    var t := StateTable(survey);
    StateTableStates(survey);
    StrLessIsStrictTotalOrder();
    forall i, j | 0 <= i < j < |t| ensures ReliabilityState(t[i]) != ReliabilityState(t[j]) {
      assert StrLess(StatesOf(t)[i], StatesOf(t)[j]);
    }
  }

  /**
    Fed the reliability stage's own state table and a SEDS file with one row
    per `(state, year)`, the master table has exactly one row per annual
    electricity row, with the same state, year and derived columns, and the
    expenditures of its `(state, year)`, empty where the SEDS file has none.
   */
  lemma MasterTableShape(elec: seq<ElecRecord>, seds: seq<SedsRecord>, survey: seq<SurveyRow>)
    requires UniqueKeys(CleanSeds(seds), SedsKey)
    ensures var a := AnnualTable(elec);
            var m := MasterTable(elec, seds, StateTable(survey));
            |m| == |a| &&
            forall i :: 0 <= i < |m| ==>
              m[i].state == a[i].state && m[i].year == a[i].year && m[i].sales == a[i].sales &&
              m[i].kwhPerCustomer == a[i].kwhPerCustomer &&
              m[i].avgPrice == a[i].avgPrice && m[i].avgCustomers == a[i].avgCustomers &&
              m[i].estAnnualBill == EstAnnualBill(a[i].avgPrice, a[i].kwhPerCustomer) &&
              match Find(CleanSeds(seds), SedsKey, AnnualKey(a[i]))
              case None => m[i].elecExpendPc.None? && m[i].totalEnergyExpendPc.None?
              case Some(s) => m[i].elecExpendPc == s.elecExpendPc && m[i].totalEnergyExpendPc == s.totalEnergyExpendPc
  {
    var a := AnnualTable(elec);
    var spend := MergeSpend(a, CleanSeds(seds));
    MergeSpendKeepsRows(a, CleanSeds(seds));
    StateTableUniqueStates(survey);
    LeftJoinUnique(spend, StateTable(survey), SpendState, ReliabilityState, AttachReliability);
  }
}
