/**
  The reliability survey (eia_extraction/extract_reliability.py): each
  utility reports SAIDI, SAIFI and CAIDI, with and without major event days,
  under the IEEE standard, another standard, or neither.  The two are
  coalesced into one set of columns per utility, and the eligible utilities
  of each state are combined into customer-weighted state averages.
 */
module Reliability {
  import opened Wrappers
  import opened Ordering
  import opened Tables

  /** One standard's block of the survey row, after numeric coercion: missing is `None`. */
  datatype Block = Block(saidiWithMed: Option<real>, saifiWithMed: Option<real>, caidiWithMed: Option<real>,
                         saidiWoMed: Option<real>, saifiWoMed: Option<real>, caidiWoMed: Option<real>,
                         customers: Option<real>)

  /** The numeric columns a block has, to speak of "every field" at once. */
  datatype Field = SaidiWithMed | SaifiWithMed | CaidiWithMed | SaidiWoMed | SaifiWoMed | CaidiWoMed | Customers

  function Get(b: Block, f: Field): Option<real>
  {
    match f
    case SaidiWithMed => b.saidiWithMed
    case SaifiWithMed => b.saifiWithMed
    case CaidiWithMed => b.caidiWithMed
    case SaidiWoMed => b.saidiWoMed
    case SaifiWoMed => b.saifiWoMed
    case CaidiWoMed => b.caidiWoMed
    case Customers => b.customers
  }

  /** One utility's row of the survey; `state` is missing when the cell is empty. */
  datatype SurveyRow = SurveyRow(dataYear: string, utilityNumber: string, utilityName: string,
                                 state: Option<string>, ownership: string, ieee: Block, other: Block)

  datatype Standard = IEEE | Other | NoStandard

  /** One row of the utility-level table: the coalesced block and the standard it was reported under. */
  datatype UtilityRow = UtilityRow(dataYear: string, utilityNumber: string, utilityName: string,
                                   state: Option<string>, ownership: string, values: Block, standard: Standard)

  /** pandas `a.fillna(b)` on one cell. */
  function FillNa(a: Option<real>, b: Option<real>): (r: Option<real>)
    ensures a.Some? ==> r == a
    ensures a.None? ==> r == b
  {
    if a.Some? then a else b
  }

  /** The `standard` column: the standard under which SAIDI with major events was reported. */
  function StandardOf(r: SurveyRow): (s: Standard)
    ensures s == IEEE <==> r.ieee.saidiWithMed.Some?
    ensures s == Other <==> r.ieee.saidiWithMed.None? && r.other.saidiWithMed.Some?
    ensures s == NoStandard <==> r.ieee.saidiWithMed.None? && r.other.saidiWithMed.None?
  {
    if r.ieee.saidiWithMed.Some? then IEEE
    else if r.other.saidiWithMed.Some? then Other
    else NoStandard
  }

  /** The coalescing assignments and the `standard` tag for one row. */
  function Coalesce(r: SurveyRow): (u: UtilityRow)
    ensures forall f :: Get(u.values, f) == FillNa(Get(r.ieee, f), Get(r.other, f))
    ensures u.standard == StandardOf(r)
    ensures u.state == r.state
  {
    var i, o := r.ieee, r.other;
    UtilityRow(r.dataYear, r.utilityNumber, r.utilityName, r.state, r.ownership,
               Block(FillNa(i.saidiWithMed, o.saidiWithMed), FillNa(i.saifiWithMed, o.saifiWithMed),
                     FillNa(i.caidiWithMed, o.caidiWithMed), FillNa(i.saidiWoMed, o.saidiWoMed),
                     FillNa(i.saifiWoMed, o.saifiWoMed), FillNa(i.caidiWoMed, o.caidiWoMed),
                     FillNa(i.customers, o.customers)),
               StandardOf(r))
  }

  /**
    A coalesced field is present exactly when either standard reports it; the
    IEEE value wins when both do.  The standard is recorded exactly when SAIDI
    with major events is present, and it names the block that value came from.
   */
  lemma CoalesceProperties(r: SurveyRow, f: Field)
    ensures Get(Coalesce(r).values, f).Some? <==> Get(r.ieee, f).Some? || Get(r.other, f).Some?
    ensures Get(r.ieee, f).Some? ==> Get(Coalesce(r).values, f) == Get(r.ieee, f)
    ensures Coalesce(r).standard != NoStandard <==> Coalesce(r).values.saidiWithMed.Some?
    ensures Coalesce(r).standard == IEEE ==> Coalesce(r).values.saidiWithMed == r.ieee.saidiWithMed
    ensures Coalesce(r).standard == Other ==> Coalesce(r).values.saidiWithMed == r.other.saidiWithMed
  {
    assert Get(Coalesce(r).values, SaidiWithMed) == FillNa(r.ieee.saidiWithMed, r.other.saidiWithMed);
  }

  /** `utility_df`: every survey row, coalesced, in order. */
  function UtilityTable(survey: seq<SurveyRow>): (t: seq<UtilityRow>)
    ensures |t| == |survey| && forall i :: 0 <= i < |t| ==> t[i] == Coalesce(survey[i])
  {
    seq(|survey|, i requires 0 <= i < |survey| => Coalesce(survey[i]))
  }

  /** The `valid` mask: a positive customer count and SAIDI with or without major events. */
  predicate Eligible(u: UtilityRow)
  {
    u.values.customers.Some? && u.values.customers.value > 0.0
    && (u.values.saidiWithMed.Some? || u.values.saidiWoMed.Some?)
  }

  /** Every weight present in the group is positive, as it is in any group of eligible rows. */
  ghost predicate PositiveWeights(g: seq<UtilityRow>)
  {
    forall u :: u in g && u.values.customers.Some? ==> u.values.customers.value > 0.0
  }

  /** The `weighted_avg` mask: the row has both the metric and the weight. */
  predicate Contributes(u: UtilityRow, f: Field)
  {
    Get(u.values, f).Some? && u.values.customers.Some?
  }

  /** The (weight, value) pairs the mask selects, in row order. */
  function Contributions(g: seq<UtilityRow>, f: Field): (ps: seq<(real, real)>)
    ensures ps == [] <==> forall u :: u in g ==> !Contributes(u, f)
    ensures forall p :: p in ps ==> exists u :: u in g && Contributes(u, f)
                                        && p == (u.values.customers.value, Get(u.values, f).value)
    decreases |g|
  {
    if g == [] then []
    else
      var init, u := g[..|g| - 1], g[|g| - 1];
      assert forall x :: x in g <==> x in init || x == u;
      Contributions(init, f)
      + (if Contributes(u, f) then [(u.values.customers.value, Get(u.values, f).value)] else [])
  }

  /** Every row having both the metric and the weight contributes its pair. */
  lemma {:induction false} ContributionsComplete(g: seq<UtilityRow>, f: Field)
    ensures forall u :: u in g && Contributes(u, f) ==>
              (u.values.customers.value, Get(u.values, f).value) in Contributions(g, f)
    decreases |g|
  {
    if g != [] {
      var init, u := g[..|g| - 1], g[|g| - 1];
      assert g == init + [u];
      ContributionsComplete(init, f);
    }
  }

  /** The `weighted_avg` mask as a row filter. */
  function ContributesTo(f: Field): UtilityRow -> bool
  {
    u => Contributes(u, f)
  }

  /**
    The pairs are exactly those of the rows the mask keeps, one per row and
    in row order, so a row appearing twice contributes twice.
   */
  lemma {:induction false} ContributionsAreMaskedRows(g: seq<UtilityRow>, f: Field)
    ensures var rows := Filter(g, ContributesTo(f));
            |Contributions(g, f)| == |rows|
            && forall i :: 0 <= i < |rows| ==>
                 Contributes(rows[i], f)
                 && Contributions(g, f)[i] == (rows[i].values.customers.value, Get(rows[i].values, f).value)
    decreases |g|
  {
    if g != [] {
      var init, u := g[..|g| - 1], g[|g| - 1];
      assert g == init + [u];
      ContributionsAreMaskedRows(init, f);
      FilterAppend(init, u, ContributesTo(f));
      var ps, rows := Contributions(g, f), Filter(g, ContributesTo(f));
      var pinit, rinit := Contributions(init, f), Filter(init, ContributesTo(f));
      assert ps == pinit + (if Contributes(u, f) then [(u.values.customers.value, Get(u.values, f).value)] else []);
      assert rows == rinit + (if Contributes(u, f) then [u] else []);
      forall i | 0 <= i < |rows|
        ensures Contributes(rows[i], f) && ps[i] == (rows[i].values.customers.value, Get(rows[i].values, f).value)
      {
        if i < |rinit| {
          assert rows[i] == rinit[i] && ps[i] == pinit[i];
        }
      }
    }
  }

  /** Σ wᵢ·vᵢ. */
  function WeightedSum(ps: seq<(real, real)>): real
    decreases |ps|
  {
    if ps == [] then 0.0 else WeightedSum(ps[..|ps| - 1]) + ps[|ps| - 1].0 * ps[|ps| - 1].1
  }

  /** Σ wᵢ. */
  function WeightTotal(ps: seq<(real, real)>): real
    decreases |ps|
  {
    if ps == [] then 0.0 else WeightTotal(ps[..|ps| - 1]) + ps[|ps| - 1].0
  }

  lemma {:induction false} WeightTotalPositive(ps: seq<(real, real)>)
    requires forall p :: p in ps ==> p.0 > 0.0
    ensures ps != [] ==> WeightTotal(ps) > 0.0
    ensures WeightTotal(ps) >= 0.0
    decreases |ps|
  {
    if ps != [] {
      var init := ps[..|ps| - 1];
      assert forall p :: p in init ==> p in ps;
      WeightTotalPositive(init);
      assert ps[|ps| - 1] in ps;
    }
  }

  /** The selected pairs carry positive weights, and values within any bounds the contributing rows respect. */
  lemma ContributionsWithin(g: seq<UtilityRow>, f: Field, lo: real, hi: real)
    requires PositiveWeights(g)
    requires forall u :: u in g && Contributes(u, f) ==> lo <= Get(u.values, f).value <= hi
    ensures forall p :: p in Contributions(g, f) ==> p.0 > 0.0 && lo <= p.1 <= hi
  {
  }

  /** `weighted_avg`: missing when no row has both the metric and the weight, else Σwᵢvᵢ / Σwᵢ. */
  function WeightedAvg(g: seq<UtilityRow>, f: Field): (r: Option<real>)
    requires PositiveWeights(g)
    ensures r.None? <==> forall u :: u in g ==> !Contributes(u, f)
  {
    var ps := Contributions(g, f);
    assert forall p :: p in ps ==> p.0 > 0.0;
    WeightTotalPositive(ps);
    if ps == [] then None else Some(WeightedSum(ps) / WeightTotal(ps))
  }

  /** Σ wᵢ·(vᵢ - c): the weighted deviation of the values from `c`. */
  function Deviation(ps: seq<(real, real)>, c: real): real
    decreases |ps|
  {
    if ps == [] then 0.0 else Deviation(ps[..|ps| - 1], c) + ps[|ps| - 1].0 * (ps[|ps| - 1].1 - c)
  }

  lemma {:induction false} DeviationIsShift(ps: seq<(real, real)>, c: real)
    ensures Deviation(ps, c) == WeightedSum(ps) - c * WeightTotal(ps)
    decreases |ps|
  {
    if ps != [] {
      var init, last := ps[..|ps| - 1], ps[|ps| - 1];
      DeviationIsShift(init, c);
      ShiftStep(last.0, last.1, c, WeightTotal(init));
    }
  }

  lemma ShiftStep(w: real, v: real, c: real, t0: real)
    ensures w * (v - c) == w * v - c * w
    ensures c * (t0 + w) == c * t0 + c * w
  {
  }

  lemma {:induction false} DeviationSign(ps: seq<(real, real)>, lo: real, hi: real)
    requires forall p :: p in ps ==> p.0 > 0.0 && lo <= p.1 <= hi
    ensures Deviation(ps, lo) >= 0.0 && Deviation(ps, hi) <= 0.0
    decreases |ps|
  {
    if ps != [] {
      var init, last := ps[..|ps| - 1], ps[|ps| - 1];
      assert forall p :: p in init ==> p in ps;
      DeviationSign(init, lo, hi);
      assert last in ps;
      SignStep(Deviation(init, lo), Deviation(init, hi), last.0, last.1, lo, hi);
    }
  }

  /** Adding one positively weighted deviation keeps both signs. */
  lemma SignStep(dLo: real, dHi: real, w: real, v: real, lo: real, hi: real)
    requires w > 0.0 && lo <= v <= hi && dLo >= 0.0 && dHi <= 0.0
    ensures dLo + w * (v - lo) >= 0.0 && dHi + w * (v - hi) <= 0.0
  {
    assert w * (v - lo) >= 0.0;
    assert w * (hi - v) >= 0.0;
  }

  /** With positive weights, lo·Σw ≤ Σw·v ≤ hi·Σw. */
  lemma {:induction false} WeightedSumBounds(ps: seq<(real, real)>, lo: real, hi: real)
    requires forall p :: p in ps ==> p.0 > 0.0 && lo <= p.1 <= hi
    ensures lo * WeightTotal(ps) <= WeightedSum(ps) <= hi * WeightTotal(ps)
  {
    DeviationSign(ps, lo, hi);
    DeviationIsShift(ps, lo);
    DeviationIsShift(ps, hi);
  }

  /** With positive weights, the weighted average lies between the least and greatest contributing value. */
  lemma WeightedAvgBounds(g: seq<UtilityRow>, f: Field, lo: real, hi: real)
    requires PositiveWeights(g)
    requires forall u :: u in g && Contributes(u, f) ==> lo <= Get(u.values, f).value <= hi
    ensures WeightedAvg(g, f).Some? ==> lo <= WeightedAvg(g, f).value <= hi
  {
    ContributionsWithin(g, f, lo, hi);
    AverageBounds(Contributions(g, f), lo, hi);
  }

  lemma {:induction false} AverageBounds(ps: seq<(real, real)>, lo: real, hi: real)
    requires ps != [] ==> forall p :: p in ps ==> p.0 > 0.0 && lo <= p.1 <= hi
    ensures ps != [] ==> WeightTotal(ps) > 0.0 && lo <= WeightedSum(ps) / WeightTotal(ps) <= hi
  {
    if ps != [] {
      WeightTotalPositive(ps);
      WeightedSumBounds(ps, lo, hi);
      DivideBounds(WeightedSum(ps), WeightTotal(ps), lo, hi);
    }
  }

  /** The two rows agree on the metric `f` and on the weight. */
  predicate SameColumn(a: UtilityRow, b: UtilityRow, f: Field)
  {
    Get(a.values, f) == Get(b.values, f) && a.values.customers == b.values.customers
  }

  /**
    Each metric is averaged on its own: two groups whose rows agree on that
    metric and on the weights select the same pairs, and so have the same
    average, whatever their other columns hold.
   */
  lemma {:induction false} ContributionsIndependent(g: seq<UtilityRow>, h: seq<UtilityRow>, f: Field)
    requires |g| == |h| && forall i :: 0 <= i < |g| ==> SameColumn(g[i], h[i], f)
    ensures Contributions(g, f) == Contributions(h, f)
    decreases |g|
  {
    if g != [] {
      var n := |g| - 1;
      forall i | 0 <= i < n ensures SameColumn(g[..n][i], h[..n][i], f) {
        assert g[..n][i] == g[i] && h[..n][i] == h[i];
      }
      ContributionsIndependent(g[..n], h[..n], f);
      assert SameColumn(g[n], h[n], f);
    }
  }

  lemma WeightedAvgIndependent(g: seq<UtilityRow>, h: seq<UtilityRow>, f: Field)
    requires PositiveWeights(g) && PositiveWeights(h)
    requires |g| == |h| && forall i :: 0 <= i < |g| ==> SameColumn(g[i], h[i], f)
    ensures WeightedAvg(g, f) == WeightedAvg(h, f)
  {
    ContributionsIndependent(g, h, f);
  }

  function Sample(customers: real, saidi: real): UtilityRow
  {
    UtilityRow("2024", "0", "", Some("TN"), "", Block(Some(saidi), None, None, None, None, None, Some(customers)), IEEE)
  }

  /** Weights 100 and 200 on values 50 and 100 average to 250/3, about 83.33. */
  lemma WeightedAvgExample()
    ensures WeightedAvg([Sample(100.0, 50.0), Sample(200.0, 100.0)], SaidiWithMed) == Some(250.0 / 3.0)
  {
    SampleContributions();
    SamplePairs();
  }

  lemma SampleContributions()
    ensures Contributions([Sample(100.0, 50.0), Sample(200.0, 100.0)], SaidiWithMed) == [(100.0, 50.0), (200.0, 100.0)]
  {
    var g := [Sample(100.0, 50.0), Sample(200.0, 100.0)];
    assert g[..1] == [Sample(100.0, 50.0)] && g[..1][..0] == [];
  }

  lemma SamplePairs()
    ensures WeightedSum([(100.0, 50.0), (200.0, 100.0)]) == 25000.0
    ensures WeightTotal([(100.0, 50.0), (200.0, 100.0)]) == 300.0
  {
    var ps: seq<(real, real)> := [(100.0, 50.0), (200.0, 100.0)];
    assert ps[..1] == [(100.0, 50.0)] && ps[..1][..0] == [];
  }

  /** `valid`: the eligible rows, in order. */
  function ValidRows(survey: seq<SurveyRow>): seq<UtilityRow>
  {
    Filter(UtilityTable(survey), Eligible)
  }

  /** The rows of one state. */
  function StateGroup(valid: seq<UtilityRow>, state: string): (g: seq<UtilityRow>)
    ensures forall u :: u in g <==> u in valid && u.state == Some(state)
  {
    Filter(valid, (u: UtilityRow) => u.state == Some(state))
  }

  /** The states the eligible rows name, in row order, repeats included; rows with no state form no group. */
  function KnownStates(valid: seq<UtilityRow>): (r: seq<string>)
    ensures forall st :: st in r <==> exists u :: u in valid && u.state == Some(st)
    decreases |valid|
  {
    if valid == [] then []
    else
      var init := valid[..|valid| - 1];
      var u := valid[|valid| - 1];
      assert forall x :: x in valid <==> x in init || x == u;
      KnownStates(init) + (if u.state.Some? then [u.state.value] else [])
  }

  /** One row of the state table. */
  datatype StateRow = StateRow(state: string, year: int, saidiWithMed: Option<real>, saifiWithMed: Option<real>,
                               saidiWoMed: Option<real>, saifiWoMed: Option<real>,
                               totalCustomers: real, utilityCount: nat)

  /** The survey year stamped on every state row. */
  const SurveyYear: int := 2024

  function CustomersColumn(g: seq<UtilityRow>): (c: seq<Option<real>>)
    ensures |c| == |g| && forall i :: 0 <= i < |g| ==> c[i] == g[i].values.customers
  {
    seq(|g|, i requires 0 <= i < |g| => g[i].values.customers)
  }

  /** The `apply` lambda for one state's group. */
  function Aggregate(state: string, g: seq<UtilityRow>): StateRow
    requires PositiveWeights(g)
  {
    StateRow(state, SurveyYear, WeightedAvg(g, SaidiWithMed), WeightedAvg(g, SaifiWithMed),
             WeightedAvg(g, SaidiWoMed), WeightedAvg(g, SaifiWoMed),
             SumPresent(CustomersColumn(g)), |g|)
  }

  lemma EligibleHavePositiveWeights(g: seq<UtilityRow>)
    requires forall u :: u in g ==> Eligible(u)
    ensures PositiveWeights(g)
  {
  }

  /** `state_agg` for the survey: the aggregation of its eligible rows. */
  function StateTable(survey: seq<SurveyRow>): seq<StateRow>
  {
    AggregateStates(ValidRows(survey))
  }

  /** The states of the eligible rows, ascending, each once. */
  function SortedStates(valid: seq<UtilityRow>): (r: seq<string>)
    ensures StrictlySorted(r, StrLess)
    ensures forall st :: st in r <==> exists u :: u in valid && u.state == Some(st)
  {
    StrLessIsStrictTotalOrder();
    SortUnique(KnownStates(valid), StrLess)
  }

  /** The state row for one group of eligible rows. */
  function StateAggregate(valid: seq<UtilityRow>, state: string): (row: StateRow)
    requires forall u :: u in valid ==> Eligible(u)
    ensures row.state == state
  {
    var g := StateGroup(valid, state);
    EligibleHavePositiveWeights(g);
    Aggregate(state, g)
  }

  /** The `groupby("state").apply(...)` step: one row per state, in ascending state order. */
  function AggregateStates(valid: seq<UtilityRow>): (t: seq<StateRow>)
    requires forall u :: u in valid ==> Eligible(u)
  {
    var states := SortedStates(valid);
    seq(|states|, i requires 0 <= i < |states| => StateAggregate(valid, states[i]))
  }

  /** `valid` holds exactly the coalesced survey rows that are eligible. */
  lemma ValidRowsMembers(survey: seq<SurveyRow>)
    ensures forall u :: u in ValidRows(survey) <==> Eligible(u) && exists r :: r in survey && u == Coalesce(r)
  {
    var t := UtilityTable(survey);
    forall u ensures u in t <==> exists r :: r in survey && u == Coalesce(r) {
      if u in t {
        var j :| 0 <= j < |t| && t[j] == u;
        assert survey[j] in survey;
      }
      if exists r :: r in survey && u == Coalesce(r) {
        var r :| r in survey && u == Coalesce(r);
        var j :| 0 <= j < |survey| && survey[j] == r;
        assert t[j] == u;
      }
    }
  }

  /** The `state` column of a table. */
  function StatesOf(t: seq<StateRow>): (ss: seq<string>)
    ensures |ss| == |t| && forall i :: 0 <= i < |t| ==> ss[i] == t[i].state
  {
    seq(|t|, i requires 0 <= i < |t| => t[i].state)
  }

  /**
    The aggregate lists each state once, in ascending order, and a state is
    listed exactly when some eligible row names it.
   */
  lemma AggregateStatesKeys(valid: seq<UtilityRow>)
    requires forall u :: u in valid ==> Eligible(u)
    ensures StrictlySorted(StatesOf(AggregateStates(valid)), StrLess)
    ensures forall st :: st in StatesOf(AggregateStates(valid)) <==> exists u :: u in valid && u.state == Some(st)
  {
    assert StatesOf(AggregateStates(valid)) == SortedStates(valid);
  }

  /**
    The state table lists each state once, in ascending order, and a state
    is listed exactly when some eligible utility reports it.
   */
  lemma StateTableStates(survey: seq<SurveyRow>)
    ensures StrictlySorted(StatesOf(StateTable(survey)), StrLess)
    ensures forall st :: st in StatesOf(StateTable(survey))
                     <==> exists r :: r in survey && Eligible(Coalesce(r)) && r.state == Some(st)
  {
    var valid := ValidRows(survey);
    AggregateStatesKeys(valid);
    EligibleStatesOfSurvey(survey);
  }

  /** A state is named by an eligible row of `valid` exactly when an eligible survey row names it. */
  lemma EligibleStatesOfSurvey(survey: seq<SurveyRow>)
    ensures forall st :: (exists u :: u in ValidRows(survey) && u.state == Some(st))
                     <==> exists r :: r in survey && Eligible(Coalesce(r)) && r.state == Some(st)
  {
    var valid := ValidRows(survey);
    ValidRowsMembers(survey);
    forall st ensures (exists u :: u in valid && u.state == Some(st))
                  <==> exists r :: r in survey && Eligible(Coalesce(r)) && r.state == Some(st)
    {
      if exists r :: r in survey && Eligible(Coalesce(r)) && r.state == Some(st) {
        var r :| r in survey && Eligible(Coalesce(r)) && r.state == Some(st);
        assert Coalesce(r) in valid;
      }
    }
  }

  /**
    Every state row carries the survey year; its four reliability columns are
    the customer-weighted averages over the eligible rows of that state; its
    utility count is the number of those rows, at least one, and its
    customer total is their summed customers, which is positive.
   */
  lemma StateTableRows(survey: seq<SurveyRow>)
    ensures forall row :: row in StateTable(survey) ==>
              var g := StateGroup(ValidRows(survey), row.state);
              row.year == SurveyYear && PositiveWeights(g)
              && row.saidiWithMed == WeightedAvg(g, SaidiWithMed) && row.saifiWithMed == WeightedAvg(g, SaifiWithMed)
              && row.saidiWoMed == WeightedAvg(g, SaidiWoMed) && row.saifiWoMed == WeightedAvg(g, SaifiWoMed)
              && row.utilityCount == |g| >= 1
              && row.totalCustomers == SumPresent(CustomersColumn(g)) > 0.0
  {
    var valid := ValidRows(survey);
    var states := SortedStates(valid);
    var t := StateTable(survey);
    assert StatesOf(t) == states;
    forall row | row in t
      ensures var g := StateGroup(valid, row.state);
              row.year == SurveyYear && PositiveWeights(g)
              && row.saidiWithMed == WeightedAvg(g, SaidiWithMed) && row.saifiWithMed == WeightedAvg(g, SaifiWithMed)
              && row.saidiWoMed == WeightedAvg(g, SaidiWoMed) && row.saifiWoMed == WeightedAvg(g, SaifiWoMed)
              && row.utilityCount == |g| >= 1
              && row.totalCustomers == SumPresent(CustomersColumn(g)) > 0.0
    {
      var i :| 0 <= i < |t| && t[i] == row;
      var g := StateGroup(valid, states[i]);
      assert row == StateAggregate(valid, states[i]);
      assert states[i] in states;
      var u :| u in valid && u.state == Some(states[i]);
      assert u in g;
      EligibleCustomersPositive(g);
    }
  }

  /** A non-empty group of eligible rows has a positive customer total. */
  lemma {:induction false} EligibleCustomersPositive(g: seq<UtilityRow>)
    requires forall u :: u in g ==> Eligible(u)
    ensures SumPresent(CustomersColumn(g)) >= 0.0
    ensures g != [] ==> SumPresent(CustomersColumn(g)) > 0.0
    decreases |g|
  {
    if g != [] {
      var init := g[..|g| - 1];
      assert forall u :: u in init ==> u in g;
      EligibleCustomersPositive(init);
      assert CustomersColumn(g)[..|g| - 1] == CustomersColumn(init);
      assert g[|g| - 1] in g;
    }
  }

  /** A survey row that is not eligible changes no state row. */
  lemma IneligibleRowIgnored(survey: seq<SurveyRow>, r: SurveyRow)
    requires !Eligible(Coalesce(r))
    ensures StateTable(survey + [r]) == StateTable(survey)
  {
    assert UtilityTable(survey + [r]) == UtilityTable(survey) + [Coalesce(r)];
    FilterAppend(UtilityTable(survey), Coalesce(r), Eligible);
    assert ValidRows(survey + [r]) == ValidRows(survey);
  }
}
