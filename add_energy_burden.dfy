/**
  The energy burden (eia_extraction/add_energy_burden.py): the master table
  is left-joined with a table of state median household incomes on `state`,
  and the burden is the estimated annual bill as a percentage of that income.
 */
module EnergyBurden {
  import opened Wrappers
  import opened Tables
  import opened MergeAll

  /** One row of the income table: a state and its median household income. */
  datatype IncomeRow = IncomeRow(state: string, medianIncome: Option<real>)

  /** A master row with the income column and the burden column added. */
  datatype BurdenRow = BurdenRow(master: MasterRow, medianIncome: Option<real>, energyBurdenPct: Option<real>)

  /**
    `energy_burden_pct`: the bill over the income, times 100.  Missing when
    either is missing, and also when the income is zero, where pandas would
    produce an infinity or NaN.
   */
  function Burden(bill: Option<real>, income: Option<real>): (r: Option<real>)
    ensures r.None? <==> bill.None? || income.None? || income.value == 0.0
    ensures r.Some? ==> r.value * income.value == bill.value * 100.0
  {
    if bill.None? || income.None? || income.value == 0.0 then None
    else Some(bill.value / income.value * 100.0)
  }

  /** A bill of 1500 against an income of 60000 is a burden of 2.5 percent. */
  lemma BurdenExample()
    ensures Burden(Some(1500.0), Some(60000.0)) == Some(2.5)
  {
  }

  /** For a fixed positive income, a larger bill means a strictly larger burden. */
  lemma BurdenStrictlyIncreasing(b1: real, b2: real, income: real)
    requires income > 0.0 && b1 < b2
    ensures Burden(Some(b1), Some(income)).value < Burden(Some(b2), Some(income)).value
  {
    var r1, r2 := Burden(Some(b1), Some(income)).value, Burden(Some(b2), Some(income)).value;
    assert r1 * income < r2 * income;
    assert (r2 - r1) * income > 0.0;
  }

  function MasterState(m: MasterRow): string
  {
    m.state
  }

  function IncomeState(r: IncomeRow): string
  {
    r.state
  }

  function AttachIncome(m: MasterRow, inc: Option<IncomeRow>): BurdenRow
  {
    var income := if inc.Some? then inc.value.medianIncome else None;
    BurdenRow(m, income, Burden(m.estAnnualBill, income))
  }

  /** The whole of `main` apart from I/O: the income merge on `state`, then the burden column. */
  function AddEnergyBurden(master: seq<MasterRow>, income: seq<IncomeRow>): seq<BurdenRow>
  {
    LeftJoin(master, income, MasterState, IncomeState, AttachIncome)
  }

  /**
    With one income row per state, every master row is kept, unchanged and in
    order; all rows of one state, whatever their year, get the same income;
    and the burden is computed from the row's own bill and that income.
   */
  lemma AddEnergyBurdenKeepsRows(master: seq<MasterRow>, income: seq<IncomeRow>)
    requires UniqueKeys(income, IncomeState)
    ensures var out := AddEnergyBurden(master, income);
            |out| == |master|
            && (forall i :: 0 <= i < |out| ==>
                  out[i].master == master[i]
                  && out[i].energyBurdenPct == Burden(master[i].estAnnualBill, out[i].medianIncome)
                  && match Find(income, IncomeState, master[i].state)
                     case None => out[i].medianIncome.None?
                     case Some(r) => out[i].medianIncome == r.medianIncome)
            && forall i, j :: 0 <= i < |out| && 0 <= j < |out| && master[i].state == master[j].state ==>
                  out[i].medianIncome == out[j].medianIncome
  {
    LeftJoinUnique(master, income, MasterState, IncomeState, AttachIncome);
  }

  /**
    Without the uniqueness, the join still keeps every master row: it is
    joined with each income row of its state.
   */
  lemma AddEnergyBurdenKeepsEveryRow(master: seq<MasterRow>, income: seq<IncomeRow>)
    ensures |AddEnergyBurden(master, income)| >= |master|
    ensures forall i, r :: 0 <= i < |master| && r in income && r.state == master[i].state ==>
              BurdenRow(master[i], r.medianIncome, Burden(master[i].estAnnualBill, r.medianIncome))
              in AddEnergyBurden(master, income)
  {
    forall i | 0 <= i < |master|
      ensures forall r :: r in income && r.state == master[i].state ==>
                BurdenRow(master[i], r.medianIncome, Burden(master[i].estAnnualBill, r.medianIncome))
                in AddEnergyBurden(master, income)
    {
      JoinRowCovers(master[i], income, MasterState, IncomeState, AttachIncome);
      JoinRowInLeftJoin(master, income, MasterState, IncomeState, AttachIncome, i);
    }
  }

  /**
    Without the uniqueness, a master row whose state has no income row turns
    into exactly one output row, with no income and no burden.
   */
  lemma AddEnergyBurdenNoMatch(master: seq<MasterRow>, income: seq<IncomeRow>)
    ensures forall i :: 0 <= i < |master| && (forall r :: r in income ==> r.state != master[i].state) ==>
              JoinRow(master[i], income, MasterState, IncomeState, AttachIncome) == [BurdenRow(master[i], None, None)]
              && BurdenRow(master[i], None, None) in AddEnergyBurden(master, income)
  {
    forall i | 0 <= i < |master| && (forall r :: r in income ==> r.state != master[i].state)
      ensures JoinRow(master[i], income, MasterState, IncomeState, AttachIncome) == [BurdenRow(master[i], None, None)]
      ensures BurdenRow(master[i], None, None) in AddEnergyBurden(master, income)
    {
      NoMemberIsEmpty(Matches(income, IncomeState, master[i].state));
      JoinRowInLeftJoin(master, income, MasterState, IncomeState, AttachIncome, i);
      assert BurdenRow(master[i], None, None) in JoinRow(master[i], income, MasterState, IncomeState, AttachIncome);
    }
  }
}
