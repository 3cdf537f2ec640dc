/**
  The withdrawal simulation: a ledger of one row per year is filled in place,
  year by year, and then a TOTAL row is appended whose return is the internal
  rate of return of the whole schedule.
 */
module Withdrawal {
  import opened Finance

  /** A row is labelled by its calendar year, or is the summary row. */
  datatype Period = Year(year: int) | Total

  datatype Row = Row(period: Period, balance: real, historicalReturn: real, withdrawal: real)

  /** The ledger: a growable list of rows that the simulation updates in place. */
  class Ledger {
    var rows: seq<Row>

    constructor (initial: seq<Row>)
      ensures rows == initial
    {
      rows := initial;
    }
  }

  function Min(a: real, b: real): real
  {
    if a <= b then a else b
  }

  /** What a balance is worth at the end of a year with the given return. */
  function EndValue(balance: real, historicalReturn: real): real
  {
    balance * (1.0 + historicalReturn)
  }

  /** The balance a row carries into the next year: grown by its return, less
      its withdrawal. */
  function NextBalance(row: Row): real
  {
    EndValue(row.balance, row.historicalReturn) - row.withdrawal
  }

  /** Row i after the main loop: it keeps its year and return; row 0 starts
      from the initial balance, every later row from the row before it. */
  function FillRow(rows: seq<Row>, initialBalance: real, rate: real, i: nat): (r: Row)
    requires i < |rows|
    ensures r.period == rows[i].period && r.historicalReturn == rows[i].historicalReturn
  {
    if i == 0 then rows[0].(balance := initialBalance, withdrawal := initialBalance * rate)
    else
      var prev := FillRow(rows, initialBalance, rate, i - 1);
      var balance := NextBalance(prev);
      rows[i].(balance := balance, withdrawal := Min(prev.withdrawal, EndValue(balance, rows[i].historicalReturn)))
  }

  lemma FillRowNext(rows: seq<Row>, initialBalance: real, rate: real, i: nat)
    requires 0 < i < |rows|
    ensures var prev := FillRow(rows, initialBalance, rate, i - 1);
      var balance := EndValue(prev.balance, prev.historicalReturn) - prev.withdrawal;
      FillRow(rows, initialBalance, rate, i)
        == rows[i].(balance := balance, withdrawal := Min(prev.withdrawal, EndValue(balance, rows[i].historicalReturn)))
  {
  }

  /** The rows after the main loop. */
  function Fill(rows: seq<Row>, initialBalance: real, rate: real): (r: seq<Row>)
    ensures |r| == |rows|
    ensures forall i :: 0 <= i < |rows| ==> r[i] == FillRow(rows, initialBalance, rate, i)
  {
    seq(|rows|, i requires 0 <= i < |rows| => FillRow(rows, initialBalance, rate, i))
  }

  function Withdrawals(rows: seq<Row>): (w: seq<real>)
    ensures |w| == |rows| && forall i :: 0 <= i < |rows| ==> w[i] == rows[i].withdrawal
  {
    seq(|rows|, i requires 0 <= i < |rows| => rows[i].withdrawal)
  }

  function SumWithdrawals(rows: seq<Row>): real
  {
    if |rows| == 0 then 0.0 else SumWithdrawals(rows[..|rows| - 1]) + rows[|rows| - 1].withdrawal
  }

  /** The cash flows whose internal rate of return the TOTAL row reports: the
      initial balance paid in, every withdrawal but the last received, and the
      last withdrawal received together with the terminal balance. */
  function CashFlows(rows: seq<Row>): seq<real>
    requires |rows| >= 1
  {
    var last := rows[|rows| - 1];
    [-1.0 * rows[0].balance] + Withdrawals(rows[..|rows| - 1]) + [last.withdrawal + NextBalance(last)]
  }

  /** The TOTAL row appended after the main loop. */
  function TotalRow(rows: seq<Row>): Row
    requires |rows| >= 1
  {
    Row(Total, NextBalance(rows[|rows| - 1]),
        SecantRoot(0.03, IrrBracket, NpvObjective, CashFlows(rows), Iterations),
        SumWithdrawals(rows))
  }

  /** The recurrence of the main loop, stated row by row: row 0 starts from the
      initial balance and withdraws balance * rate; every later row's balance
      is the previous balance grown by the previous return less the previous
      withdrawal, and its withdrawal is the smaller of the previous withdrawal
      and its own end-of-year value. */
  lemma FillRecurrence(rows: seq<Row>, initialBalance: real, rate: real)
    requires |rows| >= 1
    ensures var r := Fill(rows, initialBalance, rate);
      r[0].balance == initialBalance && r[0].withdrawal == initialBalance * rate &&
      forall i :: 0 < i < |r| ==>
        r[i].balance == EndValue(r[i - 1].balance, r[i - 1].historicalReturn) - r[i - 1].withdrawal &&
        r[i].withdrawal == Min(r[i - 1].withdrawal, EndValue(r[i].balance, r[i].historicalReturn))
  {
  }

  /** Withdrawals never increase from one year to the next, and no withdrawal
      after the first exceeds its year's end-of-year value. */
  lemma WithdrawalsBounded(rows: seq<Row>, initialBalance: real, rate: real)
    ensures var r := Fill(rows, initialBalance, rate);
      forall i :: 0 < i < |r| ==>
        r[i].withdrawal <= r[i - 1].withdrawal &&
        r[i].withdrawal <= EndValue(r[i].balance, r[i].historicalReturn)
  {
    if |rows| >= 1 {
      FillRecurrence(rows, initialBalance, rate);
    }
  }

  /** Hence every withdrawal is at most the one of any earlier year, in
      particular at most the first, initialBalance * rate. */
  lemma {:induction false} WithdrawalsNonIncreasing(rows: seq<Row>, initialBalance: real, rate: real, i: nat, j: nat)
    requires i <= j < |rows|
    ensures Fill(rows, initialBalance, rate)[j].withdrawal <= Fill(rows, initialBalance, rate)[i].withdrawal
    decreases j - i
  {
    if i < j {
      WithdrawalsBounded(rows, initialBalance, rate);
      WithdrawalsNonIncreasing(rows, initialBalance, rate, i, j - 1);
    }
  }

  /** From the third row on every balance is non-negative, and so is the
      terminal balance of a ledger with at least two rows: each is an
      end-of-year value less a withdrawal that was capped by it. */
  lemma BalancesNonNegative(rows: seq<Row>, initialBalance: real, rate: real)
    ensures var r := Fill(rows, initialBalance, rate);
      (forall i :: 2 <= i < |r| ==> r[i].balance >= 0.0) &&
      (|r| >= 2 ==> NextBalance(r[|r| - 1]) >= 0.0)
  {
    var r := Fill(rows, initialBalance, rate);
    if |rows| >= 1 {
      FillRecurrence(rows, initialBalance, rate);
      WithdrawalsBounded(rows, initialBalance, rate);
      forall i | 2 <= i < |r|
        ensures r[i].balance >= 0.0
      {
        assert r[i - 1].withdrawal <= EndValue(r[i - 1].balance, r[i - 1].historicalReturn);
      }
    }
  }

  lemma {:induction false} SumWithdrawalsBound(rows: seq<Row>, cap: real)
    requires forall i :: 0 <= i < |rows| ==> rows[i].withdrawal <= cap
    ensures SumWithdrawals(rows) <= |rows| as real * cap
    decreases |rows|
  {
    if |rows| > 0 {
      SumWithdrawalsBound(rows[..|rows| - 1], cap);
    }
  }

  /** The total withdrawn is at most the number of years times the first
      withdrawal. */
  lemma TotalWithdrawalBound(rows: seq<Row>, initialBalance: real, rate: real)
    ensures SumWithdrawals(Fill(rows, initialBalance, rate)) <= |rows| as real * (initialBalance * rate)
  {
    var r := Fill(rows, initialBalance, rate);
    if |rows| > 0 {
      FillRecurrence(rows, initialBalance, rate);
      forall i | 0 <= i < |r|
        ensures r[i].withdrawal <= initialBalance * rate
      {
        WithdrawalsNonIncreasing(rows, initialBalance, rate, 0, i);
      }
      SumWithdrawalsBound(r, initialBalance * rate);
    }
  }

  /** The cash flows have one entry per year plus one, begin with the initial
      balance paid in, carry each earlier withdrawal, and end with the last
      withdrawal plus the terminal balance. */
  lemma CashFlowsShape(rows: seq<Row>, initialBalance: real, rate: real)
    requires |rows| >= 1
    ensures var r := Fill(rows, initialBalance, rate);
      var c := CashFlows(r);
      var n := |r|;
      |c| == n + 1 && c[0] == -initialBalance &&
      (forall k :: 1 <= k < n ==> c[k] == r[k - 1].withdrawal) &&
      c[n] == r[n - 1].withdrawal + (EndValue(r[n - 1].balance, r[n - 1].historicalReturn) - r[n - 1].withdrawal)
  {
    FillRecurrence(rows, initialBalance, rate);
  }

  lemma {:induction false} SumOfWithdrawals(rows: seq<Row>)
    ensures Sum(Withdrawals(rows)) == SumWithdrawals(rows)
  {
    if |rows| > 0 {
      var front := rows[..|rows| - 1];
      SumOfWithdrawals(front);
      assert Withdrawals(rows)[..|rows| - 1] == Withdrawals(front);
    }
  }

  lemma SumAround(first: real, mid: seq<real>, final: real)
    ensures Sum([first] + mid + [final]) == first + Sum(mid) + final
  {
    SumAppend([first] + mid, [final]);
    SumAppend([first], mid);
    assert Sum([final]) == final;
    assert Sum([first]) == first;
  }

  lemma CashFlowsParts(rows: seq<Row>)
    requires |rows| >= 1
    ensures CashFlows(rows) == [-1.0 * rows[0].balance] + Withdrawals(rows[..|rows| - 1])
      + [rows[|rows| - 1].withdrawal + NextBalance(rows[|rows| - 1])]
  {
  }

  lemma SumAroundWithdrawals(first: real, front: seq<Row>, final: real)
    ensures Sum([first] + Withdrawals(front) + [final]) == first + SumWithdrawals(front) + final
  {
    SumAround(first, Withdrawals(front), final);
    SumOfWithdrawals(front);
  }

  lemma SumWithdrawalsLast(rows: seq<Row>)
    requires |rows| >= 1
    ensures SumWithdrawals(rows) == SumWithdrawals(rows[..|rows| - 1]) + rows[|rows| - 1].withdrawal
  {
  }

  lemma CashFlowsSum(rows: seq<Row>)
    requires |rows| >= 1
    ensures var last := rows[|rows| - 1];
      Sum(CashFlows(rows)) == -1.0 * rows[0].balance + SumWithdrawals(rows[..|rows| - 1]) + (last.withdrawal + NextBalance(last))
  {
    CashFlowsParts(rows);
    SumAroundWithdrawals(-1.0 * rows[0].balance, rows[..|rows| - 1],
                         rows[|rows| - 1].withdrawal + NextBalance(rows[|rows| - 1]));
  }

  /** Undiscounted, the schedule nets out to what was withdrawn plus what is
      left, less what was paid in. */
  lemma CashFlowsNetAtZero(rows: seq<Row>)
    requires |rows| >= 1
    ensures Npv(CashFlows(rows), 0.0) ==
      SumWithdrawals(rows) + NextBalance(rows[|rows| - 1]) - rows[0].balance
  {
    NpvAtZeroIsSum(CashFlows(rows));
    CashFlowsSum(rows);
    SumWithdrawalsLast(rows);
  }

  /** The cash flows gathered by the TOTAL-row loop are CashFlows. */
  lemma GatheredCashFlows(filled: seq<Row>, flows: seq<real>)
    requires |filled| >= 1
    requires var last := filled[|filled| - 1];
      flows == [-1.0 * filled[0].balance] + Withdrawals(filled[..|filled| - 1])
               + [last.withdrawal + (EndValue(last.balance, last.historicalReturn) - last.withdrawal)]
    ensures flows == CashFlows(filled)
  {
  }

  /** The TOTAL row built from the filled rows, given the rate of return found
      for their cash flows. */
  lemma TotalRowOf(filled: seq<Row>, flows: seq<real>, totalReturn: real)
    requires |filled| >= 1 && flows == CashFlows(filled)
    requires totalReturn == SecantRoot(0.03, 0.025, NpvObjective, flows, Iterations)
    ensures var last := filled[|filled| - 1];
      TotalRow(filled) == Row(Total, EndValue(last.balance, last.historicalReturn) - last.withdrawal,
                              totalReturn, SumWithdrawals(filled))
  {
  }

  /** calcTable: fills every row's balance and withdrawal from the initial
      balance and rate, keeping years and returns, then appends the TOTAL
      row. */
  method CalcTable(table: Ledger, initialBalance: real, rate: real)
    requires |table.rows| >= 1
    modifies table
    ensures table.rows == Fill(old(table.rows), initialBalance, rate)
                        + [TotalRow(Fill(old(table.rows), initialBalance, rate))]
  {
    FillRows(table, initialBalance, rate);
    AppendTotalRow(table);
  }

  /** calcTable, main algorithm: one pass over the rows, each computed from
      the one before it. */
  method FillRows(table: Ledger, initialBalance: real, rate: real)
    modifies table
    ensures table.rows == Fill(old(table.rows), initialBalance, rate)
  {
    ghost var given := table.rows;
    var n := |table.rows|;
    var i := 0;
    while i < n
      invariant 0 <= i <= n == |table.rows|
      invariant forall m :: 0 <= m < i ==> table.rows[m] == FillRow(given, initialBalance, rate, m)
      invariant forall m :: i <= m < n ==> table.rows[m] == given[m]
    {
      var row := table.rows[i];
      if i == 0 {
        row := row.(balance := initialBalance, withdrawal := initialBalance * rate);
      } else {
        var prevBalance := table.rows[i - 1].balance;
        var prevReturn := table.rows[i - 1].historicalReturn;
        var prevWithdrawal := table.rows[i - 1].withdrawal;
        row := row.(balance := EndValue(prevBalance, prevReturn) - prevWithdrawal);
        var curBalance := row.balance;
        var curReturn := row.historicalReturn;
        row := row.(withdrawal := Min(prevWithdrawal, EndValue(curBalance, curReturn)));
        FillRowNext(given, initialBalance, rate, i);
      }
      table.rows := table.rows[i := row];
      i := i + 1;
    }
    assert table.rows == Fill(given, initialBalance, rate);
  }

  /** calcTable, TOTAL row: gathers the cash flows, finds their internal rate
      of return from a guess of 0.03, sums the withdrawals and appends the
      summary row. */
  method AppendTotalRow(table: Ledger)
    requires |table.rows| >= 1
    modifies table
    ensures table.rows == old(table.rows) + [TotalRow(old(table.rows))]
  {
    ghost var filled := table.rows;
    var n := |table.rows|;
    var flows := [-1.0 * table.rows[0].balance];
    var j := 0;
    while j < n - 1
      invariant 0 <= j <= n - 1 && table.rows == filled
      invariant flows == [-1.0 * filled[0].balance] + Withdrawals(filled[..j])
    {
      assert filled[..j + 1][..j] == filled[..j];
      flows := flows + [table.rows[j].withdrawal];
      j := j + 1;
    }
    var last := table.rows[n - 1];
    var totalBalance := EndValue(last.balance, last.historicalReturn) - last.withdrawal;
    flows := flows + [last.withdrawal + totalBalance];
    GatheredCashFlows(filled, flows);
    var totalReturn := IRR(flows, 0.03);

    var totalWithdrawal := 0.0;
    var k := 0;
    while k < n
      invariant 0 <= k <= n && table.rows == filled
      invariant totalWithdrawal == SumWithdrawals(filled[..k])
    {
      assert filled[..k + 1][..k] == filled[..k];
      totalWithdrawal := totalWithdrawal + table.rows[k].withdrawal;
      k := k + 1;
    }
    assert filled[..n] == filled;
    TotalRowOf(filled, flows, totalReturn);
    table.rows := table.rows + [Row(Total, totalBalance, totalReturn, totalWithdrawal)];
  }
}
