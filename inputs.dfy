/**
  Preparing the simulations from the form's values: the year range is clamped
  to the years the return series covers, three tables of rows are built (the
  historical returns in chronological or shuffled order, and two participation
  variants, capped and uncapped), and each table is run through the
  withdrawal simulation.
 */
module Inputs {
  import opened Withdrawal
  import opened Shuffling

  const FirstYear: int := 1999
  const LastStartYear: int := 2015
  const LastYear: int := 2016

  /** Annual S&P 500 returns, one per year from 1999 to 2016. */
  const SP500: seq<real> := [
    0.19526045, -0.10139187, -0.130426879, -0.233659676, 0.26380396, 0.089934528,
    0.030010232, 0.136194314, 0.035295776, -0.384857937, 0.234541933, 0.1278271,
    -0.0000318049, 0.134056933, 0.296012453, 0.1139063856, -0.0073, 0.0954]

  /** The year range after the input checks: the first year is pulled into
      1999..2015, the last year is capped at 2016 and pushed past the first. A
      range that already satisfies the checks is left alone. */
  function ClampYears(begYr: int, endYr: int): (r: (int, int))
    ensures FirstYear <= r.0 <= LastStartYear && r.0 < r.1 <= LastYear
    ensures FirstYear <= begYr <= LastStartYear && begYr < endYr <= LastYear ==> r == (begYr, endYr)
    ensures r.0 < endYr <= LastYear ==> r.1 == endYr
  {
    var b := if begYr < FirstYear then FirstYear else begYr;
    var b' := if b > LastStartYear then LastStartYear else b;
    var e := if endYr > LastYear then LastYear else endYr;
    var e' := if e <= b' then b' + 1 else e;
    (b', e')
  }

  /** Every year of a clamped range has a return in the series. */
  lemma ClampedYearsIndexable(begYr: int, endYr: int, y: int)
    requires ClampYears(begYr, endYr).0 <= y <= ClampYears(begYr, endYr).1
    ensures 0 <= y - FirstYear < |SP500|
  {
  }

  function YearRange(b: int, e: int): (ys: seq<int>)
    requires b <= e
    ensures |ys| == e - b + 1 && forall k :: 0 <= k < |ys| ==> ys[k] == b + k
  {
    seq(e - b + 1, k => b + k)
  }

  /** The order in which table1 visits the years: chronological, or the
      outcome of the shuffle under the given draws. */
  function YearOrder(b: int, e: int, randomize: bool, draws: seq<nat>): (ys: seq<int>)
    requires b <= e && (randomize ==> ValidDraws(draws, Passes(e - b + 1)))
  {
    if randomize then Shuffled(YearRange(b, e), draws) else YearRange(b, e)
  }

  /** Shuffled or not, the order holds exactly the years of the range, so a
      year taken from it always stays within the range. */
  lemma YearOrderInRange(b: int, e: int, randomize: bool, draws: seq<nat>)
    requires b <= e && (randomize ==> ValidDraws(draws, Passes(e - b + 1)))
    ensures var ys := YearOrder(b, e, randomize, draws);
      |ys| == e - b + 1 && multiset(ys) == multiset(YearRange(b, e)) &&
      forall k :: 0 <= k < |ys| ==> b <= ys[k] <= e
  {
    var ys := YearOrder(b, e, randomize, draws);
    var range := YearRange(b, e);
    if randomize {
      ShuffledPermutes(range, draws);
    }
    forall k | 0 <= k < |ys|
      ensures b <= ys[k] <= e
    {
      assert ys[k] in multiset(ys);
      assert ys[k] in range;
    }
  }

  /** The uncapped participation rule: a positive return is scaled by the
      fraction of gains captured; any other return becomes 0. A non-negative
      fraction never gives a loss, and a fraction of at most 1 never gives
      more than the positive part of the market return. */
  function UncappedReturn(historical: real, gains: real): (r: real)
    ensures gains >= 0.0 ==> r >= 0.0
    ensures 0.0 <= gains <= 1.0 ==> r <= (if historical > 0.0 then historical else 0.0)
    ensures historical <= 0.0 ==> r == 0.0
  {
    if historical > 0.0 then historical * gains else 0.0
  }

  /** The capped participation rule: the uncapped return, limited to the cap. */
  function CappedReturn(historical: real, gains: real, capRate: real): (r: real)
    ensures r <= capRate && r <= UncappedReturn(historical, gains)
    ensures r == capRate || r == UncappedReturn(historical, gains)
  {
    var u := UncappedReturn(historical, gains);
    if u > capRate then capRate else u
  }

  predicate InSeries(years: seq<int>)
  {
    forall k :: 0 <= k < |years| ==> FirstYear <= years[k] <= LastYear
  }

  /** table1: one row per year in the given order, with the year's market
      return. */
  function HistoricalTable(years: seq<int>): (t: seq<Row>)
    requires InSeries(years)
    ensures |t| == |years|
  {
    seq(|years|, k requires 0 <= k < |years| => Row(Year(years[k]), 0.0, SP500[years[k] - FirstYear], 0.0))
  }

  /** table2: one row per year of b..e in order, with the capped return. */
  function CappedTable(b: int, e: int, gains: real, capRate: real): (t: seq<Row>)
    requires FirstYear <= b && b - 1 <= e <= LastYear
    ensures |t| == e - b + 1
    ensures forall k :: 0 <= k < |t| ==> t[k].period == Year(b + k) && t[k].historicalReturn <= capRate
  {
    var t := seq(e - b + 1, k requires 0 <= k < e - b + 1 =>
      Row(Year(b + k), 0.0, CappedReturn(SP500[b + k - FirstYear], gains, capRate), 0.0));
    assert forall k :: 0 <= k < |t| ==> t[k].historicalReturn == CappedReturn(SP500[b + k - FirstYear], gains, capRate);
    t
  }

  /** table3: one row per year of b..e in order, with the uncapped return. */
  function UncappedTable(b: int, e: int, gains: real): (t: seq<Row>)
    requires FirstYear <= b && b - 1 <= e <= LastYear
    ensures |t| == e - b + 1
    ensures forall k :: 0 <= k < |t| ==> t[k].period == Year(b + k)
    ensures gains >= 0.0 ==> forall k :: 0 <= k < |t| ==> t[k].historicalReturn >= 0.0
  {
    var t := seq(e - b + 1, k requires 0 <= k < e - b + 1 =>
      Row(Year(b + k), 0.0, UncappedReturn(SP500[b + k - FirstYear], gains), 0.0));
    assert forall k :: 0 <= k < |t| ==> t[k].historicalReturn == UncappedReturn(SP500[b + k - FirstYear], gains);
    t
  }

  lemma HistoricalTableGrows(years: seq<int>, i: nat)
    requires i < |years| && InSeries(years)
    ensures HistoricalTable(years[..i + 1])
      == HistoricalTable(years[..i]) + [Row(Year(years[i]), 0.0, SP500[years[i] - FirstYear], 0.0)]
  {
  }

  lemma CappedTableGrows(b: int, y: int, gains: real, capRate: real)
    requires FirstYear <= b <= y <= LastYear
    ensures CappedTable(b, y, gains, capRate)
      == CappedTable(b, y - 1, gains, capRate) + [Row(Year(y), 0.0, CappedReturn(SP500[y - FirstYear], gains, capRate), 0.0)]
  {
  }

  lemma UncappedTableGrows(b: int, y: int, gains: real)
    requires FirstYear <= b <= y <= LastYear
    ensures UncappedTable(b, y, gains)
      == UncappedTable(b, y - 1, gains) + [Row(Year(y), 0.0, UncappedReturn(SP500[y - FirstYear], gains), 0.0)]
  {
  }

  /** The draws the shuffle needs for a clamped range. */
  predicate DrawsFit(begYr: int, endYr: int, randomize: bool, draws: seq<nat>)
  {
    var c := ClampYears(begYr, endYr);
    randomize ==> ValidDraws(draws, Passes(c.1 - c.0 + 1))
  }

  /** The years table1 visits: all of the chosen order but the last. */
  function Table1Years(begYr: int, endYr: int, randomize: bool, draws: seq<nat>): (ys: seq<int>)
    requires DrawsFit(begYr, endYr, randomize, draws)
    ensures InSeries(ys)
    ensures |ys| == ClampYears(begYr, endYr).1 - ClampYears(begYr, endYr).0
  {
    var c := ClampYears(begYr, endYr);
    YearOrderInRange(c.0, c.1, randomize, draws);
    YearOrder(c.0, c.1, randomize, draws)[..c.1 - c.0]
  }

  /** The list of years b..e, shuffled in place when randomize is set. */
  method OrderYears(b: int, e: int, randomize: bool, draws: seq<nat>) returns (years: array<int>)
    requires b <= e && (randomize ==> ValidDraws(draws, Passes(e - b + 1)))
    ensures fresh(years) && years[..] == YearOrder(b, e, randomize, draws)
  {
    years := new int[e - b + 1];
    var y := b;
    while y <= e
      invariant b <= y <= e + 1
      invariant forall k :: 0 <= k < y - b ==> years[k] == b + k
    {
      years[y - b] := y;
      y := y + 1;
    }
    assert years[..] == YearRange(b, e);
    if randomize {
      var shuffled := ShuffleArray(years, draws);
    }
  }

  /** table1: a row for every year of the list but the last, with the year's
      market return. */
  method BuildHistoricalTable(years: array<int>) returns (table1: seq<Row>)
    requires years.Length >= 1 && InSeries(years[..])
    ensures table1 == HistoricalTable(years[..years.Length - 1])
  {
    table1 := [];
    var i := 0;
    while i < years.Length - 1
      invariant 0 <= i <= years.Length - 1
      invariant table1 == HistoricalTable(years[..i])
    {
      assert years[i] == years[..][i];
      HistoricalTableGrows(years[..], i);
      assert years[..][..i + 1] == years[..i + 1];
      var spIndex := years[i] - FirstYear;
      table1 := table1 + [Row(Year(years[i]), 0.0, SP500[spIndex], 0.0)];
      i := i + 1;
    }
  }

  /** table2: a row for every year of b..e, in order, with the capped return. */
  method BuildCappedTable(b: int, e: int, gains: real, capRate: real) returns (table2: seq<Row>)
    requires FirstYear <= b <= e <= LastYear
    ensures table2 == CappedTable(b, e, gains, capRate)
  {
    table2 := [];
    var y := b;
    while y <= e
      invariant b <= y <= e + 1
      invariant table2 == CappedTable(b, y - 1, gains, capRate)
    {
      var spIndex := y - FirstYear;
      var sp := SP500[spIndex];
      if sp > 0.0 {
        sp := sp * gains;
      } else {
        sp := 0.0;
      }
      if sp > capRate {
        sp := capRate;
      }
      assert sp == CappedReturn(SP500[y - FirstYear], gains, capRate);
      CappedTableGrows(b, y, gains, capRate);
      table2 := table2 + [Row(Year(y), 0.0, sp, 0.0)];
      y := y + 1;
    }
  }

  /** table3: a row for every year of b..e, in order, with the uncapped return. */
  method BuildUncappedTable(b: int, e: int, gains: real) returns (table3: seq<Row>)
    requires FirstYear <= b <= e <= LastYear
    ensures table3 == UncappedTable(b, e, gains)
  {
    table3 := [];
    var y := b;
    while y <= e
      invariant b <= y <= e + 1
      invariant table3 == UncappedTable(b, y - 1, gains)
    {
      var spIndex := y - FirstYear;
      var sp := SP500[spIndex];
      if sp > 0.0 {
        sp := sp * gains;
      } else {
        sp := 0.0;
      }
      assert sp == UncappedReturn(SP500[y - FirstYear], gains);
      UncappedTableGrows(b, y, gains);
      table3 := table3 + [Row(Year(y), 0.0, sp, 0.0)];
      y := y + 1;
    }
  }

  /** Builds the three tables from the form's values, clamping the year range
      first: table1 has one row fewer than the range has years, tables 2 and 3
      one row per year. */
  method PrepareTables(begYr: int, endYr: int, gains: real, capRate: real, randomize: bool, draws: seq<nat>)
    returns (table1: seq<Row>, table2: seq<Row>, table3: seq<Row>)
    requires DrawsFit(begYr, endYr, randomize, draws)
    ensures var c := ClampYears(begYr, endYr);
      |table1| == c.1 - c.0 >= 1 && |table2| == |table3| == c.1 - c.0 + 1
    ensures var c := ClampYears(begYr, endYr);
      table1 == HistoricalTable(Table1Years(begYr, endYr, randomize, draws)) &&
      table2 == CappedTable(c.0, c.1, gains, capRate) &&
      table3 == UncappedTable(c.0, c.1, gains)
  {
    var b := begYr;
    if b < FirstYear {
      b := FirstYear;
    }
    if b > LastStartYear {
      b := LastStartYear;
    }
    var e := endYr;
    if e > LastYear {
      e := LastYear;
    }
    if e <= b {
      e := b + 1;
    }
    assert (b, e) == ClampYears(begYr, endYr);

    var years := OrderYears(b, e, randomize, draws);
    YearOrderInRange(b, e, randomize, draws);
    table1 := BuildHistoricalTable(years);
    ghost var order := YearOrder(b, e, randomize, draws);
    assert years[..years.Length - 1] == order[..e - b];
    assert Table1Years(begYr, endYr, randomize, draws) == order[..e - b];
    table2 := BuildCappedTable(b, e, gains, capRate);
    table3 := BuildUncappedTable(b, e, gains);
  }

  /** A table after `calcTable`: its rows filled in, then the TOTAL row. */
  function Simulated(table: seq<Row>, bal: real, rate: real): (r: seq<Row>)
    requires |table| >= 1
    ensures |r| == |table| + 1 && r[|table|].period == Total
  {
    Fill(table, bal, rate) + [TotalRow(Fill(table, bal, rate))]
  }

  /** A fresh ledger holding the table, run through the simulation. */
  method SimulateTable(table: seq<Row>, bal: real, rate: real) returns (ledger: Ledger)
    requires |table| >= 1
    ensures fresh(ledger) && ledger.rows == Simulated(table, bal, rate)
  {
    ledger := new Ledger(table);
    CalcTable(ledger, bal, rate);
  }

  /** A form field given in percent, as a fraction. */
  function Percent(x: real): (f: real)
    ensures f * 100.0 == x
  {
    x / 100.0
  }

  /** The simulation behind the form: the percentages become fractions, the
      three tables are built and each is filled in and closed with its TOTAL
      row. */
  method RunSimulation(bal: real, ratePercent: real, gainsPercent: real, begYr: int, endYr: int,
                       capPercent: real, randomize: bool, draws: seq<nat>)
    returns (ledger1: Ledger, ledger2: Ledger, ledger3: Ledger)
    requires DrawsFit(begYr, endYr, randomize, draws)
    ensures fresh(ledger1) && fresh(ledger2) && fresh(ledger3)
    ensures ledger1.rows ==
      Simulated(HistoricalTable(Table1Years(begYr, endYr, randomize, draws)), bal, Percent(ratePercent))
    ensures var c := ClampYears(begYr, endYr);
      ledger2.rows == Simulated(CappedTable(c.0, c.1, Percent(gainsPercent), Percent(capPercent)), bal, Percent(ratePercent))
    ensures var c := ClampYears(begYr, endYr);
      ledger3.rows == Simulated(UncappedTable(c.0, c.1, Percent(gainsPercent)), bal, Percent(ratePercent))
  {
    var rate := Percent(ratePercent);
    var gains := Percent(gainsPercent);
    var capRate := Percent(capPercent);
    var table1, table2, table3 := PrepareTables(begYr, endYr, gains, capRate, randomize, draws);
    ledger1 := SimulateTable(table1, bal, rate);
    ledger2 := SimulateTable(table2, bal, rate);
    ledger3 := SimulateTable(table3, bal, rate);
  }
}
