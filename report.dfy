/** Cleaning and aggregation of the decoded table (deploy_script.py, `main`):
    the alias replacement, the correction of countries and statuses against
    fixed vocabularies, the per-country series and the assembly of the final
    report from them. */
module Report {
  import opened Common
  import Csv
  import FuzzyMatch

  type Table = seq<Csv.Transaction>

  // ---------------------------------------------------------------------
  // Cleaning

  /** The one spelling of a country replaced literally before correction. */
  const Alias: string := "United States of America"

  const Countries: seq<string> := ["Spain", "China", "USA", "Italy", "Belgium", "Germany"]
  const Statuses: seq<string> := ["pending", "failed", "completed"]

  /** `replace('United States of America', 'USA')` on one value. */
  function ReplaceAlias(country: string): (r: string)
    ensures r != Alias
    ensures country == Alias ==> r == "USA"
    ensures country != Alias ==> r == country
  {
    if country == Alias then "USA" else country
  }

  /** One record after the alias replacement and the two corrections; the
      other fields are untouched. */
  function CleanTransaction(similarity: (string, string) -> real, t: Csv.Transaction): (r: Csv.Transaction)
    ensures r.id == t.id && r.amount == t.amount
    ensures r.country in Countries || r.country == ReplaceAlias(t.country)
    ensures r.status in Statuses || r.status == t.status
  {
    t.(country := FuzzyMatch.FixWord(similarity, ReplaceAlias(t.country), Countries),
       status := FuzzyMatch.FixWord(similarity, t.status, Statuses))
  }

  /** The table after cleaning, record by record in the same order. */
  function CleanTable(similarity: (string, string) -> real, table: Table): (r: Table)
    ensures |r| == |table|
    ensures forall i :: 0 <= i < |table| ==> r[i] == CleanTransaction(similarity, table[i])
  {
    seq(|table|, i requires 0 <= i < |table| => CleanTransaction(similarity, table[i]))
  }

  /** A record whose values are already in the vocabularies is left alone. */
  lemma CleanKeepsCorrectRecord(similarity: (string, string) -> real, t: Csv.Transaction)
    requires FuzzyMatch.IsSimilarity(similarity)
    requires t.country in Countries && t.status in Statuses
    ensures CleanTransaction(similarity, t) == t
  {
    assert Alias !in Countries;
    FuzzyMatch.FixWordKeepsOption(similarity, t.country, Countries);
    FuzzyMatch.FixWordKeepsOption(similarity, t.status, Statuses);
  }

  /** The long spelling becomes "USA". */
  lemma CleanReplacesAlias(similarity: (string, string) -> real, t: Csv.Transaction)
    requires FuzzyMatch.IsSimilarity(similarity)
    requires t.country == Alias
    ensures CleanTransaction(similarity, t).country == "USA"
  {
    assert "USA" in Countries;
    FuzzyMatch.FixWordKeepsOption(similarity, "USA", Countries);
  }

  /** Cleaning a clean record changes nothing. */
  lemma CleanTransactionIdempotent(similarity: (string, string) -> real, t: Csv.Transaction)
    requires FuzzyMatch.IsSimilarity(similarity)
    ensures CleanTransaction(similarity, CleanTransaction(similarity, t)) == CleanTransaction(similarity, t)
  {
    var r := CleanTransaction(similarity, t);
    assert Alias !in Countries;
    assert ReplaceAlias(r.country) == r.country;
    FuzzyMatch.FixWordIdempotent(similarity, ReplaceAlias(t.country), Countries);
    FuzzyMatch.FixWordIdempotent(similarity, t.status, Statuses);
  }

  /** Cleaning a clean table changes nothing. */
  lemma CleanTableIdempotent(similarity: (string, string) -> real, table: Table)
    requires FuzzyMatch.IsSimilarity(similarity)
    ensures CleanTable(similarity, CleanTable(similarity, table)) == CleanTable(similarity, table)
  {
    var once := CleanTable(similarity, table);
    forall i | 0 <= i < |table|
      ensures CleanTable(similarity, once)[i] == once[i]
    {
      CleanTransactionIdempotent(similarity, table[i]);
    }
  }

  // ---------------------------------------------------------------------
  // Filters and per-country series

  /** A failed transaction above this amount is critical. */
  const CriticalAmount: nat := 1000000

  /** The records of one country (one group of `groupby('country')`), in order. */
  function InCountry(t: Table, c: string): (r: Table)
    ensures |r| <= |t|
    ensures forall x :: x in r <==> x in t && x.country == c
  {
    if t == [] then []
    else (if t[0].country == c then [t[0]] else []) + InCountry(t[1..], c)
  }

  /** The records with one status (`df[df['status'] == s]`), in order. */
  function WithStatus(t: Table, s: string): (r: Table)
    ensures |r| <= |t|
    ensures forall x :: x in r <==> x in t && x.status == s
  {
    if t == [] then []
    else (if t[0].status == s then [t[0]] else []) + WithStatus(t[1..], s)
  }

  /** The failed records above the critical amount, in order. */
  function CriticalFailures(t: Table): (r: Table)
    ensures |r| <= |t|
    ensures forall x :: x in r <==> x in t && x.status == "failed" && x.amount > CriticalAmount
  {
    if t == [] then []
    else (if t[0].status == "failed" && t[0].amount > CriticalAmount then [t[0]] else []) + CriticalFailures(t[1..])
  }

  function SumAmounts(t: Table): nat
  {
    if t == [] then 0 else t[0].amount + SumAmounts(t[1..])
  }

  /** The group keys of a table: the countries it holds. */
  function CountriesOf(t: Table): set<string>
  {
    set x | x in t :: x.country
  }

  /** The index of `average_outstanding`. */
  function PendingCountries(t: Table): set<string>
  {
    CountriesOf(WithStatus(t, "pending"))
  }

  /** The index of `total_completed`. */
  function CompletedCountries(t: Table): set<string>
  {
    CountriesOf(WithStatus(t, "completed"))
  }

  /** `average_outstanding`: mean amount of the country's pending records. */
  function AverageOutstanding(t: Table, c: string): (r: real)
    requires c in PendingCountries(t)
    ensures r >= 0.0
  {
    var p := WithStatus(InCountry(t, c), "pending");
    assert |p| > 0 by {
      var x :| x in WithStatus(t, "pending") && x.country == c;
      assert x in p;
    }
    SignOfQuotient(SumAmounts(p) as real / |p| as real, |p| as real);
    SumAmounts(p) as real / |p| as real
  }

  /** `total_completed`: total amount of the country's completed records. */
  function TotalCompleted(t: Table, c: string): (r: real)
    ensures r >= 0.0
    ensures WithStatus(InCountry(t, c), "completed") == [] ==> r == 0.0
  {
    SumAmounts(WithStatus(InCountry(t, c), "completed")) as real
  }

  /** `error_rate`: the country's failed records over all its records;
      None (NaN) when the country has no failed record, since the division
      aligns the two series on their index and nothing fills the gap. */
  function ErrorRate(t: Table, c: string): (r: Option<real>)
    requires c in CountriesOf(t)
    ensures r.None? <==> WithStatus(InCountry(t, c), "failed") == []
    ensures r.Some? ==> 0.0 < r.value <= 1.0
  {
    var f, n := |WithStatus(InCountry(t, c), "failed")|, GroupSize(t, c);
    if f == 0 then None
    else
      RatioBounds(f, f, n);
      Some(f as real / n as real)
  }

  /** `critical_rate`: the country's critical failures over all its records,
      the missing entries filled with 0. */
  function CriticalRate(t: Table, c: string): (r: real)
    requires c in CountriesOf(t)
    ensures 0.0 <= r <= 1.0
    ensures r == 0.0 <==> CriticalFailures(InCountry(t, c)) == []
  {
    var k, n := |CriticalFailures(InCountry(t, c))|, GroupSize(t, c);
    RatioBounds(k, k, n);
    assert k == 0 ==> k as real / n as real == 0.0;
    k as real / n as real
  }

  /** `df.groupby('country').size()` for a country of the table. */
  function GroupSize(t: Table, c: string): (n: nat)
    requires c in CountriesOf(t)
    ensures n == |InCountry(t, c)| && n > 0
  {
    var x :| x in t && x.country == c;
    assert x in InCountry(t, c);
    |InCountry(t, c)|
  }

  // ---------------------------------------------------------------------
  // Assembly

  datatype ReportRow = ReportRow(averageOutstanding: real, totalCompleted: real, criticalRate: real, errorRate: Option<real>)

  lemma CountriesOfSubset(t: Table, s: string)
    ensures CountriesOf(WithStatus(t, s)) <= CountriesOf(t)
  {
  }

  /** A subset as large as its superset is the superset. */
  lemma {:induction false} SubsetOfSameSize(a: set<string>, b: set<string>)
    requires a <= b && |a| == |b|
    ensures a == b
  {
    if a != b {
      var x :| x in b && x !in a;
      assert a <= b - {x};
      SubsetSize(a, b - {x});
    }
  }

  lemma {:induction false} SubsetSize(a: set<string>, b: set<string>)
    requires a <= b
    ensures |a| <= |b|
    decreases |b|
  {
    if a != {} {
      var x :| x in a;
      SubsetSize(a - {x}, b - {x});
    }
  }

  /** The final table. Its rows are the countries of `average_outstanding`
      and the other series are placed beside it by position; `pd.DataFrame`
      raises when the series differ in length. `error_rate` and
      `critical_rate` cover every country of the table. */
  function Aggregate(t: Table): (r: Result<map<string, ReportRow>>)
    ensures r.Err? ==> r.error == AggregationInconsistency
  {
    var pending, completed, all := PendingCountries(t), CompletedCountries(t), CountriesOf(t);
    if |pending| != |all| || |completed| != |all| then Err(AggregationInconsistency)
    else
      CountriesOfSubset(t, "pending");
      CountriesOfSubset(t, "completed");
      SubsetOfSameSize(pending, all);
      SubsetOfSameSize(completed, all);
      Ok(map c | c in pending ::
           ReportRow(AverageOutstanding(t, c), TotalCompleted(t, c), CriticalRate(t, c), ErrorRate(t, c)))
  }

  // ---------------------------------------------------------------------
  // Properties of the report

  /** Placing the series side by side succeeds exactly when every country of
      the table has a pending and a completed record, that is exactly when
      position and country agree in every series. */
  lemma AggregateSucceedsIff(t: Table)
    ensures Aggregate(t).Ok? <==> PendingCountries(t) == CountriesOf(t) && CompletedCountries(t) == CountriesOf(t)
  {
    CountriesOfSubset(t, "pending");
    CountriesOfSubset(t, "completed");
    if |PendingCountries(t)| == |CountriesOf(t)| && |CompletedCountries(t)| == |CountriesOf(t)| {
      SubsetOfSameSize(PendingCountries(t), CountriesOf(t));
      SubsetOfSameSize(CompletedCountries(t), CountriesOf(t));
    }
  }

  /** The rows of the report are exactly the countries with a pending record,
      and each row holds that country's series values. */
  lemma AggregateRows(t: Table)
    requires Aggregate(t).Ok?
    ensures Aggregate(t).value.Keys == PendingCountries(t) == CountriesOf(t)
    ensures forall c :: c in Aggregate(t).value.Keys ==>
              && Aggregate(t).value[c].averageOutstanding == AverageOutstanding(t, c)
              && Aggregate(t).value[c].totalCompleted == TotalCompleted(t, c)
              && Aggregate(t).value[c].criticalRate == CriticalRate(t, c)
              && Aggregate(t).value[c].errorRate == ErrorRate(t, c)
  {
    AggregateSucceedsIff(t);
  }

  lemma {:induction false} CriticalWithinFailed(g: Table)
    ensures |CriticalFailures(g)| <= |WithStatus(g, "failed")|
  {
    if g != [] {
      CriticalWithinFailed(g[1..]);
    }
  }

  /** Both rates are fractions of the group; the critical records are among
      the failed ones, so the critical rate never exceeds the error rate and
      is 0 where the error rate is undefined. */
  lemma RatesBounded(t: Table, c: string)
    requires c in CountriesOf(t)
    ensures 0.0 <= CriticalRate(t, c) <= 1.0
    ensures ErrorRate(t, c).Some? ==> 0.0 < ErrorRate(t, c).value <= 1.0
    ensures ErrorRate(t, c).Some? ==> CriticalRate(t, c) <= ErrorRate(t, c).value
    ensures ErrorRate(t, c).None? ==> CriticalRate(t, c) == 0.0
  {
    var g := InCountry(t, c);
    var n, f, k := GroupSize(t, c), |WithStatus(g, "failed")|, |CriticalFailures(g)|;
    CriticalWithinFailed(g);
    RatioBounds(k, f, n);
    assert CriticalRate(t, c) == k as real / n as real;
    if f == 0 {
      assert k == 0;
      assert ErrorRate(t, c) == None;
    } else {
      assert ErrorRate(t, c) == Some(f as real / n as real);
    }
  }

  /** Fractions of one positive whole keep the order of their numerators. */
  lemma RatioBounds(k: nat, f: nat, n: nat)
    requires k <= f <= n && n > 0
    ensures 0.0 <= k as real / n as real <= f as real / n as real <= 1.0
    ensures f > 0 ==> f as real / n as real > 0.0
  {
    var a, b, d := k as real / n as real, f as real / n as real, n as real;
    assert a * d == k as real;
    assert b * d == f as real;
    assert (b - a) * d == f as real - k as real;
    assert (1.0 - b) * d == d - f as real;
    SignOfQuotient(a, d);
    SignOfQuotient(b - a, d);
    SignOfQuotient(1.0 - b, d);
  }

  /** A number whose product with a positive number is not negative is not negative. */
  lemma SignOfQuotient(x: real, d: real)
    requires d > 0.0
    ensures x * d >= 0.0 ==> x >= 0.0
    ensures x * d > 0.0 ==> x > 0.0
  {
  }

  /** A total between `count * lo` and `count * hi` has its mean between `lo` and `hi`. */
  lemma MeanBounds(sum: nat, count: nat, lo: nat, hi: nat)
    requires count > 0 && count * lo <= sum <= count * hi
    ensures lo as real <= sum as real / count as real <= hi as real
  {
    var m, d := sum as real / count as real, count as real;
    assert m * d == sum as real;
    assert (count * lo) as real == d * lo as real;
    assert (count * hi) as real == d * hi as real;
    assert (m - lo as real) * d == sum as real - d * lo as real;
    assert (hi as real - m) * d == d * hi as real - sum as real;
    SignOfQuotient(m - lo as real, d);
    SignOfQuotient(hi as real - m, d);
  }


  lemma MulSucc(n: nat, x: nat)
    requires n > 0
    ensures n * x == x + (n - 1) * x
  {
  }

  lemma {:induction false} SumBounds(p: Table, lo: nat, hi: nat)
    requires forall x :: x in p ==> lo <= x.amount <= hi
    ensures |p| * lo <= SumAmounts(p) <= |p| * hi
  {
    if p != [] {
      assert p[0] in p;
      assert forall x :: x in p[1..] ==> x in p;
      SumBounds(p[1..], lo, hi);
      MulSucc(|p|, lo);
      MulSucc(|p|, hi);
    }
  }

  /** The mean lies between the least and the greatest pending amount. */
  lemma AverageBounded(t: Table, c: string, lo: nat, hi: nat)
    requires c in PendingCountries(t)
    requires forall x :: x in t && x.country == c && x.status == "pending" ==> lo <= x.amount <= hi
    ensures lo as real <= AverageOutstanding(t, c) <= hi as real
  {
    var p := WithStatus(InCountry(t, c), "pending");
    SumBounds(p, lo, hi);
    var x :| x in WithStatus(t, "pending") && x.country == c;
    assert x in p;
    MeanBounds(SumAmounts(p), |p|, lo, hi);
  }

  /** One record in front of a table, through each filter. */
  lemma InCountryCons(x: Csv.Transaction, t: Table, c: string)
    ensures InCountry([x] + t, c) == (if x.country == c then [x] else []) + InCountry(t, c)
  {
    assert ([x] + t)[1..] == t;
  }

  lemma WithStatusCons(x: Csv.Transaction, t: Table, s: string)
    ensures WithStatus([x] + t, s) == (if x.status == s then [x] else []) + WithStatus(t, s)
  {
    assert ([x] + t)[1..] == t;
  }

  lemma CriticalFailuresCons(x: Csv.Transaction, t: Table)
    ensures CriticalFailures([x] + t) ==
            (if x.status == "failed" && x.amount > CriticalAmount then [x] else []) + CriticalFailures(t)
  {
    assert ([x] + t)[1..] == t;
  }

  /** Each filter keeps every selected record exactly as many times as the
      table holds it, and no other record. */
  lemma {:induction false} InCountryCounts(t: Table, c: string)
    ensures forall x :: multiset(InCountry(t, c))[x] == if x.country == c then multiset(t)[x] else 0
  {
    if t != [] {
      InCountryCounts(t[1..], c);
      assert t == [t[0]] + t[1..];
    }
  }

  lemma {:induction false} WithStatusCounts(t: Table, s: string)
    ensures forall x :: multiset(WithStatus(t, s))[x] == if x.status == s then multiset(t)[x] else 0
  {
    if t != [] {
      WithStatusCounts(t[1..], s);
      assert t == [t[0]] + t[1..];
    }
  }

  lemma {:induction false} CriticalFailuresCounts(t: Table)
    ensures forall x :: multiset(CriticalFailures(t))[x] ==
              if x.status == "failed" && x.amount > CriticalAmount then multiset(t)[x] else 0
  {
    if t != [] {
      CriticalFailuresCounts(t[1..]);
      assert t == [t[0]] + t[1..];
    }
  }

  lemma CountriesOfCons(x: Csv.Transaction, t: Table)
    ensures CountriesOf([x] + t) == {x.country} + CountriesOf(t)
  {
    assert forall y :: y in [x] + t <==> y == x || y in t;
  }

  lemma {:induction false} InCountryAppend(t: Table, u: Table, c: string)
    ensures InCountry(t + u, c) == InCountry(t, c) + InCountry(u, c)
  {
    if t == [] {
      assert t + u == u;
    } else {
      var x, rest := t[0], t[1..];
      assert t == [x] + rest;
      assert t + u == [x] + (rest + u);
      InCountryCons(x, rest, c);
      InCountryCons(x, rest + u, c);
      InCountryAppend(rest, u, c);
    }
  }


  lemma {:induction false} WithStatusAppend(t: Table, u: Table, s: string)
    ensures WithStatus(t + u, s) == WithStatus(t, s) + WithStatus(u, s)
  {
    if t == [] {
      assert t + u == u;
    } else {
      var x, rest := t[0], t[1..];
      assert t == [x] + rest;
      assert t + u == [x] + (rest + u);
      WithStatusCons(x, rest, s);
      WithStatusCons(x, rest + u, s);
      WithStatusAppend(rest, u, s);
    }
  }


  lemma {:induction false} SumAmountsAppend(t: Table, u: Table)
    ensures SumAmounts(t + u) == SumAmounts(t) + SumAmounts(u)
  {
    if t != [] {
      assert (t + u)[0] == t[0] && (t + u)[1..] == t[1..] + u;
      SumAmountsAppend(t[1..], u);
    } else {
      assert t + u == u;
    }
  }

  /** The completed total of a table is the sum of the totals of its parts,
      so it does not depend on how the table was paginated. */
  lemma TotalCompletedSplits(t: Table, u: Table, c: string)
    ensures TotalCompleted(t + u, c) == TotalCompleted(t, c) + TotalCompleted(u, c)
  {
    InCountryAppend(t, u, c);
    WithStatusAppend(InCountry(t, c), InCountry(u, c), "completed");
    SumAmountsAppend(WithStatus(InCountry(t, c), "completed"), WithStatus(InCountry(u, c), "completed"));
  }

  // ---------------------------------------------------------------------
  // A worked example

  const SampleA := Csv.Transaction(1, "Spain", "pending", 100)
  const SampleB := Csv.Transaction(2, "Spain", "completed", 200)
  const SampleC := Csv.Transaction(3, "Spain", "failed", 50)
  const SampleD := Csv.Transaction(4, "USA", "failed", 2000000)

  /** Four records: three Spanish ones (pending 100, completed 200,
      failed 50) and one failed American one of 2000000. */
  const SampleTable: Table := [SampleA, SampleB, SampleC, SampleD]

  /** The Spanish group is the first three records. */
  lemma SampleSpanishRecords()
    ensures InCountry(SampleTable, "Spain") == [SampleA, SampleB, SampleC]
  {
    assert [SampleD] == [SampleD] + [];
    assert [SampleC, SampleD] == [SampleC] + [SampleD];
    assert [SampleB, SampleC, SampleD] == [SampleB] + [SampleC, SampleD];
    assert SampleTable == [SampleA] + [SampleB, SampleC, SampleD];
    InCountryCons(SampleD, [], "Spain");
    InCountryCons(SampleC, [SampleD], "Spain");
    InCountryCons(SampleB, [SampleC, SampleD], "Spain");
    InCountryCons(SampleA, [SampleB, SampleC, SampleD], "Spain");
  }

  /** The American group is the last record. */
  lemma SampleAmericanRecords()
    ensures InCountry(SampleTable, "USA") == [SampleD]
  {
    assert [SampleD] == [SampleD] + [];
    assert [SampleC, SampleD] == [SampleC] + [SampleD];
    assert [SampleB, SampleC, SampleD] == [SampleB] + [SampleC, SampleD];
    assert SampleTable == [SampleA] + [SampleB, SampleC, SampleD];
    InCountryCons(SampleD, [], "USA");
    InCountryCons(SampleC, [SampleD], "USA");
    InCountryCons(SampleB, [SampleC, SampleD], "USA");
    InCountryCons(SampleA, [SampleB, SampleC, SampleD], "USA");
  }

  lemma SampleCountries()
    ensures CountriesOf(SampleTable) == {"Spain", "USA"}
  {
    assert [SampleD] == [SampleD] + [];
    assert [SampleC, SampleD] == [SampleC] + [SampleD];
    assert [SampleB, SampleC, SampleD] == [SampleB] + [SampleC, SampleD];
    assert SampleTable == [SampleA] + [SampleB, SampleC, SampleD];
    CountriesOfCons(SampleD, []);
    CountriesOfCons(SampleC, [SampleD]);
    CountriesOfCons(SampleB, [SampleC, SampleD]);
    CountriesOfCons(SampleA, [SampleB, SampleC, SampleD]);
  }

  lemma SamplePendingCountries()
    ensures PendingCountries(SampleTable) == {"Spain"}
  {
    assert [SampleD] == [SampleD] + [];
    assert [SampleC, SampleD] == [SampleC] + [SampleD];
    assert [SampleB, SampleC, SampleD] == [SampleB] + [SampleC, SampleD];
    assert SampleTable == [SampleA] + [SampleB, SampleC, SampleD];
    WithStatusCons(SampleD, [], "pending");
    WithStatusCons(SampleC, [SampleD], "pending");
    WithStatusCons(SampleB, [SampleC, SampleD], "pending");
    WithStatusCons(SampleA, [SampleB, SampleC, SampleD], "pending");
    assert WithStatus(SampleTable, "pending") == [SampleA] + [];
    CountriesOfCons(SampleA, []);
  }

  /** The filters of the Spanish group: one record of each status, none critical. */
  lemma SampleSpanishGroup()
    ensures WithStatus([SampleA, SampleB, SampleC], "pending") == [SampleA]
    ensures WithStatus([SampleA, SampleB, SampleC], "completed") == [SampleB]
    ensures WithStatus([SampleA, SampleB, SampleC], "failed") == [SampleC]
    ensures CriticalFailures([SampleA, SampleB, SampleC]) == []
  {
    assert [SampleC] == [SampleC] + [];
    assert [SampleB, SampleC] == [SampleB] + [SampleC];
    assert [SampleA, SampleB, SampleC] == [SampleA] + [SampleB, SampleC];
    WithStatusCons(SampleC, [], "pending");
    WithStatusCons(SampleB, [SampleC], "pending");
    WithStatusCons(SampleA, [SampleB, SampleC], "pending");
    WithStatusCons(SampleC, [], "completed");
    WithStatusCons(SampleB, [SampleC], "completed");
    WithStatusCons(SampleA, [SampleB, SampleC], "completed");
    WithStatusCons(SampleC, [], "failed");
    WithStatusCons(SampleB, [SampleC], "failed");
    WithStatusCons(SampleA, [SampleB, SampleC], "failed");
    CriticalFailuresCons(SampleC, []);
    CriticalFailuresCons(SampleB, [SampleC]);
    CriticalFailuresCons(SampleA, [SampleB, SampleC]);
  }

  /** The per-country series of the sample hold the expected values. */
  lemma SampleAverageOutstanding()
    ensures "Spain" in PendingCountries(SampleTable) && AverageOutstanding(SampleTable, "Spain") == 100.0
  {
    SampleSpanishRecords();
    SamplePendingCountries();
    SampleSpanishGroup();
    assert [SampleA][1..] == [];
    assert SumAmounts([SampleA]) == 100;
  }

  lemma SampleTotalCompleted()
    ensures TotalCompleted(SampleTable, "Spain") == 200.0
  {
    SampleSpanishRecords();
    SampleSpanishGroup();
    assert [SampleB][1..] == [];
    assert SumAmounts([SampleB]) == 200;
  }

  lemma SampleErrorRate()
    ensures "Spain" in CountriesOf(SampleTable) && ErrorRate(SampleTable, "Spain") == Some(1.0 / 3.0)
  {
    assert SampleA in SampleTable;
    SampleSpanishRecords();
    assert GroupSize(SampleTable, "Spain") == 3;
    SampleSpanishGroup();
    assert |WithStatus(InCountry(SampleTable, "Spain"), "failed")| == 1;
  }

  lemma SampleSpanishCriticalRate()
    ensures "Spain" in CountriesOf(SampleTable) && CriticalRate(SampleTable, "Spain") == 0.0
  {
    assert SampleA in SampleTable;
    SampleSpanishRecords();
    assert GroupSize(SampleTable, "Spain") == 3;
    SampleSpanishGroup();
  }

  lemma SampleAmericanCriticalRate()
    ensures "USA" in CountriesOf(SampleTable) && CriticalRate(SampleTable, "USA") == 1.0
  {
    assert SampleD in SampleTable;
    SampleAmericanRecords();
    CriticalFailuresCons(SampleD, []);
    assert [SampleD] == [SampleD] + [];
  }

  /** Yet the sample's report cannot be assembled: "USA" has neither a
      pending nor a completed record, so the series differ in length. */
  lemma SampleReportFails()
    ensures Aggregate(SampleTable) == Err(AggregationInconsistency)
  {
    SampleCountries();
    SamplePendingCountries();
  }
}
