/**
 * The November-versus-October comparison of one network's table: keep the
 * rows whose Month is October or November, give up unless both months are
 * there, and for each metric column the table has, total it per month and
 * report the two totals, their difference and the percentage change.
 */
module KeyInsights {
  import opened Wrappers
  import opened Sheets
  import opened SeqFacts
  import opened Loader

  /** The metric columns compared, in the order the comparison lists them. */
  const Metrics: seq<string> := ["Followers", "Views", "Posts", "Interactions", "Comments"]

  /** The two months compared. Month cells are matched exactly against these names. */
  const October: string := "October"
  const November: string := "November"
  const ComparisonMonths: set<string> := {October, November}

  /** One line of the comparison: a metric's two monthly totals and how they differ. */
  datatype Insight = Insight(metric: string, october: nat, november: nat, difference: int, pctChange: Option<real>)

  /** What the comparison shows. */
  datatype Report =
    | MissingMonthColumn              // the table has no Month column to select on
    | NeedsBothMonths                 // October or November is absent: only a notice is shown
    | InsightTable(entries: seq<Insight>)

  /** The rows whose Month cell is one of `months`, in their order. */
  function RowsIn(rows: seq<Row>, months: set<string>): seq<Row>
  {
    if rows == [] then []
    else if rows[0].month in months then [rows[0]] + RowsIn(rows[1..], months)
    else RowsIn(rows[1..], months)
  }

  /** The selection keeps every row of the chosen months, as often as it occurs, and no other row. */
  lemma {:induction false} RowsInCount(rows: seq<Row>, months: set<string>)
    ensures forall x :: multiset(RowsIn(rows, months))[x] == if x.month in months then multiset(rows)[x] else 0
  {
    if rows != [] {
      RowsInCount(rows[1..], months);
      assert rows == [rows[0]] + rows[1..];
      assert multiset(rows) == multiset{rows[0]} + multiset(rows[1..]);
      var tail := RowsIn(rows[1..], months);
      assert multiset([rows[0]] + tail) == multiset{rows[0]} + multiset(tail);
    }
  }

  /** Some row's Month cell is exactly `month`. */
  predicate HasMonth(rows: seq<Row>, month: string)
  {
    exists i :: 0 <= i < |rows| && rows[i].month == month
  }

  /** The distinct Month cells of the rows: the values a distinct count counts. */
  function MonthsPresent(rows: seq<Row>): set<string>
  {
    set i | 0 <= i < |rows| :: rows[i].month
  }

  /** A month among `months` is present in the selected rows exactly when it is present at all. */
  lemma HasMonthIn(rows: seq<Row>, months: set<string>, month: string)
    requires month in months
    ensures month in MonthsPresent(RowsIn(rows, months)) <==> HasMonth(rows, month)
  {
    var sub := RowsIn(rows, months);
    RowsInCount(rows, months);
    if month in MonthsPresent(sub) {
      var i :| 0 <= i < |sub| && sub[i].month == month;
      assert sub[i] in multiset(sub);
      var k := IndexOf(rows, sub[i]);
    }
    if HasMonth(rows, month) {
      var i :| 0 <= i < |rows| && rows[i].month == month;
      assert rows[i] in multiset(rows);
      var k := IndexOf(sub, rows[i]);
    }
  }

  /** The selected rows only hold the selected months. */
  lemma MonthsPresentIn(rows: seq<Row>, months: set<string>)
    ensures MonthsPresent(RowsIn(rows, months)) <= months
  {
    var sub := RowsIn(rows, months);
    RowsInCount(rows, months);
    forall m | m in MonthsPresent(sub) ensures m in months {
      var i :| 0 <= i < |sub| && sub[i].month == m;
      assert sub[i] in multiset(sub);
    }
  }

  /**
   * The guard of the comparison: the October and November rows hold at least
   * two distinct months exactly when both months occur in the table.
   */
  lemma EnoughMonths(rows: seq<Row>)
    ensures |MonthsPresent(RowsIn(rows, ComparisonMonths))| >= 2
        <==> HasMonth(rows, October) && HasMonth(rows, November)
  {
    var present := MonthsPresent(RowsIn(rows, ComparisonMonths));
    MonthsPresentIn(rows, ComparisonMonths);
    HasMonthIn(rows, ComparisonMonths, October);
    HasMonthIn(rows, ComparisonMonths, November);
    if HasMonth(rows, October) && HasMonth(rows, November) {
      assert present == ComparisonMonths;
    } else if HasMonth(rows, October) {
      assert present == {October};
    } else if HasMonth(rows, November) {
      assert present == {November};
    } else {
      assert present == {};
    }
  }

  /** The column sum of `metric` over the rows; empty cells add nothing. */
  function Total(rows: seq<Row>, metric: string): nat
  {
    if rows == [] then 0 else Cell(rows[0], metric) + Total(rows[1..], metric)
  }

  /** Reference definition: the sum of `metric` over the rows whose Month is exactly `month`. */
  function MonthTotal(rows: seq<Row>, month: string, metric: string): nat
  {
    if rows == [] then 0
    else (if rows[0].month == month then Cell(rows[0], metric) else 0) + MonthTotal(rows[1..], month, metric)
  }

  /** Only rows of the month count: a month that does not occur totals zero. */
  lemma {:induction false} MonthTotalAbsent(rows: seq<Row>, month: string, metric: string)
    requires !HasMonth(rows, month)
    ensures MonthTotal(rows, month, metric) == 0
  {
    if rows != [] {
      MonthTotalAbsent(rows[1..], month, metric);
    }
  }

  /**
   * Rows of every year are pooled: two runs of rows that differ only in their
   * Year cells have the same month total.
   */
  lemma {:induction false} MonthTotalPoolsYears(a: seq<Row>, b: seq<Row>, month: string, metric: string)
    requires |a| == |b|
    requires forall i :: 0 <= i < |a| ==> a[i].month == b[i].month && a[i].values == b[i].values
    ensures MonthTotal(a, month, metric) == MonthTotal(b, month, metric)
  {
    if a != [] {
      MonthTotalPoolsYears(a[1..], b[1..], month, metric);
    }
  }

  /** The total over two runs of rows is the sum of their totals. */
  lemma {:induction false} MonthTotalAppend(a: seq<Row>, b: seq<Row>, month: string, metric: string)
    ensures MonthTotal(a + b, month, metric) == MonthTotal(a, month, metric) + MonthTotal(b, month, metric)
  {
    if a == [] {
      assert a + b == b;
    } else {
      assert (a + b)[1..] == a[1..] + b;
      MonthTotalAppend(a[1..], b, month, metric);
    }
  }

  /** A month's total does not depend on the order of the rows. */
  lemma {:induction false} MonthTotalPermutation(a: seq<Row>, b: seq<Row>, month: string, metric: string)
    requires multiset(a) == multiset(b)
    ensures MonthTotal(a, month, metric) == MonthTotal(b, month, metric)
    decreases |a|
  {
    if a == [] {
      assert |b| == |multiset(b)| == 0;
    } else {
      var k := IndexOf(b, a[0]);
      RemoveShared(a, b, k);
      MonthTotalPermutation(a[1..], b[..k] + b[k + 1..], month, metric);
      assert b == b[..k] + [b[k]] + b[k + 1..];
      MonthTotalAppend(b[..k] + [b[k]], b[k + 1..], month, metric);
      MonthTotalAppend(b[..k], [b[k]], month, metric);
      MonthTotalAppend(b[..k], b[k + 1..], month, metric);
      assert MonthTotal([b[k]], month, metric) == MonthTotal([a[0]], month, metric);
      assert [b[k]][1..] == [];
    }
  }

  /** Whether a month occurs does not depend on the order of the rows. */
  lemma HasMonthPermutation(a: seq<Row>, b: seq<Row>, month: string)
    requires multiset(a) == multiset(b)
    ensures HasMonth(a, month) <==> HasMonth(b, month)
  {
    if HasMonth(a, month) {
      var i :| 0 <= i < |a| && a[i].month == month;
      assert a[i] in multiset(b);
      var k := IndexOf(b, a[i]);
    }
    if HasMonth(b, month) {
      var i :| 0 <= i < |b| && b[i].month == month;
      assert b[i] in multiset(a);
      var k := IndexOf(a, b[i]);
    }
  }

  /**
   * What the comparison sums for a month is its total: selecting the rows of
   * `months` and then those of one of them, and adding up the metric, gives
   * that month's total over the whole table.
   */
  lemma {:induction false} SelectedTotal(rows: seq<Row>, months: set<string>, month: string, metric: string)
    requires month in months
    ensures Total(RowsIn(RowsIn(rows, months), {month}), metric) == MonthTotal(rows, month, metric)
  {
    if rows != [] {
      SelectedTotal(rows[1..], months, month, metric);
      var tail := RowsIn(rows[1..], months);
      if rows[0].month in months {
        assert ([rows[0]] + tail)[1..] == tail;
        if rows[0].month == month {
          var picked := RowsIn(tail, {month});
          assert ([rows[0]] + picked)[1..] == picked;
        }
      }
    }
  }

  /**
   * The percentage change from `october` to `october + difference`; none when
   * the October total is zero, which would be a division by zero.
   */
  function PctChange(difference: int, october: nat): (r: Option<real>)
    ensures r.None? <==> october == 0
    ensures r.Some? ==> r.value * (october as real) == (difference as real) * 100.0
    ensures r.Some? ==> (r.value > 0.0 <==> difference > 0) && (r.value < 0.0 <==> difference < 0)
  {
    if october != 0 then
      var p := difference as real / october as real * 100.0;
      assert p * (october as real) == (difference as real) * 100.0;
      Some(p)
    else None
  }

  /** The candidates that are columns of the table, in candidate order. */
  function Present(candidates: seq<string>, columns: set<string>): (r: seq<string>)
    ensures forall m :: m in r <==> m in candidates && m in columns
    ensures |r| <= |candidates|
  {
    if candidates == [] then []
    else
      var last := candidates[|candidates| - 1];
      var init := candidates[..|candidates| - 1];
      assert candidates == init + [last];
      if last in columns then Present(init, columns) + [last] else Present(init, columns)
  }

  /** Looking at one more candidate appends it when it is a column. */
  lemma PresentSnoc(candidates: seq<string>, next: string, columns: set<string>)
    ensures Present(candidates + [next], columns)
        == if next in columns then Present(candidates, columns) + [next] else Present(candidates, columns)
  {
    assert (candidates + [next])[..|candidates|] == candidates;
  }

  /** `x` occurs in `c` at a position before some occurrence of `y`. */
  predicate ComesBefore(c: seq<string>, x: string, y: string)
  {
    exists p, q :: 0 <= p < q < |c| && c[p] == x && c[q] == y
  }

  /**
   * The present candidates keep the candidates' order: of any two listed
   * entries, the earlier one comes before the later one among the candidates.
   * With distinct candidates, no entry is listed twice.
   */
  lemma {:induction false} PresentInOrder(candidates: seq<string>, columns: set<string>)
    requires forall p, q :: 0 <= p < q < |candidates| ==> candidates[p] != candidates[q]
    ensures forall i, j :: 0 <= i < j < |Present(candidates, columns)| ==>
        ComesBefore(candidates, Present(candidates, columns)[i], Present(candidates, columns)[j])
    ensures forall i, j :: 0 <= i < j < |Present(candidates, columns)| ==>
        Present(candidates, columns)[i] != Present(candidates, columns)[j]
  {
    if candidates == [] {
      assert Present(candidates, columns) == [];
    } else {
      var n := |candidates| - 1;
      var last := candidates[n];
      var init := candidates[..n];
      assert candidates == init + [last];
      PresentInOrder(init, columns);
      var r := Present(candidates, columns);
      var s := Present(init, columns);
      if last in columns {
        assert r == s + [last];
      } else {
        assert r == s;
      }
      forall i, j | 0 <= i < j < |r|
        ensures ComesBefore(candidates, r[i], r[j]) && r[i] != r[j]
      {
        if j < |s| {
          assert ComesBefore(init, s[i], s[j]);
          var p, q :| 0 <= p < q < |init| && init[p] == s[i] && init[q] == s[j];
          assert candidates[p] == r[i] && candidates[q] == r[j];
        } else {
          assert r[i] == s[i] && s[i] in s;
          var p :| 0 <= p < |init| && init[p] == s[i];
          assert candidates[p] == r[i] && candidates[n] == r[j];
        }
      }
    }
  }

  /** The metrics the table has, in comparison order: the metrics the report lists. */
  function PresentMetrics(columns: set<string>): seq<string>
  {
    Present(Metrics, columns)
  }

  /**
   * The report lists each metric the table has once, in the fixed order
   * Followers, Views, Posts, Interactions, Comments.
   */
  lemma PresentMetricsInOrder(columns: set<string>)
    ensures forall i, j :: 0 <= i < j < |PresentMetrics(columns)| ==>
        ComesBefore(Metrics, PresentMetrics(columns)[i], PresentMetrics(columns)[j])
        && PresentMetrics(columns)[i] != PresentMetrics(columns)[j]
  {
    PresentInOrder(Metrics, columns);
  }

  /** A column that is not a candidate does not change which candidates are present. */
  lemma {:induction false} PresentIgnores(candidates: seq<string>, columns: set<string>, extra: string)
    requires extra !in candidates
    ensures Present(candidates, columns + {extra}) == Present(candidates, columns)
  {
    if candidates != [] {
      var init := candidates[..|candidates| - 1];
      assert candidates == init + [candidates[|candidates| - 1]];
      PresentIgnores(init, columns, extra);
    }
  }

  /**
   * `e` is the comparison line of `metric` over `rows`: the October and
   * November totals, November minus October, and the percentage change.
   */
  predicate Describes(e: Insight, rows: seq<Row>, metric: string)
  {
    && e.metric == metric
    && e.october == MonthTotal(rows, October, metric)
    && e.november == MonthTotal(rows, November, metric)
    && e.difference == e.november - e.october
    && e.pctChange == PctChange(e.difference, e.october)
  }

  /** Appending the line of the next metric keeps every line describing its metric. */
  lemma DescribesAll(entries: seq<Insight>, next: Insight, rows: seq<Row>, metrics: seq<string>, metric: string)
    requires |entries| == |metrics| && Describes(next, rows, metric)
    requires forall k :: 0 <= k < |entries| ==> Describes(entries[k], rows, metrics[k])
    ensures forall k :: 0 <= k < |entries| + 1 ==> Describes((entries + [next])[k], rows, (metrics + [metric])[k])
  {
  }

  /**
   * The key-insights view of one network's table. It lists, for each metric
   * column the table has, how the metric's November total compares with its
   * October total, or gives only a notice when either month is missing.
   */
  method ShowKeyInsights(t: Table) returns (report: Report)
    ensures report.MissingMonthColumn? <==> "Month" !in t.columns
    ensures report.NeedsBothMonths?
        <==> "Month" in t.columns && !(HasMonth(t.rows, October) && HasMonth(t.rows, November))
    ensures report.InsightTable? ==> |report.entries| == |PresentMetrics(t.columns)|
    ensures report.InsightTable? ==> forall k :: 0 <= k < |report.entries| ==>
        Describes(report.entries[k], t.rows, PresentMetrics(t.columns)[k])
  {
    if "Month" !in t.columns {
      return MissingMonthColumn;
    }
    var subset := RowsIn(t.rows, ComparisonMonths);
    EnoughMonths(t.rows);
    if |MonthsPresent(subset)| < 2 {
      return NeedsBothMonths;
    }
    var insights: seq<Insight> := [];
    for i := 0 to |Metrics|
      invariant |insights| == |Present(Metrics[..i], t.columns)|
      invariant forall k :: 0 <= k < |insights| ==> Describes(insights[k], t.rows, Present(Metrics[..i], t.columns)[k])
    {
      var metric := Metrics[i];
      assert Metrics[..i + 1] == Metrics[..i] + [metric];
      PresentSnoc(Metrics[..i], metric, t.columns);
      if metric in t.columns {
        var octVal := Total(RowsIn(subset, {October}), metric);
        var novVal := Total(RowsIn(subset, {November}), metric);
        SelectedTotal(t.rows, ComparisonMonths, October, metric);
        SelectedTotal(t.rows, ComparisonMonths, November, metric);
        var diff := novVal as int - octVal as int;
        var pctChange := PctChange(diff, octVal);
        var entry := Insight(metric, octVal, novVal, diff, pctChange);
        DescribesAll(insights, entry, t.rows, Present(Metrics[..i], t.columns), metric);
        insights := insights + [entry];
      }
    }
    assert Metrics[..|Metrics|] == Metrics;
    report := InsightTable(insights);
  }

  /**
   * Loading a sheet does not change what the comparison reports about it: the
   * added Date column is no metric, and sorting only reorders the rows.
   */
  lemma LoadingKeepsInsights(t: Table, l: Loaded, month: string, metric: string)
    requires LoadedFrom(t, l)
    ensures HasMonth(Undated(l.rows), month) <==> HasMonth(t.rows, month)
    ensures MonthTotal(Undated(l.rows), month, metric) == MonthTotal(t.rows, month, metric)
    ensures PresentMetrics(l.columns) == PresentMetrics(t.columns)
  {
    var rows := Undated(l.rows);
    assert multiset(rows) == multiset(t.rows);
    MonthTotalPermutation(rows, t.rows, month, metric);
    HasMonthPermutation(rows, t.rows, month);
    PresentIgnores(Metrics, t.columns, "Date");
  }
}
