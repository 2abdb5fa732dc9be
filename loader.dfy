/**
 * Loading the workbook: for each network, read its sheet, add a Date column
 * built from Year and Month, and sort the rows by that date.
 */
module Loader {
  import opened Wrappers
  import opened Sheets
  import opened Calendar
  import opened SeqFacts

  /** A row of a loaded table: the sheet row together with its derived Date cell. */
  datatype DatedRow = DatedRow(date: Date, row: Row)

  /** A loaded network table: the sheet's columns plus "Date", and its dated rows. */
  datatype Loaded = Loaded(columns: set<string>, rows: seq<DatedRow>)

  /** Why loading stops: an absent sheet, an absent column, or a Year/Month pair the date format rejects. */
  datatype LoadError =
    | MissingSheet(sheet: string)
    | MissingColumn(column: string)
    | UnparseableDate(year: int, month: string)

  /** A workbook: its sheets by name. */
  type Workbook = map<string, Table>

  /** The three networks; each is the key of its loaded table. */
  datatype Network = Facebook | Instagram | LinkedIn

  /** The networks in the order the loader visits them. */
  const Networks: seq<Network> := [Facebook, Instagram, LinkedIn]

  /** The workbook sheet each network is read from. */
  function SheetName(n: Network): string
  {
    match n
    case Facebook => "FB Page"
    case Instagram => "Instagram"
    case LinkedIn => "LinkedIn"
  }

  /** The sheet rows of a loaded table, without their dates. */
  function Undated(s: seq<DatedRow>): (r: seq<Row>)
    ensures |r| == |s| && forall i :: 0 <= i < |s| ==> r[i] == s[i].row
  {
    seq(|s|, i requires 0 <= i < |s| => s[i].row)
  }

  /** The Date cell of a loaded row is what "%Y-%B" makes of its Year and Month. */
  predicate WellDated(d: DatedRow)
  {
    ParseDate(d.row.year, d.row.month) == Some(d.date)
  }

  /** The row's Year and Month make a date. */
  predicate Parses(row: Row)
  {
    ParseDate(row.year, row.month).Some?
  }

  /** Every row's Year and Month make a date. */
  predicate AllParse(rows: seq<Row>)
  {
    forall i :: 0 <= i < |rows| ==> Parses(rows[i])
  }

  /** `e` reports the first row whose Year and Month make no date. */
  predicate FirstUnparseable(rows: seq<Row>, e: LoadError)
  {
    exists i :: 0 <= i < |rows| && !Parses(rows[i])
      && (forall j :: 0 <= j < i ==> Parses(rows[j]))
      && e == UnparseableDate(rows[i].year, rows[i].month)
  }

  /** Behind a row that converts, the remaining rows decide whether all convert. */
  lemma AllParseCons(rows: seq<Row>)
    requires rows != [] && Parses(rows[0])
    ensures AllParse(rows) <==> AllParse(rows[1..])
  {
    if AllParse(rows[1..]) {
      forall i | 0 <= i < |rows| ensures Parses(rows[i]) {
        if i > 0 {
          assert rows[i] == rows[1..][i - 1];
        }
      }
    }
  }

  /** Behind a row that converts, the first failure of the remaining rows is the first failure. */
  lemma FirstUnparseableCons(rows: seq<Row>, e: LoadError)
    requires rows != [] && Parses(rows[0]) && FirstUnparseable(rows[1..], e)
    ensures FirstUnparseable(rows, e)
  {
    var tail := rows[1..];
    var i :| 0 <= i < |tail| && !Parses(tail[i])
      && (forall j :: 0 <= j < i ==> Parses(tail[j]))
      && e == UnparseableDate(tail[i].year, tail[i].month);
    assert tail[i] == rows[i + 1];
    forall j | 0 <= j < i + 1 ensures Parses(rows[j]) {
      if j > 0 {
        assert rows[j] == tail[j - 1];
      }
    }
  }

  /** The error the date conversion raises: at the first row it cannot convert, if any. */
  function DateFailure(rows: seq<Row>): (r: Option<LoadError>)
    ensures r.None? <==> AllParse(rows)
    ensures r.Some? ==> FirstUnparseable(rows, r.value)
  {
    if rows == [] then None
    else if !Parses(rows[0]) then
      Some(UnparseableDate(rows[0].year, rows[0].month))
    else
      var r := DateFailure(rows[1..]);
      AllParseCons(rows);
      if r.Some? then FirstUnparseableCons(rows, r.value); r else r
  }

  /**
   * The Date column for rows that all convert: each row paired with the first
   * day of its month.
   */
  function DateColumn(rows: seq<Row>): (r: seq<DatedRow>)
    requires AllParse(rows)
    ensures Undated(r) == rows
    ensures forall i :: 0 <= i < |r| ==> WellDated(r[i])
  {
    seq(|rows|, i requires 0 <= i < |rows| => DatedRow(ParseDate(rows[i].year, rows[i].month).value, rows[i]))
  }

  /** Dropping the dates distributes over concatenation. */
  lemma UndatedAppend(a: seq<DatedRow>, b: seq<DatedRow>)
    ensures Undated(a + b) == Undated(a) + Undated(b)
  {
  }

  /** Taking one dated row out takes its sheet row out of the undated rows. */
  lemma UndatedRemoveAt(s: seq<DatedRow>, k: nat)
    requires k < |s|
    ensures multiset(Undated(s)) == multiset(Undated(s[..k] + s[k + 1..])) + multiset{s[k].row}
  {
    UndatedAppend(s[..k], s[k + 1..]);
    assert Undated(s[..k]) == Undated(s)[..k];
    assert Undated(s[k + 1..]) == Undated(s)[k + 1..];
    RemoveAt(Undated(s), k);
  }

  /** The first dated row's sheet row, plus the rest's. */
  lemma UndatedHead(s: seq<DatedRow>)
    requires s != []
    ensures multiset(Undated(s)) == multiset(Undated(s[1..])) + multiset{s[0].row}
  {
    var head, tail := Undated([s[0]]), Undated(s[1..]);
    UndatedAppend([s[0]], s[1..]);
    assert [s[0]] + s[1..] == s;
    assert head == [s[0].row];
    assert multiset(head + tail) == multiset(head) + multiset(tail);
  }

  /** Reordering dated rows reorders their sheet rows the same way. */
  lemma {:induction false} UndatedPermutation(a: seq<DatedRow>, b: seq<DatedRow>)
    requires multiset(a) == multiset(b)
    ensures multiset(Undated(a)) == multiset(Undated(b))
    decreases |a|
  {
    if a == [] {
      assert |b| == |multiset(b)| == 0;
    } else {
      var k := IndexOf(b, a[0]);
      RemoveShared(a, b, k);
      UndatedPermutation(a[1..], b[..k] + b[k + 1..]);
      UndatedRemoveAt(b, k);
      UndatedHead(a);
    }
  }

  /** The rows are in chronological order of their Date cells. */
  predicate SortedByDate(s: seq<DatedRow>)
  {
    forall i, j :: 0 <= i < j < |s| ==> NotAfter(s[i].date, s[j].date)
  }

  /** A row dated no later than every row of an ordered sequence can go in front of it. */
  lemma ConsSorted(h: DatedRow, t: seq<DatedRow>)
    requires SortedByDate(t)
    requires forall i :: 0 <= i < |t| ==> NotAfter(h.date, t[i].date)
    ensures SortedByDate([h] + t)
  {
    forall i, j | 0 <= i < j < |[h] + t| ensures NotAfter(([h] + t)[i].date, ([h] + t)[j].date) {
      if i > 0 {
        assert ([h] + t)[i] == t[i - 1];
      }
      assert ([h] + t)[j] == t[j - 1];
    }
  }

  /** Puts `x` into the date-ordered `s`, keeping it ordered and losing nothing. */
  function Insert(x: DatedRow, s: seq<DatedRow>): (r: seq<DatedRow>)
    requires SortedByDate(s)
    ensures SortedByDate(r)
    ensures multiset(r) == multiset(s) + multiset{x}
  {
    if s == [] then [x]
    else if NotAfter(x.date, s[0].date) then
      ConsSorted(x, s);
      assert s == [s[0]] + s[1..];
      [x] + s
    else
      var t := Insert(x, s[1..]);
      assert forall i :: 0 <= i < |t| ==> NotAfter(s[0].date, t[i].date) by {
        forall i | 0 <= i < |t| ensures NotAfter(s[0].date, t[i].date) {
          assert t[i] in multiset(t);
          if t[i] != x {
            var k := IndexOf(s[1..], t[i]);
            assert s[1..][k] == s[k + 1];
          }
        }
      }
      ConsSorted(s[0], t);
      assert s == [s[0]] + s[1..];
      [s[0]] + t
  }

  /**
   * Ordering the rows by Date: the result is in date order and holds exactly the
   * input rows. Rows with equal dates may come out in any order.
   */
  function SortByDate(s: seq<DatedRow>): (r: seq<DatedRow>)
    ensures SortedByDate(r)
    ensures multiset(r) == multiset(s)
  {
    if s == [] then []
    else
      assert s == [s[0]] + s[1..];
      Insert(s[0], SortByDate(s[1..]))
  }

  /**
   * `l` is a correct load of sheet `t`: it has the sheet's columns plus Date,
   * its rows are the sheet's rows (as a multiset), each carries the date its
   * Year and Month name, and they are in date order.
   */
  predicate LoadedFrom(t: Table, l: Loaded)
  {
    && l.columns == t.columns + {"Date"}
    && SortedByDate(l.rows)
    && multiset(Undated(l.rows)) == multiset(t.rows)
    && forall i :: 0 <= i < |l.rows| ==> WellDated(l.rows[i])
  }

  /**
   * Why a sheet cannot be loaded, if it cannot: no Year column, no Month
   * column, or a row whose date does not convert, checked in that order.
   */
  function SheetProblem(t: Table): (r: Option<LoadError>)
    ensures "Year" !in t.columns ==> r == Some(MissingColumn("Year"))
    ensures "Year" in t.columns && "Month" !in t.columns ==> r == Some(MissingColumn("Month"))
    ensures r.None? <==> "Year" in t.columns && "Month" in t.columns && AllParse(t.rows)
    ensures "Year" in t.columns && "Month" in t.columns && r.Some? ==> FirstUnparseable(t.rows, r.value)
  {
    if "Year" !in t.columns then Some(MissingColumn("Year"))
    else if "Month" !in t.columns then Some(MissingColumn("Month"))
    else DateFailure(t.rows)
  }

  /** The named sheet is present, has Year and Month columns, and every row's date converts. */
  predicate Readable(book: Workbook, sheet: string)
  {
    sheet in book && "Year" in book[sheet].columns && "Month" in book[sheet].columns && AllParse(book[sheet].rows)
  }

  /** Why the named sheet of the workbook cannot be read and loaded, if it cannot. */
  function SheetError(book: Workbook, sheet: string): (r: Option<LoadError>)
    ensures r.None? <==> Readable(book, sheet)
    ensures sheet !in book ==> r == Some(MissingSheet(sheet))
    ensures sheet in book ==> r == SheetProblem(book[sheet])
  {
    if sheet !in book then Some(MissingSheet(sheet)) else SheetProblem(book[sheet])
  }

  /**
   * Reading one network's sheet, adding its Date column and sorting by it; this
   * fails if the sheet is absent, lacks Year or Month, or has a row whose date
   * does not convert.
   */
  method ReadSheet(book: Workbook, sheet: string) returns (r: Result<Loaded, LoadError>)
    ensures r.Failure? <==> !Readable(book, sheet)
    ensures r.Failure? ==> SheetError(book, sheet) == Some(r.error)
    ensures r.Success? ==> sheet in book && LoadedFrom(book[sheet], r.value)
  {
    if sheet !in book {
      return Failure(MissingSheet(sheet));
    }
    var t := book[sheet];
    var problem := SheetProblem(t);
    if problem.Some? {
      return Failure(problem.value);
    }
    var dated := DateColumn(t.rows);
    var sorted := SortByDate(dated);
    forall i | 0 <= i < |sorted| ensures WellDated(sorted[i]) {
      assert sorted[i] in multiset(dated);
    }
    UndatedPermutation(sorted, dated);
    r := Success(Loaded(t.columns + {"Date"}, sorted));
  }

  /** The sheet of network `n` can be read, and `data` holds a correct load of it under `n`. */
  predicate Stored(book: Workbook, data: map<Network, Loaded>, n: Network)
  {
    && Readable(book, SheetName(n))
    && n in data
    && LoadedFrom(book[SheetName(n)], data[n])
  }

  /** The first `i` networks visited are all stored in `data`. */
  predicate StoredUpTo(book: Workbook, data: map<Network, Loaded>, i: nat)
    requires i <= |Networks|
  {
    i == 0 || (StoredUpTo(book, data, i - 1) && Stored(book, data, Networks[i - 1]))
  }

  /** What `StoredUpTo` says about each network visited. */
  lemma {:induction false} StoredUpToEach(book: Workbook, data: map<Network, Loaded>, i: nat)
    requires i <= |Networks| && StoredUpTo(book, data, i)
    ensures forall k :: 0 <= k < i ==> Stored(book, data, Networks[k])
  {
    if i > 0 {
      StoredUpToEach(book, data, i - 1);
    }
  }

  /** Storing a network not yet visited keeps what is stored for the visited ones. */
  lemma {:induction false} StoredUpToKept(book: Workbook, data: map<Network, Loaded>, i: nat, l: Loaded)
    requires i < |Networks| && StoredUpTo(book, data, i)
    ensures StoredUpTo(book, data[Networks[i] := l], i)
  {
    if i > 0 {
      StoredUpToKept(book, data, i - 1, l);
      var n := Networks[i - 1];
      assert n != Networks[i];
      assert data[Networks[i] := l][n] == data[n];
    }
  }

  /** The networks among the first `i` visited. */
  function VisitedBefore(i: nat): set<Network>
    requires i <= |Networks|
  {
    if i == 0 then {} else VisitedBefore(i - 1) + {Networks[i - 1]}
  }

  /** Once all three are visited, every network has been. */
  lemma AllVisited()
    ensures VisitedBefore(|Networks|) == {Facebook, Instagram, LinkedIn}
    ensures Networks[0] == Facebook && Networks[1] == Instagram && Networks[2] == LinkedIn
  {
    assert VisitedBefore(1) == {Facebook};
    assert VisitedBefore(2) == {Facebook, Instagram};
  }

  /** `e` is the error of the first network, in visiting order, whose sheet cannot be read and loaded. */
  predicate FirstFailingSheet(book: Workbook, e: LoadError)
  {
    exists k :: 0 <= k < |Networks| && SheetError(book, SheetName(Networks[k])) == Some(e)
      && forall j :: 0 <= j < k ==> Readable(book, SheetName(Networks[j]))
  }

  /** Stopping at the `i`-th network, after the earlier ones loaded, reports the first failing sheet. */
  lemma FailsAt(book: Workbook, data: map<Network, Loaded>, i: nat, e: LoadError)
    requires i < |Networks| && StoredUpTo(book, data, i)
    requires SheetError(book, SheetName(Networks[i])) == Some(e)
    ensures FirstFailingSheet(book, e)
    ensures !forall n: Network :: Readable(book, SheetName(n))
  {
    StoredUpToEach(book, data, i);
  }

  /** Once every network is stored, the map holds exactly the three loaded sheets. */
  lemma LoadedAll(book: Workbook, data: map<Network, Loaded>)
    requires data.Keys == VisitedBefore(|Networks|)
    requires forall k :: 0 <= k < |Networks| ==> Stored(book, data, Networks[k])
    ensures data.Keys == {Facebook, Instagram, LinkedIn}
    ensures forall n: Network :: Stored(book, data, n)
    ensures forall n: Network :: Readable(book, SheetName(n))
  {
    AllVisited();
    forall n: Network ensures Stored(book, data, n) {
      match n
      case Facebook => assert n == Networks[0];
      case Instagram => assert n == Networks[1];
      case LinkedIn => assert n == Networks[2];
    }
  }

  /**
   * The loader: one loaded table per network, each read from that network's
   * sheet ("FB Page", "Instagram", "LinkedIn"); it stops at the first sheet
   * that cannot be read or converted.
   */
  method LoadData(book: Workbook) returns (r: Result<map<Network, Loaded>, LoadError>)
    ensures r.Success? <==> forall n: Network :: Readable(book, SheetName(n))
    ensures r.Success? ==> r.value.Keys == {Facebook, Instagram, LinkedIn}
    ensures r.Success? ==> forall n: Network :: Stored(book, r.value, n)
    ensures r.Failure? ==> FirstFailingSheet(book, r.error)
  {
    var data: map<Network, Loaded> := map[];
    for i := 0 to |Networks|
      invariant data.Keys == VisitedBefore(i)
      invariant StoredUpTo(book, data, i)
    {
      var network := Networks[i];
      var loaded := ReadSheet(book, SheetName(network));
      if loaded.Failure? {
        FailsAt(book, data, i, loaded.error);
        return Failure(loaded.error);
      }
      StoredUpToKept(book, data, i, loaded.value);
      data := data[network := loaded.value];
    }
    StoredUpToEach(book, data, |Networks|);
    LoadedAll(book, data);
    r := Success(data);
  }
}
