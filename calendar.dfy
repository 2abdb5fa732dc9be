/**
 * The calendar side of the loader: turning the text "<Year>-<Month>" into the
 * first day of that month with the "%Y-%B" directive, and ordering the dates.
 */
module Calendar {
  import opened Wrappers

  /** A calendar day. The loader only ever builds the first day of a month. */
  datatype Date = Date(year: int, month: int, day: int)

  /** The full English month names that "%B" recognises, January first. */
  const MonthNames: seq<string> := [
    "January", "February", "March", "April", "May", "June",
    "July", "August", "September", "October", "November", "December"
  ]

  /** "%B" matches without regard to case: ASCII capitals fold to small letters. */
  function FoldCase(c: char): char
  {
    if 'A' <= c <= 'Z' then (c as int - 'A' as int + 'a' as int) as char else c
  }

  /** The two texts are equal once case is folded. */
  predicate SameIgnoringCase(a: string, b: string)
  {
    |a| == |b| && forall k :: 0 <= k < |a| ==> FoldCase(a[k]) == FoldCase(b[k])
  }

  /** The first month at position `from` or later whose name matches `name`, as a 1-based number. */
  function FindMonth(name: string, from: nat): Option<int>
    requires from <= |MonthNames|
    decreases |MonthNames| - from
  {
    if from == |MonthNames| then None
    else if SameIgnoringCase(name, MonthNames[from]) then Some(from + 1)
    else FindMonth(name, from + 1)
  }

  /** The search finds a matching name at or after `from`, or there is none. */
  lemma {:induction false} FindMonthFinds(name: string, from: nat)
    requires from <= |MonthNames|
    ensures FindMonth(name, from).Some? ==>
      from < FindMonth(name, from).value <= |MonthNames| && SameIgnoringCase(name, MonthNames[FindMonth(name, from).value - 1])
    ensures FindMonth(name, from).None? <==> forall i :: from <= i < |MonthNames| ==> !SameIgnoringCase(name, MonthNames[i])
    decreases |MonthNames| - from
  {
    if from < |MonthNames| && !SameIgnoringCase(name, MonthNames[from]) {
      FindMonthFinds(name, from + 1);
    }
  }

  /**
   * The month number (1 to 12) that a Month cell names, or None when the text
   * is not one of the twelve names: that lookup cannot fall back on anything.
   */
  function MonthNumber(name: string): Option<int>
  {
    FindMonth(name, 0)
  }

  /** The month number is a matching name's position, and there is none only when no name matches. */
  lemma MonthNumberMeaning(name: string)
    ensures MonthNumber(name).Some? ==>
      1 <= MonthNumber(name).value <= 12 && SameIgnoringCase(name, MonthNames[MonthNumber(name).value - 1])
    ensures MonthNumber(name).None? <==> forall i :: 0 <= i < 12 ==> !SameIgnoringCase(name, MonthNames[i])
  {
    FindMonthFinds(name, 0);
  }

  /** No two month names are equal, even ignoring case: length, first and third letter tell them apart. */
  lemma MonthNamesDistinct(i: nat, j: nat)
    requires i < 12 && j < 12
    requires SameIgnoringCase(MonthNames[i], MonthNames[j])
    ensures i == j
  {
    var a, b := MonthNames[i], MonthNames[j];
    assert |a| == |b| && |a| >= 3;
    assert FoldCase(a[0]) == FoldCase(b[0]);
    assert FoldCase(a[2]) == FoldCase(b[2]);
  }

  /** Each month name, in any case, is looked up to its own position. */
  lemma MonthNumberOfName(i: nat, name: string)
    requires i < 12
    requires SameIgnoringCase(name, MonthNames[i])
    ensures MonthNumber(name) == Some(i + 1)
  {
    MonthNumberMeaning(name);
    var r := MonthNumber(name);
    assert r.Some?;
    assert SameIgnoringCase(MonthNames[i], MonthNames[r.value - 1]) by {
      forall k | 0 <= k < |name|
        ensures FoldCase(MonthNames[i][k]) == FoldCase(MonthNames[r.value - 1][k])
      {
      }
    }
    MonthNamesDistinct(i, r.value - 1);
  }

  /** "%Y" takes exactly four decimal digits, and a year prints as its decimal digits. */
  predicate FourDigitYear(year: int)
  {
    1000 <= year <= 9999
  }

  /**
   * Parsing Year + "-" + Month with the format "%Y-%B": the first day of the
   * named month of that year, or None when either half does not match.
   */
  function ParseDate(year: int, month: string): Option<Date>
  {
    if !FourDigitYear(year) then None
    else match MonthNumber(month)
      case None => None
      case Some(m) => Some(Date(year, m, 1))
  }

  /**
   * What "%Y-%B" accepts: a four-digit year and one of the twelve month names
   * in any case; it yields the first day of that month, numbered from 1.
   */
  lemma ParseDateMeaning(year: int, month: string)
    ensures ParseDate(year, month).Some?
        <==> FourDigitYear(year) && exists i :: 0 <= i < 12 && SameIgnoringCase(month, MonthNames[i])
    ensures ParseDate(year, month).Some? ==> var d := ParseDate(year, month).value;
      d.year == year && d.day == 1 && 1 <= d.month <= 12 && SameIgnoringCase(month, MonthNames[d.month - 1])
  {
    MonthNumberMeaning(month);
  }

  /** Chronological order on dates: `a` is not later than `b`. */
  predicate NotAfter(a: Date, b: Date)
  {
    a.year < b.year
    || (a.year == b.year && a.month < b.month)
    || (a.year == b.year && a.month == b.month && a.day <= b.day)
  }

  /** Two parsed first-of-month dates are in order exactly when (year, month number) is. */
  lemma ParsedDatesOrder(y1: int, m1: string, y2: int, m2: string, i: nat, j: nat)
    requires i < 12 && j < 12
    requires FourDigitYear(y1) && SameIgnoringCase(m1, MonthNames[i])
    requires FourDigitYear(y2) && SameIgnoringCase(m2, MonthNames[j])
    ensures ParseDate(y1, m1).Some? && ParseDate(y2, m2).Some?
    ensures NotAfter(ParseDate(y1, m1).value, ParseDate(y2, m2).value) <==> y1 < y2 || (y1 == y2 && i <= j)
  {
    MonthNumberOfName(i, m1);
    MonthNumberOfName(j, m2);
  }
}
