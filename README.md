# Social media dashboard: loading and key insights

A model of the data core of a Streamlit dashboard. The dashboard shows monthly
metrics (followers, views, posts, interactions, comments) of three social
networks, Facebook, Instagram and LinkedIn. Each network is read from its own
sheet of an Excel workbook.

Two operations are modelled:

- **Loading** (`load_data`). The loader visits the networks in a fixed order
  and reads each one's sheet ("FB Page", "Instagram", "LinkedIn"). For each
  sheet it builds a Date column by parsing `str(Year) + "-" + Month` with the
  format `"%Y-%B"`, then sorts the rows by that date. The whole load fails at
  the first sheet that is absent, lacks a Year or Month column, or has a row
  whose date does not convert. Within a sheet, the error names the first such
  row.
- **Key insights** (`show_key_insights`). This keeps the rows whose Month is
  exactly "October" or "November" and gives up unless both months occur. Then,
  for each metric column the table has, it reports the October and November
  totals, their difference, and the percentage change. There is no percentage
  when the October total is zero.

Files, one module each:

- `wrappers.dfy`: `Option` and `Result`.
- `seqfacts.dfy`: multiset facts shared by the permutation proofs.
- `sheets.dfy`: rows, tables and the value a metric cell contributes to a sum.
- `calendar.dfy`: the `"%Y-%B"` parse and chronological order.
- `loader.dfy`: the date column, the sort, reading one sheet, and the
  `LoadData` loop.
- `insights.dfy`: the month filter, the two-month guard, the totals, the
  percentage, and the `ShowKeyInsights` loop.

Loading and the insights view are written as methods with loops. Everything
they compute on the way is written as functions with lemmas.

## Model

| member | source | states |
|---|---|---|
| Calendar.FindMonthFinds | socialmedia.app.py:39-42 | The `%B` name search returns a 1-based position whose month name matches the text ignoring case. It returns none exactly when no name from that position on matches. |
| Calendar.MonthNumberMeaning | socialmedia.app.py:39-42 | A Month text maps to a number from 1 to 12 whose name it matches ignoring case. It maps to nothing exactly when it matches none of the twelve names. |
| Calendar.MonthNamesDistinct | socialmedia.app.py:39-42 | No two of the twelve month names are equal, even ignoring case, so a Month text names at most one month. |
| Calendar.MonthNumberOfName | socialmedia.app.py:39-42 | A text that is the i-th month name, in any letter case, is month i+1. |
| Calendar.ParseDateMeaning | socialmedia.app.py:39-42 | `"%Y-%B"` accepts Year and Month exactly when the year has four digits and the Month text is one of the twelve names, ignoring case. The result is the first day of that month of that year. |
| Calendar.ParsedDatesOrder | socialmedia.app.py:39-44 | Two parsed dates are in order exactly when their (year, month number) pairs are. Sorting by Date is therefore chronological, not alphabetical by month name. |
| Loader.DateFailure | socialmedia.app.py:39-42 | The conversion fails exactly when some row's Year and Month do not parse. The error names the first such row, and every row before it parses. |
| Loader.DateColumn | socialmedia.app.py:39-42 | When every row parses, the Date column keeps the rows unchanged and in order. Each row's Date is the parse of its own Year and Month. |
| Loader.UndatedPermutation | socialmedia.app.py:44 | Reordering dated rows reorders the underlying sheet rows the same way. |
| Loader.Insert | socialmedia.app.py:44 | Inserting a row into date-ordered rows keeps them in date order and adds exactly that row. |
| Loader.SortByDate | socialmedia.app.py:44 | The sorted rows are in date order and are a permutation of the input. Ties may come out in any order. |
| Loader.SheetProblem | socialmedia.app.py:39-42 | A missing Year column is reported first, then a missing Month column, then the first row that does not convert. There is no error exactly when both columns exist and every row converts. |
| Loader.SheetError | socialmedia.app.py:36-42 | A sheet has no error exactly when it exists, has Year and Month, and all its dates convert. An absent sheet is reported as missing; a present sheet reports its own column or date problem. |
| Loader.ReadSheet | socialmedia.app.py:36-44 | Reading a sheet fails exactly when the sheet has an error, and then reports that error. Otherwise the result has the sheet's columns plus Date, its rows as a permutation, each row correctly dated, and the rows in date order. |
| Loader.LoadData | socialmedia.app.py:25-47 | The load succeeds exactly when all three sheets can be read. It then maps each of the three networks to a correct load of its own sheet, and holds no other keys. On failure it reports the error of the first failing sheet in visiting order. |
| KeyInsights.RowsInCount | socialmedia.app.py:118 | Selecting by Month keeps each row of the chosen months exactly as often as it occurs, and no other row. |
| KeyInsights.EnoughMonths | socialmedia.app.py:118-122 | The October and November rows hold at least two distinct Month values exactly when both October and November occur in the table. |
| KeyInsights.HasMonthPermutation | socialmedia.app.py:118-120 | Whether a month occurs does not depend on row order. |
| KeyInsights.SelectedTotal | socialmedia.app.py:131-132 | Filtering to October and November, then to one of the two, then summing a metric, gives the reference total: the sum of the metric over that month's rows. Empty cells count zero. |
| KeyInsights.MonthTotalAbsent | socialmedia.app.py:131-132 | A month that does not occur totals zero. |
| KeyInsights.MonthTotalAppend | socialmedia.app.py:131-132 | A month's total over two runs of rows is the sum of their totals. |
| KeyInsights.MonthTotalPoolsYears | socialmedia.app.py:131-132 | Rows of every year are pooled: two runs of rows that differ only in their Year cells have the same month total. |
| KeyInsights.MonthTotalPermutation | socialmedia.app.py:131-132 | A month's total does not depend on row order. |
| KeyInsights.PctChange | socialmedia.app.py:134-135 | There is no percentage exactly when the October total is zero. Otherwise the percentage times October equals 100 times the difference, and the percentage has the difference's sign. |
| KeyInsights.Present | socialmedia.app.py:129-130 | A metric is listed exactly when it is one of the compared metrics and a column of the table. |
| KeyInsights.PresentInOrder | socialmedia.app.py:125-130 | Of any two listed candidates, the earlier one comes before the later one among the candidates. When the candidates are distinct, no candidate is listed twice. |
| KeyInsights.PresentMetricsInOrder | socialmedia.app.py:125-130 | The report's metrics are distinct and follow the fixed order Followers, Views, Posts, Interactions, Comments. |
| KeyInsights.PresentIgnores | socialmedia.app.py:130 | A column that is not a compared metric, such as Date, does not change which metrics are listed. |
| KeyInsights.ShowKeyInsights | socialmedia.app.py:114-143 | With no Month column there is no report. The notice appears exactly when October or November is missing. Otherwise the report has one line per present metric, in comparison order. Each line holds that metric's October and November totals, November minus October, and the percentage change. |
| KeyInsights.LoadingKeepsInsights | socialmedia.app.py:39-45 | Loading a sheet does not change what the comparison reports on it. The same months occur, every month's total is unchanged, and the same metrics are listed. |

## Left out

- Streamlit rendering is not modelled: page setup, titles, tabs, multiselect, charts, the info notice text and the insight table's display formatting (lines 9-20, 49-112, 115, 121, 145-154).
- Reading the Excel file is not modelled. A workbook is a map from sheet name to table: column names plus rows. The module-level read of the default file (line 4), the upload or default-file choice (lines 54-71) and `@st.cache_data` are left out.
- The chart's column projection in `show_network_tab` (line 92) is not part of this model.
- Network labels are a three-valued enumeration rather than the strings "Facebook", "Instagram" and "LinkedIn". Only the sheet names are text.
- Metric cells are non-negative whole numbers, and an empty cell adds nothing to a sum. Fractional, negative or text cells are not modelled, and neither is 64-bit integer overflow of the sums.
- A Year cell is a whole number and prints as its decimal digits. A Year column holding floats (which would print as "2024.0") or missing values is not modelled.
- Month matching in `"%B"` folds ASCII letter case only. Locales other than English and non-ASCII case rules are not modelled.
- The date range of pandas timestamps (years 1677 to 2262) is not modelled. Every four-digit year parses.
- PctChange: the percentage is an exact rational, not a 64-bit float, so rounding is not modelled.
- SortByDate: pandas' default sort is not stable. The model promises only date order and the same rows, and the insertion sort is one permitted order.
- ShowKeyInsights: the source raises an error when the table has no Month column. The model reports this as a distinct outcome (`MissingMonthColumn`) instead of an exception.
- `show_key_insights` is defined but never called in the source file. The model describes it as written, for any table.
