# Piggy-bank ledger, modelled in Dafny

`app.js` is a small in-browser ledger ("小猪存钱罐"). It keeps a list of
income and expense records in a top-level `transactions` array, loads it
from browser storage at start-up, appends to it from a form, deletes from
it by id, clears it, and writes it back after every change. From the list it
computes the income, expense and balance totals, a date-sorted and
type-filtered list view, and a breakdown of the current month's expenses by
category. Amounts are shown by `formatCurrency`, and categories are looked
up in a fixed table by `getCategory`.

This project models that core:

- `records.dfy` (`Records`): the record, its type, its date and the date order.
- `store.dfy` (`Store`): the ledger as a class whose `transactions` field
  the operations reassign, with a ghost copy of what storage holds.
- `submission.dfy` (`Submission`): the form's validation and the record it builds.
- `balances.dfy` (`Balances`): the three totals.
- `views.dfy` (`Views`): the list view.
- `monthly.dfy` (`Monthly`): the monthly breakdown, and the month filter as
  written (see Findings).
- `categories.dfy` (`Categories`): the category table and its lookup.
- `currency.dfy` (`Currency`): `toFixed(2)`, the thousands-separator regular
  expression, and a reader that takes a formatted amount back to cents.
- `sorting.dfy` (`Sorting`): `Array.prototype.sort` with a descending key
  comparator. It is specified as a stable insertion sort on sequences and
  implemented in place on an array. The list view and the breakdown both use it.
- `seqs.dfy` (`Seqs`): `filter` and `reduce` as left folds.
- `wrappers.dfy` (`Wrappers`): `Option` and `Result`.

Amounts are whole cents (`int`). Percentages are `real`. A date is a
calendar date `(year, month, day)`; `DayKey` numbers dates in order and
stands for the millisecond value that `new Date(s)` subtracts. Record ids,
creation timestamps, the user's answer to `confirm`, whether a storage
write throws, the current filter and the reference year and month are all
inputs.

## Model

| member | source | states |
|---|---|---|
| Records.DayKeyOrder | app.js:118 | comparing the numeric date keys is comparing calendar dates (earlier iff smaller, equal iff same date) |
| Records.FilterAllPositive | app.js:79-85 | filtering a ledger whose amounts are all positive leaves only positive amounts |
| Store.Loaded | app.js:12-19 | `initData` yields the stored list, or the empty list when nothing is stored or parsing fails |
| Store.Ledger.Load | app.js:12-19 | after loading, the ledger holds `Loaded(stored)` and storage is as it was |
| Store.Ledger.Save | app.js:293-300 | the ledger is unchanged; storage holds the ledger unless the write fails, in which case storage keeps its old value |
| Store.Ledger.Submit | app.js:241-289 | the result is `BuildRecord` of the draft; on a refusal nothing changes; on success exactly that record is appended at the end and written through |
| Store.Ledger.Delete | app.js:303-318 | an empty id or a declined confirmation changes nothing; otherwise the ledger becomes the records whose id differs, and is written through even if nothing was removed |
| Store.Ledger.ClearAll | app.js:444-457 | when confirmed, the ledger and (unless the write fails) storage become empty; otherwise nothing changes |
| Store.Ledger.Export | app.js:460-464 | export is refused exactly when the ledger is empty, and otherwise carries the whole ledger |
| Store.RemoveId | app.js:308 | after a delete no record has the id, and the ledger did not grow |
| Store.RemoveIdMembers | app.js:308 | a record survives a delete iff it was in the ledger and its id differs |
| Store.RemoveIdAbsent | app.js:308 | deleting an id no record has leaves the ledger unchanged |
| Store.RemoveIdAppend | app.js:308 | deleting preserves order: the survivors of `a + b` are the survivors of `a` followed by those of `b` |
| Store.RemoveIdOne | app.js:308 | with unique ids, deleting a present id removes exactly one record |
| Store.RemoveIdKeepsInvariants | app.js:308 | deleting keeps all amounts positive and all ids unique |
| Store.FilterKeepsUniqueIds | app.js:308 | any filter of a ledger with unique ids has unique ids |
| Store.SubmitKeepsInvariants | app.js:266-276 | appending a built record keeps amounts positive, and keeps ids unique when the new id is fresh |
| Submission.LeadingEnd | app.js:246 | the run of characters `trim` removes from the front: all of them trimmable, and the character after it is not |
| Submission.TrailingStart | app.js:246 | the run of characters `trim` removes from the back: all of them trimmable, and the character before it is not |
| Submission.Trim | app.js:246 | the result is a contiguous piece of the input with only trimmable characters cut on either side, and it neither starts nor ends with one |
| Submission.Truncate | app.js:271 | `substring(0, n)` is a prefix of length `min(n, length)` |
| Submission.BuildRecord | app.js:250-276 | refused for a bad amount, else for a missing category, else for a missing date (each iff its condition and the earlier checks passing); otherwise the record carries the given id, type, positive amount, category, date and timestamp, and a note that is the trimmed note cut to its first 50 characters (all of it when it fits) |
| Balances.KindTotal | app.js:79-85 | the total of one type is non-negative when every amount is positive |
| Balances.ComputeTotals | app.js:79-87 | the balance is income minus expense, and all three are 0 for an empty ledger |
| Balances.TotalsSnoc | app.js:79-87 | one more record raises exactly the total of its own type, by its amount |
| Balances.TotalsPartition | app.js:79-87 | income plus expense is the sum of all amounts, and the balance is the sum of amounts signed by type |
| Balances.TotalsNonNegative | app.js:79-87 | with positive amounts both totals are non-negative, and each is positive iff a record of its type exists |
| Balances.KindTotalPositive | app.js:79-85 | with positive amounts a type's total is non-negative, and positive iff a record of that type exists |
| Views.ListView | app.js:115-123 | the view never lists more records than the ledger holds, and with `'all'` lists as many |
| Views.RenderList | app.js:115-123 | copying, sorting in place and filtering gives `ListView` |
| Views.ListViewSortsSelection | app.js:115-123 | filtering after the sort equals sorting the filtered ledger |
| Views.ListViewContents | app.js:115-123 | the view is a permutation of the selected records: of the whole ledger for `'all'`, otherwise of the records of that type, all of which have that type |
| Views.ListViewMembership | app.js:115-123 | a record is in the view iff it is in the ledger and passes the filter |
| Views.ListViewOrdered | app.js:118 | no record is listed before a record with a later date |
| Views.ListViewStable | app.js:118 | records with the same date keep their ledger order |
| Sorting.InsertDesc | app.js:118 | inserting adds exactly one element |
| Sorting.SortDesc | app.js:118 | sorting keeps the length |
| Sorting.InsertDescPermutes | app.js:118 | inserting adds exactly the one element to the multiset |
| Sorting.SortDescPermutes | app.js:118 | the sort is a permutation |
| Sorting.InsertDescSorted | app.js:118 | inserting into a sorted sequence keeps it sorted |
| Sorting.SortDescSorted | app.js:118 | the sort yields non-increasing keys |
| Sorting.InsertDescAt | app.js:118 | insertion places the element after every element with a key at least its own |
| Sorting.FirstIsLargest | app.js:422 | the first element of a sorted sequence has the largest key |
| Sorting.InsertDescFilterOut | app.js:118 | inserting an element a filter rejects does not change the filtered sequence |
| Sorting.InsertDescFilterIn | app.js:118 | inserting an element a filter accepts inserts it into the filtered sequence |
| Sorting.SortDescFilter | app.js:118-123 | filtering the sorted sequence equals sorting the filtered one |
| Sorting.SortDescConstantKey | app.js:118 | a sequence whose keys are all equal is left as it is |
| Sorting.SortDescStable | app.js:118 | elements with equal keys keep their relative order |
| Sorting.SortDescSum | app.js:419-420 | sorting does not change a sum over the elements |
| Sorting.InsertInPlace | app.js:118 | shifting the larger-keyed prefix and placing the element turns the array prefix into `InsertDesc` of it, the rest unchanged |
| Sorting.SortDescInPlace | app.js:118 | the in-place sort leaves the array holding `SortDesc` of its old contents |
| Monthly.TallyByCategory | app.js:398-404 | the `forEach` with the falsy reset, then `Object.entries`, yields every category total in first-appearance order (`Buckets`) |
| Monthly.MonthlyStats | app.js:384-441 | filter, total, tally, in-place sort and shares give `ReportOf` |
| Monthly.ResetFalsy | app.js:400-402 | after the reset the key is present |
| Monthly.ResetThenAdd | app.js:400-403 | resetting a falsy entry and then adding is adding to the running sum, or to 0 for a new key |
| Monthly.TalliedStep | app.js:399-404 | one step of the `forEach` keeps the map equal to the category totals of the records seen, keyed in first-appearance order |
| Monthly.AddedTotals | app.js:403 | adding a record's amount keeps every entry equal to its category's total |
| Monthly.FirstAppearancesMembers | app.js:398-404 | a category is a key iff some record of the month has it |
| Monthly.FirstAppearancesDistinct | app.js:398-404 | each category is a key once |
| Monthly.BucketsForShape | app.js:419 | entry `i` is category `i` with that category's total |
| Monthly.CategoryTotalSnoc | app.js:403 | one more record raises only its own category's total, by its amount |
| Monthly.CategoryTotalAbsent | app.js:400-401 | a category without records totals 0 |
| Monthly.CategoryTotalPositive | app.js:403 | with positive amounts a category with a record has a positive total |
| Monthly.BucketsForTotal | app.js:394-404 | over distinct categories covering every record, the category totals add up to the sum of amounts |
| Monthly.BucketsSum | app.js:394-404 | the per-category sums add up to the monthly expense |
| Monthly.SharesOfShape | app.js:424-427 | bar `i` shows entry `i`'s category and amount and its percentage of the largest |
| Monthly.SharesCaptions | app.js:424-425 | bar `i` is captioned with the expense table's name and icon for entry `i`'s category |
| Monthly.SharesOfSum | app.js:424 | the bars carry the same amounts as the entries |
| Monthly.Percentage | app.js:426 | for a non-zero largest amount the percentage times the largest equals the amount times 100; 0 when the largest is 0 |
| Monthly.ReportOf | app.js:384-441 | the report's total is the sum of the month's expense amounts, and a non-empty breakdown has exactly one bar per category that occurs in the month |
| Monthly.PercentageBounds | app.js:426 | for `0 < amount <= max` the percentage lies in (0, 100], and is 100 for the maximum |
| Monthly.ReportNoData | app.js:409-417 | the empty state appears iff no record is an expense of the reference month, so no division happens then |
| Monthly.ReportSharesSum | app.js:394-426 | the bars add up to the monthly expense |
| Monthly.SortedBucketsAreTotals | app.js:398-420 | every sorted entry is a category present in the month, carrying that category's total |
| Monthly.SortedBucketsCover | app.js:398-420 | every category present in the month has a sorted entry |
| Monthly.ReportCategories | app.js:398-426 | there is one bar per category with an expense in the month, showing that category's total |
| Monthly.ReportOrdered | app.js:419-420 | bars are in non-increasing order of amount |
| Monthly.ReportTiesKeepFirstAppearance | app.js:419-420 | categories with equal sums keep their first-appearance order |
| Monthly.ReportPercentages | app.js:422-426 | with positive amounts the first bar is exactly 100 and every bar lies in (0, 100] |
| Monthly.DaysInMonth | app.js:390 | a month has 28 to 31 days |
| Monthly.PreviousDay | app.js:390 | the previous day comes earlier |
| Monthly.FirstOfMonthMisplaced | app.js:389-392 | in UTC-5 an expense dated 1 March 2024 is counted in February 2024, not March |
| Monthly.InMonthExpense | app.js:389-392 | the month filter, read on the record's own calendar date: it passes only expenses, and an expense exactly when it is dated in the reference year and month |
| Monthly.InMonthExpenseAsWritten | app.js:389-392 | the month filter as app.js evaluates it in a zone `offsetMinutes` ahead of UTC: it passes only expenses, and east of UTC (or at UTC) it agrees with `InMonthExpense` |
| Monthly.CountedInItsOwnMonth | app.js:384-426 | with the corrected filter an expense of the ledger is among the records of the month of its own date and of no other month, and that month's report has a bar for its category showing the category's total |
| Monthly.AsWrittenAgreesOffTheFirst | app.js:389-392 | the month filter as written agrees with the calendar-date filter except west of UTC on the 1st of a month |
| Categories.GetCategory | app.js:165-168 | the lookup yields the placeholder, or the name and icon of an entry of the type's list that has the id |
| Categories.Find | app.js:167 | `find` yields nothing iff no entry has the id, and otherwise an entry with that id |
| Categories.TablesHaveDistinctIds | app.js:22-44 | within each type's list no two entries share an id |
| Categories.GetCategoryFinds | app.js:165-168 | looking up an entry of a type's list by its id yields that entry's name and icon |
| Categories.GetCategoryFallback | app.js:165-168 | an unknown type or an absent id yields the placeholder `未知`/`❓` |
| Categories.OtherIsKnown | app.js:22-44 | both types have an `other` entry, so it never falls back |
| Currency.DigitChar | app.js:102 | a digit value becomes a digit character |
| Currency.Digits | app.js:102 | the numeral is non-empty, all digits, without leading zeros |
| Currency.DigitsValue | app.js:102 | reading the numeral of `n` gives `n` back |
| Currency.Decimals | app.js:102 | `toFixed(2)` has exactly two decimals |
| Currency.DecimalsValue | app.js:102 | the two decimals read back as the cents part |
| Currency.DigitRun | app.js:102 | the run of digits from a position stays inside the string |
| Currency.GroupFromShort | app.js:102 | three digits or fewer get no comma |
| Currency.GroupFromLastThree | app.js:102 | the last group of three is preceded by a comma |
| Currency.GroupFromAppend | app.js:102 | three more digits add one comma and the group |
| Currency.GroupFromIsGroup | app.js:102 | putting commas by position equals grouping by threes from the right |
| Currency.DigitRunInFixed | app.js:102 | inside the integer part the digit run reaches exactly to the decimal point |
| Currency.FractionUnchanged | app.js:102 | the pattern never matches in the fraction or at the point |
| Currency.SeparatorInInteger | app.js:102 | at a digit of the integer part the pattern matches exactly when a multiple of three digits follows and it is not the first digit |
| Currency.SeparateIntegerPart | app.js:102 | inside the integer part the pattern matches exactly where grouping puts a comma, never right after the minus sign |
| Currency.ToFixed2 | app.js:102 | `toFixed(2)` ends in a point and two digits and starts with a minus sign exactly for a negative amount |
| Currency.Separate | app.js:102 | the replacement never shortens the string |
| Currency.SeparateOnlyAddsCommas | app.js:102 | the replacement only inserts commas: without its commas the result is the input without its commas |
| Currency.FormatCurrency | app.js:98-103 | the result starts with `¥`, and a value that is not a number (or is `NaN`) gives `¥0.00` |
| Currency.SeparateFixed | app.js:102 | the replacement on a `toFixed(2)` string groups its integer part and leaves sign and fraction alone |
| Currency.FixedGrouped | app.js:102 | the replacement applied to the whole `toFixed(2)` string yields sign, grouped integer part, point and decimals |
| Currency.FormatCurrencyGroups | app.js:98-103 | `formatCurrency` of a number is `¥`, the minus sign if negative, the grouped integer part, a point and the two decimals |
| Currency.GroupKeepsDigits | app.js:102 | removing the commas gives the digits back |
| Currency.GroupCommaPlaces | app.js:102 | a comma sits exactly at every fourth place from the right, never first |
| Currency.CommaPlacesStep | app.js:102 | one more comma and group of three keeps a comma at every fourth place from the right and nowhere else |
| Currency.ParseParts | app.js:98-103 | how a string of the formatted shape is read back |
| Currency.GroupStartsWithDigit | app.js:102 | the grouped numeral starts with a digit |
| Currency.ReadGroupedParts | app.js:102 | the grouped integer part, commas removed, and the two decimals read back as the amount |
| Currency.ParseFormatCurrency | app.js:98-103 | reading a formatted amount gives back its cents: formatting loses nothing |
| Seqs.SumOf | app.js:81 | `reduce` from 0 gives 0 on an empty list and the one term on a list of one |
| Seqs.Filter | app.js:79-81 | `filter` never lengthens |
| Seqs.FilterMembers | app.js:79-81 | the filtered elements are elements that pass, and every element that passes is kept |
| Seqs.FilterSatisfies | app.js:79-81 | every kept element passes |
| Seqs.FilterAppend | app.js:79-81 | filtering distributes over concatenation |
| Seqs.SumOfAppend | app.js:81 | `reduce` summing distributes over concatenation |
| Seqs.FilterKeepsAll | app.js:79-81 | when every element passes, filtering changes nothing |
| Seqs.FilterAgree | app.js:79-81 | filters that agree on every element give the same result |
| Seqs.SumOfPositive | app.js:81 | a sum of positive terms is non-negative, and positive when there is a term |

## Left out

- The DOM: the HTML templates, `escapeHtml`, the modal, `renderCategories`, `selectCategory`, `toggleFilter`, the button state of `filterTransactions`, `switchTab` and `updateNoteCount`. They only present data.
- Browser storage and JSON. Storage is the ghost field `persisted`. A failed write is the input `writeFails`. A stored value that parses to something other than a list (`"null"`, a number) is not modelled; such a value is taken to load as an empty ledger or not to occur.
- `confirm`: the user's answer is the input `confirmed`.
- `showToast`, its timers, and the `try`/`catch` blocks around DOM updates. These are user interface timing.
- The `Blob` and download part of `exportData`. Only its empty-ledger guard is modelled.
- `updateDate` and `formatDate`. They read the clock and format for the locale.
- Id generation from `Date.now()` and `Math.random()`, and the `createdAt` timestamp. Both are inputs.
- Floating point. Amounts are exact cents, so `parseFloat` precision, rounding in `toFixed`, `NaN` and `Infinity` sums, and exponent notation at 1e21 and above are not modelled. A non-number or `NaN` amount is `None`.
- Submission.BuildRecord: the amount is `parseFloat` of the input already converted to cents; partial parses such as `"12abc"` and rounding to cents are not modelled.
- Monthly.Percentage: a zero `maxAmount` gives 0 here, where app.js computes `NaN` for a zero entry and `-Infinity` for a negative one. This needs a non-positive stored amount, which the form never produces.
- Monthly.TallyByCategory: `Object.entries` lists integer-like keys first, in numeric order, and keys inherited from `Object.prototype` (`constructor`, `toString`) are truthy before any record adds to them. The model uses plain insertion order and a plain map. The category table has no such ids.
- Categories.GetCategory: a type name such as `"toString"` picks a non-list inherited from `Object.prototype` in app.js and would throw. Here any name other than `income` and `expense` yields the empty list.
- The reference month. app.js reads it from the clock; here the year and month are parameters. `Monthly.InMonthExpense` compares calendar fields; the time-zone dependent reading app.js actually performs is modelled separately (see Findings).
- Calendar validity of dates (for example 31 February) is not checked; days range over 1..31.
- Strings are sequences of characters, not UTF-16 code units, so `substring(0, 50)` on text outside the Basic Multilingual Plane is not modelled exactly.
- Sorting.SortDescInPlace: the engine's sorting algorithm is replaced by a stable insertion sort with the same result. Stability is guaranteed by the language since ES2019.

## Findings

| source | as written | input that shows it | evidently intended | confidence | as-written member | corrected member |
|---|---|---|---|---|---|---|
| app.js:389-392 | `new Date(t.date)` parses a `YYYY-MM-DD` string as midnight UTC, but `getMonth()` and `getFullYear()` read the local calendar | an expense dated `2024-03-01` viewed in UTC-5: app.js counts it in February 2024 and leaves it out of March | the month of the record's own date | high, not executed | Monthly.FirstOfMonthMisplaced | Monthly.CountedInItsOwnMonth |
