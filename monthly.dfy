/** The aggregation half of `updateMonthlyStats` (app.js:384-441): the
    expense records of the reference month, their total, their per-category
    sums in the order categories first appear, those sums sorted largest
    first, and each sum as a percentage of the largest. */
module Monthly {
  import opened Seqs
  import opened Records
  import opened Sorting
  import opened Categories

  /** The `filter` at app.js:389-392: expense records dated in the
      reference month of the reference year. */
  function InMonthExpense(year: int, month: Month): (p: Transaction -> bool)
    ensures forall t: Transaction :: p(t) ==> t.kind == Expense
    ensures forall t: Transaction :: t.kind == Expense ==> (p(t) <==> t.date.year == year && t.date.month == month)
  {
    (t: Transaction) => t.date.month == month && t.date.year == year && t.kind == Expense
  }

  function MonthExpenses(s: seq<Transaction>, year: int, month: Month): seq<Transaction>
  {
    Filter(s, InMonthExpense(year, month))
  }

  // ---------------------------------------------------------------------
  // The month as app.js actually reads it. `new Date('YYYY-MM-DD')` is
  // midnight UTC, while `getMonth()` and `getFullYear()` read the local
  // calendar. West of UTC that instant still falls on the previous local
  // day, so a record dated the 1st counts in the month before.

  predicate IsLeapYear(year: int)
  {
    (year % 4 == 0 && year % 100 != 0) || year % 400 == 0
  }

  function DaysInMonth(year: int, month: Month): (n: Day)
    ensures 28 <= n <= 31
  {
    if month == 2 then (if IsLeapYear(year) then 29 else 28)
    else if month == 4 || month == 6 || month == 9 || month == 11 then 30
    else 31
  }

  /** The calendar day before `d`. */
  function PreviousDay(d: Date): (r: Date)
    ensures DayKey(r) < DayKey(d)
  {
    if d.day > 1 then Date(d.year, d.month, d.day - 1)
    else if d.month > 1 then Date(d.year, d.month - 1, DaysInMonth(d.year, d.month - 1))
    else Date(d.year - 1, 12, 31)
  }

  /** The local calendar date of midnight UTC on `d`, for a zone whose
      local time is `offsetMinutes` ahead of UTC (less than a day). */
  function LocalDate(d: Date, offsetMinutes: int): Date
    requires -1440 < offsetMinutes < 1440
  {
    if offsetMinutes < 0 then PreviousDay(d) else d
  }

  /** The `filter` at app.js:389-392 as written, in a zone `offsetMinutes`
      ahead of UTC. */
  function InMonthExpenseAsWritten(year: int, month: Month, offsetMinutes: int): (p: Transaction -> bool)
    requires -1440 < offsetMinutes < 1440
    ensures forall t: Transaction :: p(t) ==> t.kind == Expense
    ensures offsetMinutes >= 0 ==> forall t :: p(t) == InMonthExpense(year, month)(t)
  {
    (t: Transaction) =>
      LocalDate(t.date, offsetMinutes).month == month
      && LocalDate(t.date, offsetMinutes).year == year
      && t.kind == Expense
  }

  /** In New York (UTC-5) an expense dated 1 March 2024 is left out of
      March 2024 and counted in February. */
  lemma FirstOfMonthMisplaced()
    ensures var t := Transaction("a", Expense, 100, "food", "", Date(2024, 3, 1), "");
      InMonthExpense(2024, 3)(t)
      && !InMonthExpenseAsWritten(2024, 3, -300)(t)
      && InMonthExpenseAsWritten(2024, 2, -300)(t)
  {
    var t := Transaction("a", Expense, 100, "food", "", Date(2024, 3, 1), "");
    assert LocalDate(t.date, -300) == Date(2024, 2, 29);
  }

  /** What the month filter is for: an expense of the ledger is among the
      records of the month of its own date and of no other month, and in
      that month's report its category has a bar showing the category's
      total. */
  lemma CountedInItsOwnMonth(s: seq<Transaction>, t: Transaction, year: int, month: Month)
    requires t in s && t.kind == Expense
    ensures t in MonthExpenses(s, year, month) <==> year == t.date.year && month == t.date.month
    ensures year == t.date.year && month == t.date.month ==>
      var r := ReportOf(s, year, month);
      r.breakdown.Bars?
      && exists i :: 0 <= i < |r.breakdown.shares|
           && r.breakdown.shares[i].category == t.category
           && r.breakdown.shares[i].amount == CategoryTotal(MonthExpenses(s, year, month), t.category)
  {
    var ms := MonthExpenses(s, year, month);
    FilterMembers(s, InMonthExpense(year, month));
    assert t in ms <==> t in multiset(ms);
    var k :| 0 <= k < |s| && s[k] == t;
    if year == t.date.year && month == t.date.month {
      assert InMonthExpense(year, month)(s[k]);
      ReportNoData(s, year, month);
      ReportCategories(s, year, month);
      var j :| 0 <= j < |ms| && ms[j] == t;
      assert HasCategory(ms, t.category);
    }
  }

  /** The two readings differ only west of UTC and only on the 1st of a
      month. */
  lemma AsWrittenAgreesOffTheFirst(year: int, month: Month, offsetMinutes: int, t: Transaction)
    requires -1440 < offsetMinutes < 1440
    requires offsetMinutes >= 0 || t.date.day != 1
    ensures InMonthExpenseAsWritten(year, month, offsetMinutes)(t) == InMonthExpense(year, month)(t)
  {
  }

  function CategoryIs(c: string): Transaction -> bool
  {
    (t: Transaction) => t.category == c
  }

  /** Sum of the amounts of the records of category `c`. */
  function CategoryTotal(ms: seq<Transaction>, c: string): int
  {
    SumOf(Filter(ms, CategoryIs(c)), AmountOf)
  }

  predicate HasCategory(ms: seq<Transaction>, c: string)
  {
    exists i :: 0 <= i < |ms| && ms[i].category == c
  }

  ghost predicate Distinct(d: seq<string>)
  {
    forall i, j :: 0 <= i < j < |d| ==> d[i] != d[j]
  }

  /** The categories of `ms`, each once, in the order in which each first
      occurs: the insertion order of the keys of `categoryStats`. */
  function FirstAppearances(ms: seq<Transaction>): seq<string>
  {
    if ms == [] then []
    else
      var d := FirstAppearances(ms[..|ms| - 1]);
      var c := ms[|ms| - 1].category;
      if c in d then d else d + [c]
  }

  /** One `[catId, amount]` pair of `Object.entries(categoryStats)`. */
  datatype Bucket = Bucket(category: string, amount: int)

  function BucketAmount(b: Bucket): int { b.amount }

  /** The total of each category of `d`, in the order of `d`. */
  function BucketsFor(d: seq<string>, ms: seq<Transaction>): seq<Bucket>
  {
    if d == [] then []
    else BucketsFor(d[..|d| - 1], ms) + [Bucket(d[|d| - 1], CategoryTotal(ms, d[|d| - 1]))]
  }

  /** `Object.entries(categoryStats)` after the `forEach` at app.js:398-403. */
  function Buckets(ms: seq<Transaction>): seq<Bucket>
  {
    BucketsFor(FirstAppearances(ms), ms)
  }

  /** The entries after `.sort((a, b) => b[1] - a[1])` (app.js:419-420). */
  function SortedBuckets(ms: seq<Transaction>): seq<Bucket>
  {
    SortDesc(Buckets(ms), BucketAmount)
  }

  /** `(amount / maxAmount) * 100`; a zero `maxAmount` gives 0 here. */
  function Percentage(amount: int, max: int): (p: real)
    ensures max != 0 ==> p * max as real == amount as real * 100.0
    ensures max == 0 ==> p == 0.0
  {
    if max == 0 then 0.0 else (amount as real / max as real) * 100.0
  }

  /** One bar of the breakdown: what the template at app.js:426-440 shows. */
  datatype Share = Share(category: string, amount: int, percentage: real)

  function ShareAmount(sh: Share): int { sh.amount }

  /** The bar of one entry: its amount as a percentage of `max`. */
  function ShareOf(b: Bucket, max: int): Share
  {
    Share(b.category, b.amount, Percentage(b.amount, max))
  }

  /** The name and icon a bar shows: `getCategory('expense', catId)`. */
  function Caption(sh: Share): Label
  {
    GetCategory("expense", sh.category)
  }

  /** The `map` over the sorted entries, each against `max`. */
  function SharesOf(bs: seq<Bucket>, max: int): seq<Share>
  {
    if bs == [] then []
    else
      var b := bs[|bs| - 1];
      SharesOf(bs[..|bs| - 1], max) + [ShareOf(b, max)]
  }

  /** The empty state ("暂无数据") or the bars. */
  datatype Breakdown = NoData | Bars(shares: seq<Share>)

  /** `monthlyExpense` and the breakdown under it. */
  datatype Report = Report(total: int, breakdown: Breakdown)

  function ReportOf(s: seq<Transaction>, year: int, month: Month): (r: Report)
    ensures r.total == SumOf(MonthExpenses(s, year, month), AmountOf)
    ensures r.breakdown.Bars? ==>
      0 < |r.breakdown.shares| == |FirstAppearances(MonthExpenses(s, year, month))|
  {
    var ms := MonthExpenses(s, year, month);
    var total := SumOf(ms, AmountOf);
    var buckets := Buckets(ms);
    if buckets == [] then Report(total, NoData)
    else
      var sorted := SortDesc(buckets, BucketAmount);
      BucketsForShape(FirstAppearances(ms), ms);
      SharesOfShape(sorted, sorted[0].amount);
      Report(total, Bars(SharesOf(sorted, sorted[0].amount)))
  }

  // ---------------------------------------------------------------------
  // The computation as app.js performs it.

  /** The `forEach` that fills `categoryStats`, followed by
      `Object.entries`. A key whose value is falsy is (re)set to 0 before
      the amount is added, as `if (!categoryStats[t.category])` does. */
  method TallyByCategory(ms: seq<Transaction>) returns (entries: seq<Bucket>)
    ensures entries == Buckets(ms)
  {
    var stats: map<string, int> := map[];
    var keys: seq<string> := [];
    var i := 0;
    while i < |ms|
      invariant 0 <= i <= |ms|
      invariant Tallied(ms[..i], stats, keys)
    {
      var t := ms[i];
      ghost var before := stats;
      ghost var keysBefore := keys;
      if t.category !in stats {
        keys := keys + [t.category];
      }
      stats := ResetFalsy(stats, t.category);
      stats := stats[t.category := stats[t.category] + t.amount];
      TalliedStep(ms[..i], t, before, keysBefore);
      PrefixSnoc(ms, i);
      i := i + 1;
    }
    assert ms[..i] == ms;
    entries := seq(|keys|, j requires 0 <= j < |keys| => Bucket(keys[j], stats[keys[j]]));
    BucketsForShape(keys, ms);
  }

  /** `updateMonthlyStats` without the DOM: filter, total, tally, sort the
      entries in place, then one share per entry against the first. */
  method MonthlyStats(s: seq<Transaction>, year: int, month: Month) returns (r: Report)
    ensures r == ReportOf(s, year, month)
  {
    var ms := Filter(s, InMonthExpense(year, month));
    var total := SumOf(ms, AmountOf);
    var entries := TallyByCategory(ms);
    if |entries| == 0 {
      return Report(total, NoData);
    }
    var sorted := new Bucket[|entries|](j requires 0 <= j < |entries| => entries[j]);
    assert sorted[..] == entries;
    SortDescInPlace(sorted, BucketAmount);
    var maxAmount := sorted[0].amount;
    r := Report(total, Bars(SharesOf(sorted[..], maxAmount)));
  }

  // ---------------------------------------------------------------------
  // Facts about the categories and their totals.

  /** `categoryStats` after one more record: its category's sum, or 0 when
      it has none yet, plus the amount. */
  function Added(stats: map<string, int>, t: Transaction): map<string, int>
  {
    stats[t.category := (if t.category in stats then stats[t.category] else 0) + t.amount]
  }

  /** `if (!categoryStats[c]) categoryStats[c] = 0;` */
  function ResetFalsy(stats: map<string, int>, c: string): (r: map<string, int>)
    ensures c in r
  {
    if c !in stats || stats[c] == 0 then stats[c := 0] else stats
  }

  /** Resetting a falsy entry to 0 and then adding is adding to the sum
      so far, or to 0 for a new key. */
  lemma ResetThenAdd(stats: map<string, int>, t: Transaction)
    ensures var reset := ResetFalsy(stats, t.category);
      reset[t.category := reset[t.category] + t.amount] == Added(stats, t)
  {
    var reset := ResetFalsy(stats, t.category);
    if t.category !in stats || stats[t.category] == 0 {
      assert reset[t.category := reset[t.category] + t.amount]
          == stats[t.category := t.amount];
    }
  }

  /** `stats` and its key order `keys` hold exactly the category totals
      of `ms`, keyed in first-appearance order. */
  ghost predicate Tallied(ms: seq<Transaction>, stats: map<string, int>, keys: seq<string>)
  {
    keys == FirstAppearances(ms)
    && (forall c :: c in stats <==> c in keys)
    && (forall c :: c in stats ==> stats[c] == CategoryTotal(ms, c))
  }

  lemma TalliedStep(ms: seq<Transaction>, t: Transaction, stats: map<string, int>, keys: seq<string>)
    requires Tallied(ms, stats, keys)
    ensures var reset := ResetFalsy(stats, t.category);
      Tallied(ms + [t], reset[t.category := reset[t.category] + t.amount],
              if t.category in stats then keys else keys + [t.category])
  {
    ResetThenAdd(stats, t);
    if t.category !in stats {
      FirstAppearancesMembers(ms, t.category);
    }
    FirstAppearancesSnoc(ms, t);
    AddedTotals(ms, t, stats);
  }

  /** Adding a record keeps every entry equal to its category's total. */
  lemma AddedTotals(ms: seq<Transaction>, t: Transaction, stats: map<string, int>)
    requires forall c :: c in stats ==> stats[c] == CategoryTotal(ms, c)
    requires t.category !in stats ==> !HasCategory(ms, t.category)
    ensures forall c :: c in Added(stats, t) ==> Added(stats, t)[c] == CategoryTotal(ms + [t], c)
  {
    if t.category !in stats {
      CategoryTotalAbsent(ms, t.category);
    }
    forall c | c in Added(stats, t)
      ensures Added(stats, t)[c] == CategoryTotal(ms + [t], c)
    {
      CategoryTotalSnoc(ms, t, c);
    }
  }

  lemma FirstAppearancesSnoc(ms: seq<Transaction>, t: Transaction)
    ensures FirstAppearances(ms + [t])
         == if t.category in FirstAppearances(ms) then FirstAppearances(ms) else FirstAppearances(ms) + [t.category]
  {
    assert (ms + [t])[..|ms|] == ms;
  }

  lemma {:induction false} FirstAppearancesMembers(ms: seq<Transaction>, c: string)
    ensures c in FirstAppearances(ms) <==> HasCategory(ms, c)
  {
    if ms != [] {
      var init := ms[..|ms| - 1];
      FirstAppearancesMembers(init, c);
      if HasCategory(init, c) {
        var i :| 0 <= i < |init| && init[i].category == c;
        assert ms[i].category == c;
      }
      if HasCategory(ms, c) && !HasCategory(init, c) {
        assert ms[|ms| - 1].category == c;
      }
    }
  }

  lemma {:induction false} FirstAppearancesDistinct(ms: seq<Transaction>)
    ensures Distinct(FirstAppearances(ms))
  {
    if ms != [] {
      FirstAppearancesDistinct(ms[..|ms| - 1]);
    }
  }

  lemma {:induction false} BucketsForShape(d: seq<string>, ms: seq<Transaction>)
    ensures |BucketsFor(d, ms)| == |d|
    ensures forall i :: 0 <= i < |d| ==>
      BucketsFor(d, ms)[i] == Bucket(d[i], CategoryTotal(ms, d[i]))
  {
    if d != [] {
      BucketsForShape(d[..|d| - 1], ms);
    }
  }

  lemma CategoryTotalSnoc(ms: seq<Transaction>, t: Transaction, c: string)
    ensures CategoryTotal(ms + [t], c)
         == CategoryTotal(ms, c) + (if t.category == c then t.amount else 0)
  {
    FilterSnoc(ms, t, CategoryIs(c));
    SumOfSnoc(Filter(ms, CategoryIs(c)), t, AmountOf);
    assert Filter(ms, CategoryIs(c)) + [] == Filter(ms, CategoryIs(c));
  }

  lemma CategoryTotalAbsent(ms: seq<Transaction>, c: string)
    requires !HasCategory(ms, c)
    ensures CategoryTotal(ms, c) == 0
  {
    var f := Filter(ms, CategoryIs(c));
    FilterMembers(ms, CategoryIs(c));
  }

  /** A category with a record has a positive total when amounts are. */
  lemma CategoryTotalPositive(ms: seq<Transaction>, c: string)
    requires AllPositive(ms) && HasCategory(ms, c)
    ensures CategoryTotal(ms, c) > 0
  {
    var i :| 0 <= i < |ms| && ms[i].category == c;
    FilterMembers(ms, CategoryIs(c));
    assert ms[i] in Filter(ms, CategoryIs(c));
    FilterAllPositive(ms, CategoryIs(c));
    SumOfPositive(Filter(ms, CategoryIs(c)), AmountOf);
  }

  /** One more record raises the summed totals of the distinct categories
      `d` by its amount when its category is among them. */
  lemma {:induction false} BucketsForSnoc(d: seq<string>, ms: seq<Transaction>, t: Transaction)
    requires Distinct(d)
    ensures SumOf(BucketsFor(d, ms + [t]), BucketAmount)
         == SumOf(BucketsFor(d, ms), BucketAmount) + (if t.category in d then t.amount else 0)
  {
    if d != [] {
      var init := d[..|d| - 1];
      var c := d[|d| - 1];
      assert d == init + [c];
      BucketsForSnoc(init, ms, t);
      CategoryTotalSnoc(ms, t, c);
      SumOfSnoc(BucketsFor(init, ms + [t]), Bucket(c, CategoryTotal(ms + [t], c)), BucketAmount);
      SumOfSnoc(BucketsFor(init, ms), Bucket(c, CategoryTotal(ms, c)), BucketAmount);
      assert t.category in d <==> t.category in init || t.category == c;
      assert !(t.category in init && t.category == c);
    }
  }

  lemma {:induction false} BucketsForEmpty(d: seq<string>)
    ensures SumOf(BucketsFor(d, []), BucketAmount) == 0
  {
    if d != [] {
      BucketsForEmpty(d[..|d| - 1]);
      SumOfSnoc(BucketsFor(d[..|d| - 1], []), Bucket(d[|d| - 1], 0), BucketAmount);
    }
  }

  /** Summing the category totals over distinct categories that cover
      every record gives the sum of all amounts. */
  lemma {:induction false} BucketsForTotal(d: seq<string>, ms: seq<Transaction>)
    requires Distinct(d)
    requires forall i :: 0 <= i < |ms| ==> ms[i].category in d
    ensures SumOf(BucketsFor(d, ms), BucketAmount) == SumOf(ms, AmountOf)
  {
    if ms == [] {
      BucketsForEmpty(d);
    } else {
      var init := ms[..|ms| - 1];
      var t := ms[|ms| - 1];
      assert ms == init + [t];
      BucketsForTotal(d, init);
      BucketsForSnoc(d, init, t);
      SumOfSnoc(init, t, AmountOf);
    }
  }

  /** The per-category sums add up to the monthly expense. */
  lemma BucketsSum(ms: seq<Transaction>)
    ensures SumOf(Buckets(ms), BucketAmount) == SumOf(ms, AmountOf)
  {
    var d := FirstAppearances(ms);
    FirstAppearancesDistinct(ms);
    forall i | 0 <= i < |ms|
      ensures ms[i].category in d
    {
      FirstAppearancesMembers(ms, ms[i].category);
    }
    BucketsForTotal(d, ms);
  }

  lemma {:induction false} SharesOfShape(bs: seq<Bucket>, max: int)
    ensures |SharesOf(bs, max)| == |bs|
    ensures forall i :: 0 <= i < |bs| ==>
      SharesOf(bs, max)[i] == ShareOf(bs[i], max)
  {
    if bs != [] {
      var init := bs[..|bs| - 1];
      SharesOfShape(init, max);
      assert SharesOf(bs, max) == SharesOf(init, max) + [ShareOf(bs[|bs| - 1], max)];
    }
  }

  /** Bar `i` is captioned with the expense table's name and icon for
      entry `i`'s category. */
  lemma SharesCaptions(bs: seq<Bucket>, max: int)
    ensures |SharesOf(bs, max)| == |bs|
    ensures forall i :: 0 <= i < |bs| ==>
      Caption(SharesOf(bs, max)[i]) == GetCategory("expense", bs[i].category)
  {
    SharesOfShape(bs, max);
  }

  lemma {:induction false} SharesOfSum(bs: seq<Bucket>, max: int)
    ensures SumOf(SharesOf(bs, max), ShareAmount) == SumOf(bs, BucketAmount)
  {
    if bs != [] {
      var b := bs[|bs| - 1];
      SharesOfSum(bs[..|bs| - 1], max);
      SumOfSnoc(SharesOf(bs[..|bs| - 1], max), ShareOf(b, max), ShareAmount);
      SumOfSnoc(bs[..|bs| - 1], b, BucketAmount);
      assert bs == bs[..|bs| - 1] + [b];
    }
  }

  lemma PercentageBounds(amount: int, max: int)
    requires 0 < amount <= max
    ensures 0.0 < Percentage(amount, max) <= 100.0
    ensures amount == max ==> Percentage(amount, max) == 100.0
  {
    var q := amount as real / max as real;
    assert q * (max as real) == amount as real;
    assert 0.0 < q <= 1.0;
  }

  // ---------------------------------------------------------------------
  // What the report promises.

  /** The empty state is shown exactly when no record is an expense of the
      reference month, and then nothing is divided by `maxAmount`. */
  lemma ReportNoData(s: seq<Transaction>, year: int, month: Month)
    ensures ReportOf(s, year, month).breakdown == NoData
        <==> forall i :: 0 <= i < |s| ==> !InMonthExpense(year, month)(s[i])
  {
    var ms := MonthExpenses(s, year, month);
    FilterMembers(s, InMonthExpense(year, month));
    BucketsForShape(FirstAppearances(ms), ms);
    if ms != [] {
      FirstAppearancesMembers(ms, ms[0].category);
      assert ms[0] in multiset(ms);
      var i :| 0 <= i < |s| && s[i] == ms[0];
    }
  }

  /** The bars add up to the monthly expense. */
  lemma ReportSharesSum(s: seq<Transaction>, year: int, month: Month)
    requires ReportOf(s, year, month).breakdown.Bars?
    ensures SumOf(ReportOf(s, year, month).breakdown.shares, ShareAmount)
         == ReportOf(s, year, month).total
  {
    var ms := MonthExpenses(s, year, month);
    var sorted := SortedBuckets(ms);
    SharesOfSum(sorted, sorted[0].amount);
    SortDescSum(Buckets(ms), BucketAmount, BucketAmount);
    BucketsSum(ms);
  }

  /** One bar per category that has an expense in the month, each showing
      that category's total. */
  lemma ReportCategories(s: seq<Transaction>, year: int, month: Month)
    requires ReportOf(s, year, month).breakdown.Bars?
    ensures var ms := MonthExpenses(s, year, month);
      var shares := ReportOf(s, year, month).breakdown.shares;
      |shares| == |FirstAppearances(ms)|
      && (forall i :: 0 <= i < |shares| ==>
            HasCategory(ms, shares[i].category)
            && shares[i].amount == CategoryTotal(ms, shares[i].category))
      && (forall c :: HasCategory(ms, c) ==>
            exists i :: 0 <= i < |shares| && shares[i].category == c)
  {
    var ms := MonthExpenses(s, year, month);
    var sorted := SortedBuckets(ms);
    ReportBars(s, year, month);
    var shares := SharesOf(sorted, sorted[0].amount);
    assert shares == ReportOf(s, year, month).breakdown.shares;
    BucketsForShape(FirstAppearances(ms), ms);
    SharesOfShape(sorted, sorted[0].amount);
    SortedBucketsAreTotals(ms);
    assert |shares| == |FirstAppearances(ms)|;
    forall i | 0 <= i < |shares|
      ensures HasCategory(ms, shares[i].category)
      ensures shares[i].amount == CategoryTotal(ms, shares[i].category)
    {
      assert shares[i].category == sorted[i].category;
    }
    forall c | HasCategory(ms, c)
      ensures exists i :: 0 <= i < |shares| && shares[i].category == c
    {
      SortedBucketsCover(ms, c);
      var i :| 0 <= i < |sorted| && sorted[i].category == c;
      assert shares[i].category == c;
    }
  }

  /** The bars are the shares of the sorted entries against the first. */
  lemma ReportBars(s: seq<Transaction>, year: int, month: Month)
    requires ReportOf(s, year, month).breakdown.Bars?
    ensures var ms := MonthExpenses(s, year, month);
      SortedBuckets(ms) != []
      && ReportOf(s, year, month).breakdown.shares
         == SharesOf(SortedBuckets(ms), SortedBuckets(ms)[0].amount)
  {
  }

  /** Every sorted entry is a category of the month with its total. */
  lemma SortedBucketsAreTotals(ms: seq<Transaction>)
    ensures forall i :: 0 <= i < |SortedBuckets(ms)| ==>
      HasCategory(ms, SortedBuckets(ms)[i].category)
      && SortedBuckets(ms)[i].amount == CategoryTotal(ms, SortedBuckets(ms)[i].category)
  {
    var d := FirstAppearances(ms);
    var buckets := Buckets(ms);
    var sorted := SortedBuckets(ms);
    BucketsForShape(d, ms);
    SortDescPermutes(buckets, BucketAmount);
    forall i | 0 <= i < |sorted|
      ensures HasCategory(ms, sorted[i].category)
      ensures sorted[i].amount == CategoryTotal(ms, sorted[i].category)
    {
      assert sorted[i] in multiset(buckets);
      var j :| 0 <= j < |buckets| && buckets[j] == sorted[i];
      FirstAppearancesMembers(ms, d[j]);
    }
  }

  /** Every category of the month has a sorted entry. */
  lemma SortedBucketsCover(ms: seq<Transaction>, c: string)
    requires HasCategory(ms, c)
    ensures exists i :: 0 <= i < |SortedBuckets(ms)| && SortedBuckets(ms)[i].category == c
  {
    var d := FirstAppearances(ms);
    var buckets := Buckets(ms);
    var sorted := SortedBuckets(ms);
    BucketsForShape(d, ms);
    SortDescPermutes(buckets, BucketAmount);
    FirstAppearancesMembers(ms, c);
    var j :| 0 <= j < |d| && d[j] == c;
    assert buckets[j] in multiset(sorted);
    var i :| 0 <= i < |sorted| && sorted[i] == buckets[j];
  }

  /** Largest first. */
  lemma ReportOrdered(s: seq<Transaction>, year: int, month: Month)
    requires ReportOf(s, year, month).breakdown.Bars?
    ensures var shares := ReportOf(s, year, month).breakdown.shares;
      forall i, j :: 0 <= i < j < |shares| ==> shares[i].amount >= shares[j].amount
  {
    var ms := MonthExpenses(s, year, month);
    var sorted := SortedBuckets(ms);
    SortDescSorted(Buckets(ms), BucketAmount);
    SharesOfShape(sorted, sorted[0].amount);
  }

  /** Categories with equal sums keep the order in which they first
      appear among the month's records. */
  lemma ReportTiesKeepFirstAppearance(ms: seq<Transaction>, amount: int)
    ensures Filter(SortedBuckets(ms), KeyIs(BucketAmount, amount))
         == Filter(Buckets(ms), KeyIs(BucketAmount, amount))
  {
    SortDescStable(Buckets(ms), BucketAmount, amount);
  }

  /** With positive amounts the first bar is exactly 100% and every bar
      lies in (0, 100]. */
  lemma ReportPercentages(s: seq<Transaction>, year: int, month: Month)
    requires AllPositive(s)
    requires ReportOf(s, year, month).breakdown.Bars?
    ensures var shares := ReportOf(s, year, month).breakdown.shares;
      shares[0].percentage == 100.0
      && forall i :: 0 <= i < |shares| ==> 0.0 < shares[i].percentage <= 100.0
  {
    var ms := MonthExpenses(s, year, month);
    var sorted := SortedBuckets(ms);
    var max := sorted[0].amount;
    var shares := SharesOf(sorted, max);
    FilterAllPositive(s, InMonthExpense(year, month));
    ReportCategories(s, year, month);
    ReportOrdered(s, year, month);
    SharesOfShape(sorted, max);
    forall i | 0 <= i < |shares|
      ensures 0.0 < shares[i].percentage <= 100.0
    {
      CategoryTotalPositive(ms, shares[i].category);
      PercentageBounds(shares[i].amount, max);
    }
    CategoryTotalPositive(ms, shares[0].category);
    PercentageBounds(max, max);
  }
}
