/** The transaction record of app.js (the objects built at app.js:266-274
    and kept in the top-level `transactions` array), with amounts in whole
    cents and dates as calendar dates. */
module Records {
  import opened Seqs

  /** The `type` field: `'income'` or `'expense'`. */
  datatype Kind = Income | Expense

  /** The string app.js stores in `type` and uses as a key of `categories`. */
  function KindName(k: Kind): (r: string)
    ensures r == "income" || r == "expense"
  {
    match k
    case Income => "income"
    case Expense => "expense"
  }

  type Month = m: int | 1 <= m <= 12 witness 1
  type Day = d: int | 1 <= d <= 31 witness 1

  /** A `YYYY-MM-DD` date as the date input produces it. */
  datatype Date = Date(year: int, month: Month, day: Day)

  /** `a` is an earlier calendar day than `b`. */
  predicate Earlier(a: Date, b: Date)
  {
    a.year < b.year
    || (a.year == b.year && a.month < b.month)
    || (a.year == b.year && a.month == b.month && a.day < b.day)
  }

  /** A number for each date that grows with the date, standing for the
      time value `new Date(date)` that app.js subtracts to compare dates. */
  function DayKey(d: Date): int
  {
    (d.year * 12 + (d.month - 1)) * 31 + (d.day - 1)
  }

  /** Comparing keys is comparing dates. */
  lemma DayKeyOrder(a: Date, b: Date)
    ensures DayKey(a) < DayKey(b) <==> Earlier(a, b)
    ensures DayKey(a) == DayKey(b) <==> a == b
  {
    var ra := (a.month - 1) * 31 + (a.day - 1);
    var rb := (b.month - 1) * 31 + (b.day - 1);
    assert 0 <= ra < 372 && 0 <= rb < 372;
    assert DayKey(a) == a.year * 372 + ra;
    assert DayKey(b) == b.year * 372 + rb;
    assert ra < rb <==> a.month < b.month || (a.month == b.month && a.day < b.day);
  }

  /** One stored record. `amount` is in cents; `createdAt` is the ISO
      timestamp string taken at creation. */
  datatype Transaction = Transaction(
    id: string,
    kind: Kind,
    amount: int,
    category: string,
    note: string,
    date: Date,
    createdAt: string)

  function AmountOf(t: Transaction): int { t.amount }

  function DateKeyOf(t: Transaction): int { DayKey(t.date) }

  /** `t => t.type === k` */
  function KindIs(k: Kind): Transaction -> bool
  {
    (t: Transaction) => t.kind == k
  }

  /** Every record has a positive amount, as the submit form guarantees. */
  predicate AllPositive(s: seq<Transaction>)
  {
    forall i :: 0 <= i < |s| ==> s[i].amount > 0
  }

  /** No two records share an id. */
  predicate UniqueIds(s: seq<Transaction>)
  {
    forall i, j :: 0 <= i < j < |s| ==> s[i].id != s[j].id
  }

  /** Some record has id `id`. */
  predicate HasId(s: seq<Transaction>, id: string)
  {
    exists i :: 0 <= i < |s| && s[i].id == id
  }

  /** Filtering keeps amounts positive. */
  lemma FilterAllPositive(s: seq<Transaction>, p: Transaction -> bool)
    requires AllPositive(s)
    ensures AllPositive(Filter(s, p))
  {
    var r := Filter(s, p);
    FilterMembers(s, p);
    forall i | 0 <= i < |r|
      ensures r[i].amount > 0
    {
      assert r[i] in multiset(r);
    }
  }
}
