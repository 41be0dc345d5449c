/** The list shown by `renderTransactions` (app.js:115-123): a copy of the
    ledger sorted newest first by date, then, unless the current filter is
    `'all'`, narrowed to the records of the filter's type. */
module Views {
  import opened Seqs
  import opened Records
  import opened Sorting

  /** `currentFilter`: `'all'`, `'income'` or `'expense'`. */
  datatype ViewFilter = All | Only(kind: Kind)

  /** The records the filter lets through, in ledger order. */
  function Selected(s: seq<Transaction>, f: ViewFilter): seq<Transaction>
  {
    match f
    case All => s
    case Only(k) => Filter(s, KindIs(k))
  }

  /** What `renderTransactions` lists: sort first, filter second. */
  function ListView(s: seq<Transaction>, f: ViewFilter): (v: seq<Transaction>)
    ensures |v| <= |s|
    ensures f == All ==> |v| == |s|
  {
    var sorted := SortDesc(s, DateKeyOf);
    match f
    case All => sorted
    case Only(k) => Filter(sorted, KindIs(k))
  }

  /** The records dated `d`. */
  function DateIs(d: Date): Transaction -> bool
  {
    (t: Transaction) => t.date == d
  }

  /** The list view computed as app.js does it: copy the array, sort the
      copy in place, then filter it. */
  method RenderList(s: seq<Transaction>, f: ViewFilter) returns (v: seq<Transaction>)
    ensures v == ListView(s, f)
  {
    var copy := new Transaction[|s|](i requires 0 <= i < |s| => s[i]);
    assert copy[..] == s;
    SortDescInPlace(copy, DateKeyOf);
    v := copy[..];
    if f.Only? {
      v := Filter(v, KindIs(f.kind));
    }
  }

  /** Filtering the sorted list is sorting the filtered ledger. */
  lemma ListViewSortsSelection(s: seq<Transaction>, f: ViewFilter)
    ensures ListView(s, f) == SortDesc(Selected(s, f), DateKeyOf)
  {
    if f.Only? {
      SortDescFilter(s, DateKeyOf, KindIs(f.kind));
    }
  }

  /** The view holds exactly the selected records: with `'all'` a
      permutation of the ledger, otherwise the records of the filter's
      type, each as often as in the ledger. */
  lemma ListViewContents(s: seq<Transaction>, f: ViewFilter)
    ensures multiset(ListView(s, f)) == multiset(Selected(s, f))
    ensures f == All ==> multiset(ListView(s, f)) == multiset(s)
    ensures forall i :: 0 <= i < |ListView(s, f)| && f.Only? ==> ListView(s, f)[i].kind == f.kind
  {
    ListViewSortsSelection(s, f);
    SortDescPermutes(Selected(s, f), DateKeyOf);
    if f.Only? {
      FilterSatisfies(SortDesc(s, DateKeyOf), KindIs(f.kind));
    }
  }

  /** A record of the selection is in the view exactly when it is in the
      ledger and passes the filter. */
  lemma ListViewMembership(s: seq<Transaction>, f: ViewFilter, t: Transaction)
    ensures t in ListView(s, f) <==> t in s && (f.Only? ==> t.kind == f.kind)
  {
    ListViewContents(s, f);
    assert t in ListView(s, f) <==> t in multiset(ListView(s, f));
    if f.Only? {
      FilterMembers(s, KindIs(f.kind));
      assert t in multiset(Filter(s, KindIs(f.kind))) ==> t in multiset(s);
    }
  }

  /** Newest first: no record is listed before a record of a later date. */
  lemma ListViewOrdered(s: seq<Transaction>, f: ViewFilter)
    ensures forall i, j :: 0 <= i < j < |ListView(s, f)| ==>
      !Earlier(ListView(s, f)[i].date, ListView(s, f)[j].date)
  {
    var v := ListView(s, f);
    ListViewSortsSelection(s, f);
    SortDescSorted(Selected(s, f), DateKeyOf);
    forall i, j | 0 <= i < j < |v|
      ensures !Earlier(v[i].date, v[j].date)
    {
      DayKeyOrder(v[i].date, v[j].date);
    }
  }

  /** The sort is stable: records of the same date appear in the view in
      the order they have in the ledger. */
  lemma ListViewStable(s: seq<Transaction>, f: ViewFilter, d: Date)
    ensures Filter(ListView(s, f), DateIs(d)) == Filter(Selected(s, f), DateIs(d))
  {
    var sel := Selected(s, f);
    var sorted := SortDesc(sel, DateKeyOf);
    var p := KeyIs(DateKeyOf, DayKey(d));
    ListViewSortsSelection(s, f);
    SortDescStable(sel, DateKeyOf, DayKey(d));
    forall t: Transaction
      ensures p(t) == DateIs(d)(t)
    {
      DayKeyOrder(t.date, d);
      assert DateKeyOf(t) == DayKey(t.date);
      assert p(t) == (DateKeyOf(t) == DayKey(d));
    }
    FilterAgree(sorted, p, DateIs(d));
    FilterAgree(sel, p, DateIs(d));
  }
}
