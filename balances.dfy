/** The three totals `updateBalance` shows (app.js:79-87): income, expense
    and their difference, each a `filter` by type followed by a `reduce`
    over `amount` starting from 0. */
module Balances {
  import opened Seqs
  import opened Records

  datatype Totals = Totals(income: int, expense: int, balance: int)

  /** Sum of `amount` over the records of kind `k`. */
  function KindTotal(s: seq<Transaction>, k: Kind): (r: int)
    ensures AllPositive(s) ==> r >= 0
  {
    var f := Filter(s, KindIs(k));
    assert AllPositive(s) ==> SumOf(f, AmountOf) >= 0 by {
      if AllPositive(s) {
        FilterAllPositive(s, KindIs(k));
        SumOfPositive(f, AmountOf);
      }
    }
    SumOf(f, AmountOf)
  }

  function ComputeTotals(s: seq<Transaction>): (r: Totals)
    ensures r.balance == r.income - r.expense
    ensures s == [] ==> r == Totals(0, 0, 0)
  {
    var income := KindTotal(s, Income);
    var expense := KindTotal(s, Expense);
    Totals(income, expense, income - expense)
  }

  /** An independent reading of the balance: every income record counts
      with a plus sign, every expense record with a minus sign. */
  function SignedAmount(t: Transaction): int
  {
    if t.kind == Income then t.amount else -t.amount
  }

  /** Adding one record moves exactly the total of its kind, by its amount. */
  lemma TotalsSnoc(s: seq<Transaction>, t: Transaction)
    ensures ComputeTotals(s + [t]).income
         == ComputeTotals(s).income + (if t.kind == Income then t.amount else 0)
    ensures ComputeTotals(s + [t]).expense
         == ComputeTotals(s).expense + (if t.kind == Expense then t.amount else 0)
  {
    FilterSnoc(s, t, KindIs(Income));
    FilterSnoc(s, t, KindIs(Expense));
    SumOfSnoc(Filter(s, KindIs(Income)), t, AmountOf);
    SumOfSnoc(Filter(s, KindIs(Expense)), t, AmountOf);
    assert Filter(s, KindIs(Expense)) + [] == Filter(s, KindIs(Expense));
    assert Filter(s, KindIs(Income)) + [] == Filter(s, KindIs(Income));
    if t.kind == Income {
      assert Filter(s + [t], KindIs(Expense)) == Filter(s, KindIs(Expense)) + [];
    } else {
      assert Filter(s + [t], KindIs(Income)) == Filter(s, KindIs(Income)) + [];
    }
  }

  /** Every record is either income or expense, so the two totals together
      are the sum of all amounts, and the balance is the signed sum. */
  lemma {:induction false} TotalsPartition(s: seq<Transaction>)
    ensures ComputeTotals(s).income + ComputeTotals(s).expense == SumOf(s, AmountOf)
    ensures ComputeTotals(s).balance == SumOf(s, SignedAmount)
  {
    if s != [] {
      var init := s[..|s| - 1];
      var t := s[|s| - 1];
      assert s == init + [t];
      TotalsPartition(init);
      TotalsSnoc(init, t);
      SumOfSnoc(init, t, AmountOf);
      SumOfSnoc(init, t, SignedAmount);
    }
  }

  /** With positive amounts both totals are non-negative, and a total is
      positive exactly when some record of its kind exists. */
  lemma TotalsNonNegative(s: seq<Transaction>)
    requires AllPositive(s)
    ensures ComputeTotals(s).income >= 0 && ComputeTotals(s).expense >= 0
    ensures ComputeTotals(s).income > 0 <==> exists i :: 0 <= i < |s| && s[i].kind == Income
    ensures ComputeTotals(s).expense > 0 <==> exists i :: 0 <= i < |s| && s[i].kind == Expense
  {
    KindTotalPositive(s, Income);
    KindTotalPositive(s, Expense);
  }

  lemma KindTotalPositive(s: seq<Transaction>, k: Kind)
    requires AllPositive(s)
    ensures KindTotal(s, k) >= 0
    ensures KindTotal(s, k) > 0 <==> exists i :: 0 <= i < |s| && s[i].kind == k
  {
    var f := Filter(s, KindIs(k));
    FilterAllPositive(s, KindIs(k));
    SumOfPositive(f, AmountOf);
    FilterMembers(s, KindIs(k));
    if exists i :: 0 <= i < |s| && s[i].kind == k {
      var i :| 0 <= i < |s| && s[i].kind == k;
      assert s[i] in f;
    }
  }
}
