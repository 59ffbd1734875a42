/**
 * src/App.tsx: the `Expense` record and the `balances` computation, which
 * folds the expenses into one signed balance per person (positive: the
 * person is owed money; negative: the person owes). Amounts are exact reals.
 */
module Ledger {
  import opened Wrappers

  /**
   * `Expense`: a label (`n`), the index of the payer (`pb`), the indices of
   * the people who share it (`i`), the amount (`a`) and, optionally, one
   * percentage per sharer (`s`).
   */
  datatype Expense = Expense(name: string, paidBy: int, involved: seq<int>, amount: real,
                             percentages: Option<seq<real>>)

  function Sum(s: seq<real>): real {
    if s == [] then 0.0 else Sum(s[..|s| - 1]) + s[|s| - 1]
  }

  /** `s && s.length === i.length`: the percentages are used only when there is one per sharer. */
  predicate HasUsablePercentages(e: Expense) {
    e.percentages.Some? && |e.percentages.value| == |e.involved|
  }

  /** `s.map((p) => (p / 100) * a)`. */
  function PercentParts(percentages: seq<real>, amount: real): (owed: seq<real>)
    ensures |owed| == |percentages|
  {
    seq(|percentages|, k requires 0 <= k < |percentages| => percentages[k] / 100.0 * amount)
  }

  /** `Array(n).fill(a / n)`. */
  function EqualParts(n: nat, amount: real): (owed: seq<real>)
    ensures |owed| == n
  {
    seq(n, _ requires n > 0 => amount / (n as real))
  }

  /** The amount each sharer owes, position by position: a percentage of `a`, or an equal part. */
  function Shares(e: Expense): (owed: seq<real>)
    ensures |owed| == |e.involved|
  {
    if HasUsablePercentages(e) then PercentParts(e.percentages.value, e.amount)
    else EqualParts(|e.involved|, e.amount)
  }

  /** Every index the expense names is a person. */
  predicate ValidExpense(count: nat, e: Expense) {
    && 0 <= e.paidBy < count
    && forall k :: 0 <= k < |e.involved| ==> 0 <= e.involved[k] < count
  }

  predicate ValidExpenses(count: nat, expenses: seq<Expense>) {
    forall j :: 0 <= j < |expenses| ==> ValidExpense(count, expenses[j])
  }

  /** Indices that all address `bal`. */
  predicate InRange(who: seq<int>, size: nat) {
    forall k :: 0 <= k < |who| ==> 0 <= who[k] < size
  }

  /** `bal[p] += amount`. */
  function Credit(bal: seq<real>, p: int, amount: real): (r: seq<real>)
    requires 0 <= p < |bal|
    ensures |r| == |bal|
  {
    bal[p := bal[p] + amount]
  }

  /** The `forEach` of src/App.tsx:76-78: `bal[who[k]] -= owed[k]` for each position in turn. */
  function Debit(bal: seq<real>, who: seq<int>, owed: seq<real>): (r: seq<real>)
    requires |who| == |owed| && InRange(who, |bal|)
    ensures |r| == |bal|
  {
    if who == [] then bal
    else
      var k := |who| - 1;
      Credit(Debit(bal, who[..k], owed[..k]), who[k], -owed[k])
  }

  /** One iteration of the `for` loop: debit the sharers, then credit the payer. */
  function Apply(bal: seq<real>, e: Expense): (r: seq<real>)
    requires ValidExpense(|bal|, e)
    ensures |r| == |bal|
  {
    Credit(Debit(bal, e.involved, Shares(e)), e.paidBy, e.amount)
  }

  /** `Array(n).fill(0)`. */
  function Zeros(n: nat): (r: seq<real>)
    ensures |r| == n
  {
    seq(n, _ => 0.0)
  }

  /** The balance vector: `count` zeros with every expense applied in order. */
  function Balances(count: nat, expenses: seq<Expense>): (bal: seq<real>)
    requires ValidExpenses(count, expenses)
    ensures |bal| == count
  {
    if expenses == [] then Zeros(count)
    else
      var n := |expenses| - 1;
      Apply(Balances(count, expenses[..n]), expenses[n])
  }

  /** The `forEach` of src/App.tsx:76-78 on the array itself. */
  method DebitInPlace(bal: array<real>, who: seq<int>, owed: seq<real>)
    requires |who| == |owed| && InRange(who, bal.Length)
    modifies bal
    ensures bal[..] == Debit(old(bal[..]), who, owed)
  {
    ghost var start := bal[..];
    for idx := 0 to |who|
      invariant bal[..] == Debit(start, who[..idx], owed[..idx])
    {
      assert who[..idx + 1][..idx] == who[..idx];
      assert owed[..idx + 1][..idx] == owed[..idx];
      bal[who[idx]] := bal[who[idx]] - owed[idx];
    }
    assert who[..|who|] == who && owed[..|owed|] == owed;
  }

  /** The body of the `for` loop of src/App.tsx:70-82, for one expense `e`. */
  method ApplyInPlace(bal: array<real>, e: Expense)
    requires ValidExpense(bal.Length, e)
    modifies bal
    ensures bal[..] == Apply(old(bal[..]), e)
  {
    ghost var before := bal[..];
    var shares := Shares(e);
    DebitInPlace(bal, e.involved, shares);
    ghost var debited := bal[..];
    bal[e.paidBy] := bal[e.paidBy] + e.amount;
    assert bal[..] == Credit(debited, e.paidBy, e.amount);
    ApplyUnfold(before, e);
  }

  /** `balances` (src/App.tsx:66-84): the array filled with zeros and updated in place. */
  method ComputeBalances(people: seq<string>, expenses: seq<Expense>) returns (balances: seq<real>)
    requires ValidExpenses(|people|, expenses)
    ensures balances == Balances(|people|, expenses)
  {
    var bal := new real[|people|](_ => 0.0);
    assert bal[..] == Zeros(|people|);
    for j := 0 to |expenses|
      invariant bal.Length == |people|
      invariant bal[..] == Balances(|people|, expenses[..j])
    {
      BalancesStep(|people|, expenses, j);
      ApplyInPlace(bal, expenses[j]);
    }
    assert expenses[..|expenses|] == expenses;
    return bal[..];
  }

  // ----- A reference definition: what each person paid minus what each person owes -----

  /** The sum of `owed[k]` over the positions `k` where `who[k] == p`. */
  function OwedAt(p: int, who: seq<int>, owed: seq<real>): real
    requires |who| == |owed|
  {
    if who == [] then 0.0
    else
      var k := |who| - 1;
      OwedAt(p, who[..k], owed[..k]) + (if who[k] == p then owed[k] else 0.0)
  }

  /** What person `p` paid over all expenses. */
  function Paid(p: int, expenses: seq<Expense>): real {
    if expenses == [] then 0.0
    else
      var n := |expenses| - 1;
      Paid(p, expenses[..n]) + (if expenses[n].paidBy == p then expenses[n].amount else 0.0)
  }

  /** What person `p` owes over all expenses. */
  function Owed(p: int, expenses: seq<Expense>): real {
    if expenses == [] then 0.0
    else
      var n := |expenses| - 1;
      var e := expenses[n];
      Owed(p, expenses[..n]) + OwedAt(p, e.involved, Shares(e))
  }

  lemma {:induction false} DebitAt(bal: seq<real>, who: seq<int>, owed: seq<real>, p: int)
    requires |who| == |owed| && InRange(who, |bal|) && 0 <= p < |bal|
    ensures Debit(bal, who, owed)[p] == bal[p] - OwedAt(p, who, owed)
    decreases |who|
  {
    if who != [] {
      var k := |who| - 1;
      DebitAt(bal, who[..k], owed[..k], p);
    }
  }

  /** Each person's balance is what that person paid minus what that person owes. */
  lemma {:induction false} BalanceOf(count: nat, expenses: seq<Expense>, p: int)
    requires ValidExpenses(count, expenses) && 0 <= p < count
    ensures Balances(count, expenses)[p] == Paid(p, expenses) - Owed(p, expenses)
    decreases |expenses|
  {
    if expenses != [] {
      var n := |expenses| - 1;
      var e := expenses[n];
      var before := Balances(count, expenses[..n]);
      BalanceOf(count, expenses[..n], p);
      DebitAt(before, e.involved, Shares(e), p);
    }
  }

  // ----- Zero sum -----

  lemma {:induction false} DebitSum(bal: seq<real>, who: seq<int>, owed: seq<real>)
    requires |who| == |owed| && InRange(who, |bal|)
    ensures Sum(Debit(bal, who, owed)) == Sum(bal) - Sum(owed)
    decreases |who|
  {
    if who != [] {
      var k := |who| - 1;
      DebitSum(bal, who[..k], owed[..k]);
      CreditSum(Debit(bal, who[..k], owed[..k]), who[k], -owed[k]);
    }
  }

  /** What one expense adds to the total of the balances: the amount minus the shares. */
  lemma ApplySum(bal: seq<real>, e: Expense)
    requires ValidExpense(|bal|, e)
    ensures Sum(Apply(bal, e)) == Sum(bal) + e.amount - Sum(Shares(e))
  {
    var owed := Shares(e);
    var b := Debit(bal, e.involved, owed);
    ApplyUnfold(bal, e);
    CreditSum(b, e.paidBy, e.amount);
    DebitSum(bal, e.involved, owed);
  }

  lemma BalancesStep(count: nat, expenses: seq<Expense>, j: nat)
    requires ValidExpenses(count, expenses) && j < |expenses|
    ensures ValidExpenses(count, expenses[..j])
    ensures Balances(count, expenses[..j + 1]) == Apply(Balances(count, expenses[..j]), expenses[j])
  {
    assert expenses[..j + 1][..j] == expenses[..j];
  }

  lemma ApplyUnfold(bal: seq<real>, e: Expense)
    requires ValidExpense(|bal|, e)
    ensures Apply(bal, e) == Credit(Debit(bal, e.involved, Shares(e)), e.paidBy, e.amount)
  {
  }

  /** Adding to one entry adds the same to the total. */
  lemma {:induction false} CreditSum(b: seq<real>, p: int, amount: real)
    requires 0 <= p < |b|
    ensures Sum(Credit(b, p, amount)) == Sum(b) + amount
    decreases |b|
  {
    var n := |b| - 1;
    if p < n {
      assert Credit(b, p, amount)[..n] == Credit(b[..n], p, amount);
      CreditSum(b[..n], p, amount);
    } else {
      assert Credit(b, p, amount)[..n] == b[..n];
    }
  }

  lemma SumEqualParts(n: nat, amount: real)
    requires n > 0
    ensures Sum(EqualParts(n, amount)) == amount
  {
    var part := amount / (n as real);
    assert EqualParts(n, amount) == seq(n, _ => part);
    SumConstant(n, part);
  }

  lemma {:induction false} SumConstant(n: nat, c: real)
    ensures Sum(seq(n, _ => c)) == (n as real) * c
    decreases n
  {
    if n > 0 {
      assert seq(n, _ => c)[..n - 1] == seq(n - 1, _ => c);
      SumConstant(n - 1, c);
    }
  }

  lemma {:induction false} SumPercentParts(p: seq<real>, a: real)
    ensures Sum(PercentParts(p, a)) == Sum(p) / 100.0 * a
    decreases |p|
  {
    if p != [] {
      var n := |p| - 1;
      var parts := PercentParts(p, a);
      assert forall k | 0 <= k < n :: parts[..n][k] == PercentParts(p[..n], a)[k];
      assert parts[..n] == PercentParts(p[..n], a);
      SumPercentParts(p[..n], a);
      assert (Sum(p[..n]) + p[n]) / 100.0 * a == Sum(p[..n]) / 100.0 * a + p[n] / 100.0 * a;
    }
  }

  /** An expense whose shares add up to its amount. */
  predicate IsBalanced(e: Expense) {
    |e.involved| > 0 && (!HasUsablePercentages(e) || Sum(e.percentages.value) == 100.0)
  }

  /** With at least one sharer, the equal parts, or percentages adding up to 100, sum to the amount. */
  lemma SharesSum(e: Expense)
    requires IsBalanced(e)
    ensures Sum(Shares(e)) == e.amount
  {
    var n := |e.involved|;
    if HasUsablePercentages(e) {
      SumPercentParts(e.percentages.value, e.amount);
    } else {
      SumEqualParts(n, e.amount);
    }
  }

  /** The balances always add up to the total of the amounts minus the total of the shares. */
  lemma {:induction false} BalancesSum(count: nat, expenses: seq<Expense>)
    requires ValidExpenses(count, expenses)
    ensures Sum(Balances(count, expenses)) == Surplus(expenses)
    decreases |expenses|
  {
    if expenses == [] {
      assert Zeros(count) == seq(count, _ => 0.0);
      SumConstant(count, 0.0);
    } else {
      var n := |expenses| - 1;
      BalancesSum(count, expenses[..n]);
      ApplySum(Balances(count, expenses[..n]), expenses[n]);
    }
  }

  /** The total of the amounts minus the total of the shares. */
  function Surplus(expenses: seq<Expense>): real {
    if expenses == [] then 0.0
    else
      var n := |expenses| - 1;
      Surplus(expenses[..n]) + (expenses[n].amount - Sum(Shares(expenses[n])))
  }

  lemma {:induction false} SurplusZero(expenses: seq<Expense>)
    requires forall j :: 0 <= j < |expenses| ==> IsBalanced(expenses[j])
    ensures Surplus(expenses) == 0.0
    decreases |expenses|
  {
    if expenses != [] {
      var n := |expenses| - 1;
      SurplusZero(expenses[..n]);
      SharesSum(expenses[n]);
    }
  }

  /** Zero sum: when every expense is shared out in full, the balances add up to zero. */
  lemma ZeroSum(count: nat, expenses: seq<Expense>)
    requires ValidExpenses(count, expenses)
    requires forall j :: 0 <= j < |expenses| ==> IsBalanced(expenses[j])
    ensures Sum(Balances(count, expenses)) == 0.0
  {
    BalancesSum(count, expenses);
    SurplusZero(expenses);
  }
}
