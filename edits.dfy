/**
 * src/App.tsx: the edits the people and expense panels make to the two
 * lists: `addPerson`, `removePerson`, `removeExpense`, `addExpense` and the
 * guard that enables the add-expense button. Each is a spread, `filter` or
 * `map` expression that builds new lists from the old ones.
 */
module Edits {
  import opened Wrappers
  import opened Ledger

  // ----- String.prototype.trim -----

  /** The characters `trim` strips: ECMAScript WhiteSpace and LineTerminator. */
  predicate IsJsWhitespace(ch: char) {
    || ch == '\t' || ch == '\n' || ch == '\U{000B}' || ch == '\U{000C}' || ch == '\r'
    || ch == ' ' || ch == '\U{00A0}' || ch == '\U{1680}' || ('\U{2000}' <= ch <= '\U{200A}')
    || ch == '\U{2028}' || ch == '\U{2029}' || ch == '\U{202F}' || ch == '\U{205F}'
    || ch == '\U{3000}' || ch == '\U{FEFF}'
  }

  /** Drops the leading whitespace: what is left is a suffix that is empty or starts with something else. */
  function TrimStart(s: string): (r: string)
    ensures |r| <= |s| && r == s[|s| - |r|..]
    ensures forall k :: 0 <= k < |s| - |r| ==> IsJsWhitespace(s[k])
    ensures r == [] || !IsJsWhitespace(r[0])
  {
    if s != [] && IsJsWhitespace(s[0]) then TrimStart(s[1..]) else s
  }

  /** Drops the trailing whitespace: what is left is a prefix that is empty or ends with something else. */
  function TrimEnd(s: string): (r: string)
    ensures |r| <= |s| && r == s[..|r|]
    ensures forall k :: |r| <= k < |s| ==> IsJsWhitespace(s[k])
    ensures r == [] || !IsJsWhitespace(r[|r| - 1])
  {
    if s != [] && IsJsWhitespace(s[|s| - 1]) then TrimEnd(s[..|s| - 1]) else s
  }

  function Trim(s: string): string {
    TrimEnd(TrimStart(s))
  }

  lemma TrimStartKeeps(s: string)
    requires s == [] || !IsJsWhitespace(s[0])
    ensures TrimStart(s) == s
  {
  }

  lemma TrimEndKeeps(s: string)
    requires s == [] || !IsJsWhitespace(s[|s| - 1])
    ensures TrimEnd(s) == s
  {
  }

  /** The trimmed text is a slice of the input, with whitespace only outside it and no whitespace at its ends. */
  lemma TrimSlice(s: string) returns (i: nat)
    ensures i + |Trim(s)| <= |s| && Trim(s) == s[i..i + |Trim(s)|]
    ensures forall k :: 0 <= k < i ==> IsJsWhitespace(s[k])
    ensures forall k :: i + |Trim(s)| <= k < |s| ==> IsJsWhitespace(s[k])
    ensures Trim(s) == [] || (!IsJsWhitespace(Trim(s)[0]) && !IsJsWhitespace(Trim(s)[|Trim(s)| - 1]))
  {
    var u := TrimStart(s);
    var t := TrimEnd(u);
    i := |s| - |u|;
    assert t == Trim(s);
    SliceOfSlice(s, i, |t|);
    forall k | i + |t| <= k < |s|
      ensures IsJsWhitespace(s[k])
    {
      assert s[k] == u[k - i];
    }
  }

  lemma SliceOfSlice(s: string, i: nat, n: nat)
    requires i + n <= |s|
    ensures s[i..][..n] == s[i..i + n]
  {
  }

  /** Trimming twice is trimming once. */
  lemma TrimIdempotent(s: string)
    ensures Trim(Trim(s)) == Trim(s)
  {
    var t := Trim(s);
    var i := TrimSlice(s);
    TrimStartKeeps(t);
    TrimEndKeeps(t);
  }

  /** Only a string made entirely of whitespace trims to nothing. */
  lemma TrimBlank(s: string)
    ensures Trim(s) == [] <==> forall k :: 0 <= k < |s| ==> IsJsWhitespace(s[k])
  {
    var i := TrimSlice(s);
  }

  // ----- People -----

  /** `addPerson`: a name is appended, trimmed, only when something is left after trimming. */
  function AddPerson(people: seq<string>, name: string): (r: seq<string>)
    ensures |people| <= |r| && r[..|people|] == people
  {
    var t := Trim(name);
    if t != [] then people + [t] else people
  }

  /** A blank name adds nobody; any other name adds one person, trimmed, at the end. */
  lemma AddPersonBlank(people: seq<string>, name: string)
    ensures AddPerson(people, name) == people <==> forall k :: 0 <= k < |name| ==> IsJsWhitespace(name[k])
    ensures |AddPerson(people, name)| == |people| + 1 ==> AddPerson(people, name)[|people|] == Trim(name)
    ensures |AddPerson(people, name)| in {|people|, |people| + 1}
  {
    TrimBlank(name);
  }

  lemma {:induction false} OwedAtAbsent(p: int, who: seq<int>, owed: seq<real>)
    requires |who| == |owed| && forall k :: 0 <= k < |who| ==> who[k] != p
    ensures OwedAt(p, who, owed) == 0.0
    decreases |who|
  {
    if who != [] {
      var k := |who| - 1;
      OwedAtAbsent(p, who[..k], owed[..k]);
    }
  }

  /** A person no expense names has paid nothing and owes nothing. */
  lemma {:induction false} Uninvolved(p: int, expenses: seq<Expense>)
    requires forall j :: 0 <= j < |expenses| ==> expenses[j].paidBy != p && p !in expenses[j].involved
    ensures Paid(p, expenses) == 0.0 && Owed(p, expenses) == 0.0
    decreases |expenses|
  {
    if expenses != [] {
      var n := |expenses| - 1;
      var e := expenses[n];
      Uninvolved(p, expenses[..n]);
      OwedAtAbsent(p, e.involved, Shares(e));
    }
  }

  /**
   * Adding a person keeps every expense valid, leaves everyone else's
   * balance as it was and gives the newcomer a balance of zero.
   */
  lemma AddPersonBalances(people: seq<string>, name: string, expenses: seq<Expense>)
    requires ValidExpenses(|people|, expenses)
    ensures ValidExpenses(|AddPerson(people, name)|, expenses)
    ensures forall p :: 0 <= p < |people| ==>
              Balances(|AddPerson(people, name)|, expenses)[p] == Balances(|people|, expenses)[p]
    ensures |AddPerson(people, name)| == |people| + 1 ==> Balances(|people| + 1, expenses)[|people|] == 0.0
  {
    var count := |AddPerson(people, name)|;
    assert ValidExpenses(count, expenses);
    forall p | 0 <= p < |people|
      ensures Balances(count, expenses)[p] == Balances(|people|, expenses)[p]
    {
      BalanceOf(count, expenses, p);
      BalanceOf(|people|, expenses, p);
    }
    if count == |people| + 1 {
      forall j | 0 <= j < |expenses|
        ensures expenses[j].paidBy != |people| && |people| !in expenses[j].involved
      {
        assert ValidExpense(|people|, expenses[j]);
      }
      Uninvolved(|people|, expenses);
      BalanceOf(count, expenses, |people|);
    }
  }

  /** `list.filter((_, i) => i !== index)`: the element at `index`, if there is one, is dropped. */
  function FilterIndex<T>(xs: seq<T>, index: int): (r: seq<T>)
    ensures 0 <= index < |xs| ==> r == xs[..index] + xs[index + 1..]
    ensures !(0 <= index < |xs|) ==> r == xs
  {
    if xs == [] then []
    else
      var n := |xs| - 1;
      var front := FilterIndex(xs[..n], index);
      assert xs == xs[..n] + [xs[n]];
      if n == index then front else front + [xs[n]]
  }

  /** `e.i.filter(ix => ix !== index)`. */
  function Without(involved: seq<int>, index: int): (r: seq<int>)
    ensures |r| <= |involved| && (index in involved ==> |r| < |involved|)
    ensures forall x :: x in r <==> x in involved && x != index
  {
    if involved == [] then []
    else
      var n := |involved| - 1;
      var front := Without(involved[..n], index);
      assert involved == involved[..n] + [involved[n]];
      if involved[n] == index then front else front + [involved[n]]
  }

  /** The sharers filter keeps the order: it works piece by piece, and keeps or drops each single index. */
  lemma {:induction false} WithoutAppend(a: seq<int>, b: seq<int>, index: int)
    ensures Without(a + b, index) == Without(a, index) + Without(b, index)
    ensures |b| == 1 ==> Without(b, index) == if b[0] == index then [] else b
    decreases |b|
  {
    if b != [] {
      var n := |b| - 1;
      assert (a + b)[..|a| + n] == a + b[..n];
      assert b[..n] == [] ==> b == [b[n]];
      WithoutAppend(a, b[..n], index);
      if |b| == 1 {
        assert b[..0] == [];
      }
    } else {
      assert a + b == a;
    }
  }

  /** `expenses.filter(e => e.pb !== index)`. */
  function NotPaidBy(expenses: seq<Expense>, index: int): (r: seq<Expense>)
    ensures |r| <= |expenses|
    ensures forall e :: e in r <==> e in expenses && e.paidBy != index
  {
    if expenses == [] then []
    else
      var n := |expenses| - 1;
      var front := NotPaidBy(expenses[..n], index);
      assert expenses == expenses[..n] + [expenses[n]];
      if expenses[n].paidBy == index then front else front + [expenses[n]]
  }

  /** The expenses filter keeps the order: it works piece by piece (`NotPaidBySingle` says what it does to one expense). */
  lemma {:induction false} NotPaidByAppend(a: seq<Expense>, b: seq<Expense>, index: int)
    ensures NotPaidBy(a + b, index) == NotPaidBy(a, index) + NotPaidBy(b, index)
    decreases |b|
  {
    if b == [] {
      assert a + b == a;
    } else {
      var n := |b| - 1;
      var front, x := b[..n], b[n];
      assert a + b == (a + front) + [x] && b == front + [x];
      var last := if x.paidBy == index then [] else [x];
      NotPaidByAppend(a, front, index);
      NotPaidBySnoc(a + front, x, index);
      NotPaidBySnoc(front, x, index);
      var fa, ff := NotPaidBy(a, index), NotPaidBy(front, index);
      assert (fa + ff) + last == fa + (ff + last);
    }
  }

  /** The expenses filter keeps or drops a single expense by its payer. */
  lemma NotPaidBySingle(x: Expense, index: int)
    ensures NotPaidBy([x], index) == if x.paidBy == index then [] else [x]
  {
    NotPaidBySnoc([], x, index);
    assert [] + [x] == [x];
  }

  lemma NotPaidBySnoc(xs: seq<Expense>, x: Expense, index: int)
    ensures NotPaidBy(xs + [x], index) == NotPaidBy(xs, index) + if x.paidBy == index then [] else [x]
  {
    assert (xs + [x])[..|xs|] == xs;
  }

  /** The people and the expenses the app holds. */
  datatype Book = Book(people: seq<string>, expenses: seq<Expense>)

  /**
   * `removePerson` as written: the person's own expenses go, the person is
   * taken out of every other expense's sharers, and the person is removed
   * from the list. Indices above `index` are not renumbered.
   */
  function RemovePersonAsWritten(book: Book, index: int): (r: Book)
    ensures |r.people| == (if 0 <= index < |book.people| then |book.people| - 1 else |book.people|)
    ensures |r.expenses| == |NotPaidBy(book.expenses, index)|
    ensures forall j :: 0 <= j < |r.expenses| ==> r.expenses[j].paidBy != index && index !in r.expenses[j].involved
  {
    var kept := NotPaidBy(book.expenses, index);
    Book(FilterIndex(book.people, index),
         seq(|kept|, j requires 0 <= j < |kept| => kept[j].(involved := Without(kept[j].involved, index))))
  }

  /**
   * What survives `removePerson` as written: exactly the expenses the person
   * did not pay, each with the person dropped from its sharers.
   */
  lemma RemovePersonAsWrittenKeeps(book: Book, index: int)
    ensures var r := RemovePersonAsWritten(book, index);
            && (forall e :: e in book.expenses && e.paidBy != index ==> e.(involved := Without(e.involved, index)) in r.expenses)
            && forall j :: 0 <= j < |r.expenses| ==>
                 exists e :: e in book.expenses && e.paidBy != index && r.expenses[j] == e.(involved := Without(e.involved, index))
  {
    var kept := NotPaidBy(book.expenses, index);
    var r := RemovePersonAsWritten(book, index);
    forall e | e in book.expenses && e.paidBy != index
      ensures e.(involved := Without(e.involved, index)) in r.expenses
    {
      var j :| 0 <= j < |kept| && kept[j] == e;
      assert r.expenses[j] == e.(involved := Without(e.involved, index));
    }
    forall j | 0 <= j < |r.expenses|
      ensures exists e :: e in book.expenses && e.paidBy != index && r.expenses[j] == e.(involved := Without(e.involved, index))
    {
      assert kept[j] in kept;
    }
  }

  /**
   * With three people and one expense shared by all three, removing the
   * middle person leaves the expense naming index 2 in a list of two people.
   */
  lemma RemovePersonDangles()
    ensures var book := Book(["A", "B", "C"], [Expense("Fuel", 0, [0, 1, 2], 300.0, None)]);
            && ValidExpenses(|book.people|, book.expenses)
            && var r := RemovePersonAsWritten(book, 1);
               r.expenses[0].involved == [0, 2] && !ValidExpenses(|r.people|, r.expenses)
  {
    var fuel := Expense("Fuel", 0, [0, 1, 2], 300.0, None);
    var book := Book(["A", "B", "C"], [fuel]);
    assert ValidExpense(3, fuel);
    DropMiddle();
    KeepFuel(fuel);
    var r := RemovePersonAsWritten(book, 1);
    assert r.expenses[0].involved == [0, 2];
    assert r.expenses[0].involved[1] == 2;
  }

  lemma DropMiddle()
    ensures Without([0, 1, 2], 1) == [0, 2]
  {
    WithoutAppend([0], [1], 1);
    WithoutAppend([0, 1], [2], 1);
    WithoutAppend([], [0], 1);
    assert [0] + [1] == [0, 1] && [0, 1] + [2] == [0, 1, 2] && [] + [0] == [0];
  }

  lemma KeepFuel(fuel: Expense)
    requires fuel.paidBy == 0
    ensures NotPaidBy([fuel], 1) == [fuel]
  {
    NotPaidBySingle(fuel, 1);
  }

  /** The index a person at `ix` has once the person at `index` is removed. */
  function Renumber(ix: int, index: int): int {
    if ix > index then ix - 1 else ix
  }

  /** A remaining person keeps the name under the renumbered index. */
  lemma RenumberKeepsName(people: seq<string>, index: int, ix: int)
    requires 0 <= index < |people| && 0 <= ix < |people| && ix != index
    ensures 0 <= Renumber(ix, index) < |people| - 1
    ensures FilterIndex(people, index)[Renumber(ix, index)] == people[ix]
  {
  }

  /** One expense after removing the person at `index`, with every later index moved down by one. */
  function RenumberExpense(e: Expense, index: int): Expense {
    var w := Without(e.involved, index);
    e.(paidBy := Renumber(e.paidBy, index),
       involved := seq(|w|, k requires 0 <= k < |w| => Renumber(w[k], index)))
  }

  /** `removePerson` with the indices renumbered, so that every index still names the same person. */
  function RemovePerson(book: Book, index: int): (r: Book)
    ensures |r.people| == (if 0 <= index < |book.people| then |book.people| - 1 else |book.people|)
    ensures |r.expenses| == |NotPaidBy(book.expenses, index)|
  {
    var kept := NotPaidBy(book.expenses, index);
    Book(FilterIndex(book.people, index),
         seq(|kept|, j requires 0 <= j < |kept| => RenumberExpense(kept[j], index)))
  }

  /**
   * An expense that survives the removal still names the same payer and the
   * same sharers, less the removed person, and stays valid.
   */
  lemma RenumberExpenseKeeps(people: seq<string>, e: Expense, index: int)
    requires ValidExpense(|people|, e) && 0 <= index < |people| && e.paidBy != index
    ensures var r := RenumberExpense(e, index);
            var w := Without(e.involved, index);
            && ValidExpense(|people| - 1, r)
            && FilterIndex(people, index)[r.paidBy] == people[e.paidBy]
            && |r.involved| == |w|
            && forall k :: 0 <= k < |w| ==> FilterIndex(people, index)[r.involved[k]] == people[w[k]]
  {
    var r := RenumberExpense(e, index);
    var w := Without(e.involved, index);
    RenumberKeepsName(people, index, e.paidBy);
    forall k | 0 <= k < |w|
      ensures 0 <= r.involved[k] < |people| - 1 && FilterIndex(people, index)[r.involved[k]] == people[w[k]]
    {
      assert w[k] in e.involved;
      RenumberKeepsName(people, index, w[k]);
    }
  }

  /**
   * After the corrected removal every expense is valid for the shorter list,
   * and the expenses are exactly the renumbered expenses the removed person
   * did not pay (`RenumberExpenseKeeps`: each still names the same people).
   */
  lemma RemovePersonValid(book: Book, index: int)
    requires ValidExpenses(|book.people|, book.expenses) && 0 <= index < |book.people|
    ensures var r := RemovePerson(book, index);
            && ValidExpenses(|r.people|, r.expenses)
            && (forall e :: e in book.expenses && e.paidBy != index ==> RenumberExpense(e, index) in r.expenses)
            && forall j :: 0 <= j < |r.expenses| ==>
                 exists e :: e in book.expenses && e.paidBy != index && r.expenses[j] == RenumberExpense(e, index)
  {
    var kept := NotPaidBy(book.expenses, index);
    var r := RemovePerson(book, index);
    forall j | 0 <= j < |r.expenses|
      ensures ValidExpense(|r.people|, r.expenses[j])
    {
      assert kept[j] in kept;
      RenumberExpenseKeeps(book.people, kept[j], index);
    }
    forall j | 0 <= j < |r.expenses|
      ensures exists e :: e in book.expenses && e.paidBy != index && r.expenses[j] == RenumberExpense(e, index)
    {
      assert kept[j] in kept;
    }
    assert forall j :: 0 <= j < |r.expenses| ==>
                 exists e :: e in book.expenses && e.paidBy != index && r.expenses[j] == RenumberExpense(e, index);
    forall e | e in book.expenses && e.paidBy != index
      ensures RenumberExpense(e, index) in r.expenses
    {
      var j :| 0 <= j < |kept| && kept[j] == e;
      assert r.expenses[j] == RenumberExpense(e, index);
    }
  }

  /**
   * Both removals keep the percentages (`...e`) while shortening the sharers,
   * so an expense split by percentage that named the removed person falls
   * back to equal parts.
   */
  lemma RemovalDropsPercentages(e: Expense, index: int)
    requires HasUsablePercentages(e) && index in e.involved
    ensures !HasUsablePercentages(e.(involved := Without(e.involved, index)))
    ensures !HasUsablePercentages(RenumberExpense(e, index))
  {
  }

  // ----- Expenses -----

  /** `removeExpense`: the list without the expense at `index`. */
  function RemoveExpense(expenses: seq<Expense>, index: int): seq<Expense> {
    FilterIndex(expenses, index)
  }

  lemma {:induction false} PaidAppend(p: int, a: seq<Expense>, b: seq<Expense>)
    ensures Paid(p, a + b) == Paid(p, a) + Paid(p, b)
    decreases |b|
  {
    if b != [] {
      var n := |b| - 1;
      assert (a + b)[..|a + b| - 1] == a + b[..n];
      PaidAppend(p, a, b[..n]);
    } else {
      assert a + b == a;
    }
  }

  lemma {:induction false} OwedAppend(p: int, a: seq<Expense>, b: seq<Expense>)
    ensures Owed(p, a + b) == Owed(p, a) + Owed(p, b)
    decreases |b|
  {
    if b != [] {
      var n := |b| - 1;
      assert (a + b)[..|a + b| - 1] == a + b[..n];
      OwedAppend(p, a, b[..n]);
    } else {
      assert a + b == a;
    }
  }

  /** What one expense adds to a person's balance. */
  function Effect(p: int, e: Expense): real {
    (if e.paidBy == p then e.amount else 0.0) - OwedAt(p, e.involved, Shares(e))
  }

  /** Removing an expense keeps the rest valid and takes exactly that expense's effect off every balance. */
  lemma RemoveExpenseUndoes(count: nat, expenses: seq<Expense>, index: nat, p: int)
    requires ValidExpenses(count, expenses) && index < |expenses| && 0 <= p < count
    ensures ValidExpenses(count, RemoveExpense(expenses, index))
    ensures Balances(count, RemoveExpense(expenses, index))[p]
            == Balances(count, expenses)[p] - Effect(p, expenses[index])
  {
    var before, e, after := expenses[..index], expenses[index], expenses[index + 1..];
    var r := RemoveExpense(expenses, index);
    assert r == before + after;
    assert expenses == (before + [e]) + after;
    assert ValidExpenses(count, r);
    BalanceOf(count, expenses, p);
    BalanceOf(count, r, p);
    PaidAppend(p, before + [e], after);
    OwedAppend(p, before + [e], after);
    PaidAppend(p, before, after);
    OwedAppend(p, before, after);
    assert (before + [e])[..|before|] == before;
  }

  /** The add-expense button is enabled unless `a <= 0` or nobody shares the expense. */
  predicate CanAddExpense(draft: Expense) {
    !(draft.amount <= 0.0 || |draft.involved| == 0)
  }

  /** `people.map((_, i) => i)`: everybody, in order. */
  function Everyone(count: nat): (r: seq<int>)
    ensures |r| == count && forall k :: 0 <= k < count ==> r[k] == k
  {
    seq(count, k => k)
  }

  /** The form's initial draft, and the one `addExpense` resets it to: no name, no amount, shared by everyone. */
  function NewDraft(count: nat): Expense {
    Expense("", 0, Everyone(count), 0.0, None)
  }

  /**
   * The effect that runs when the people change (`{ ...newExpense, i, pb: 0 }`):
   * the draft keeps what was typed and is shared by everyone and paid by person 0.
   */
  function ResetSharers(draft: Expense, count: nat): (r: Expense)
    ensures r.name == draft.name && r.amount == draft.amount && r.percentages == draft.percentages
    ensures r.paidBy == 0 && r.involved == Everyone(count)
  {
    draft.(involved := Everyone(count), paidBy := 0)
  }

  /**
   * After the people change, the draft names only people who exist, and the
   * button accepts it exactly when an amount above 0 was typed and there is
   * anyone to share it.
   */
  lemma ResetSharersGuarded(draft: Expense, count: nat)
    ensures count > 0 ==> ValidExpense(count, ResetSharers(draft, count))
    ensures CanAddExpense(ResetSharers(draft, count)) <==> draft.amount > 0.0 && count > 0
  {
  }

  /** `addExpense`: the draft is appended, and the form is reset to a fresh draft. */
  function AddExpense(expenses: seq<Expense>, draft: Expense, count: nat): (r: (seq<Expense>, Expense))
    ensures |r.0| == |expenses| + 1 && r.0[..|expenses|] == expenses && r.0[|expenses|] == draft
  {
    (expenses + [draft], NewDraft(count))
  }

  /** A fresh draft cannot be added until an amount is entered, and it only names people who exist. */
  lemma NewDraftGuarded(count: nat)
    ensures !CanAddExpense(NewDraft(count))
    ensures count > 0 ==> ValidExpense(count, NewDraft(count))
  {
  }

  /**
   * Adding a draft the guard accepts (and the form never sets percentages)
   * keeps the balances summing to zero.
   */
  lemma AddExpenseKeepsZeroSum(count: nat, expenses: seq<Expense>, draft: Expense)
    requires ValidExpenses(count, expenses) && ValidExpense(count, draft)
    requires forall j :: 0 <= j < |expenses| ==> IsBalanced(expenses[j])
    requires CanAddExpense(draft) && draft.percentages.None?
    ensures ValidExpenses(count, AddExpense(expenses, draft, count).0)
    ensures Sum(Balances(count, AddExpense(expenses, draft, count).0)) == 0.0
  {
    var r := AddExpense(expenses, draft, count).0;
    assert forall j :: 0 <= j < |r| ==> r[j] == (if j < |expenses| then expenses[j] else draft);
    ZeroSum(count, r);
  }
}
