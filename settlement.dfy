/**
 * src/App.tsx: the `settlements` computation. Positive balances become
 * creditors and negative ones debtors; each list is sorted by amount,
 * largest first; then a loop with one cursor per list transfers the smaller
 * of the two current remainders from the current debtor to the current
 * creditor and advances past whichever remainder reached exactly zero.
 */
module Settlement {
  import opened Ledger

  /** `{ name, amount }`: a creditor's or debtor's name and remaining amount. */
  datatype Entry = Entry(name: string, amount: real)

  /** `{ from, to, amount }`: the debtor pays the creditor. */
  datatype Transfer = Transfer(from: string, to: string, amount: real)

  /** One round of the matching loop: the creditor's and debtor's positions and the transfer. */
  datatype Step = Step(creditor: nat, debtor: nat, transfer: Transfer)

  function Total(entries: seq<Entry>): real {
    if entries == [] then 0.0 else entries[0].amount + Total(entries[1..])
  }

  predicate AllPositive(entries: seq<Entry>) {
    forall k :: 0 <= k < |entries| ==> entries[k].amount > 0.0
  }

  // ----- Partition (src/App.tsx:91-94) -----

  /** The creditors, in person order: `{ people[i], b }` for every balance `b > 0`. */
  function Creditors(balances: seq<real>, people: seq<string>): (creditors: seq<Entry>)
    requires |balances| == |people|
    ensures AllPositive(creditors)
  {
    if balances == [] then []
    else
      var n := |balances| - 1;
      Creditors(balances[..n], people[..n])
        + (if balances[n] > 0.0 then [Entry(people[n], balances[n])] else [])
  }

  /** The debtors, in person order: `{ people[i], -b }` for every balance `b < 0`. */
  function Debtors(balances: seq<real>, people: seq<string>): (debtors: seq<Entry>)
    requires |balances| == |people|
    ensures AllPositive(debtors)
  {
    if balances == [] then []
    else
      var n := |balances| - 1;
      Debtors(balances[..n], people[..n])
        + (if balances[n] < 0.0 then [Entry(people[n], -balances[n])] else [])
  }

  /** The number of balances that are not zero. */
  function NonZeroCount(balances: seq<real>): nat {
    if balances == [] then 0
    else
      var n := |balances| - 1;
      NonZeroCount(balances[..n]) + (if balances[n] != 0.0 then 1 else 0)
  }

  lemma {:induction false} TotalAppend(a: seq<Entry>, b: seq<Entry>)
    ensures Total(a + b) == Total(a) + Total(b)
    decreases |a|
  {
    if a == [] {
      assert a + b == b;
    } else {
      assert (a + b)[0] == a[0] && (a + b)[1..] == a[1..] + b;
      TotalAppend(a[1..], b);
    }
  }

  lemma PartitionStep(balances: seq<real>, people: seq<string>)
    requires |balances| == |people| && balances != []
    ensures var n := |balances| - 1;
            var b := balances[n];
            && Creditors(balances, people)
               == Creditors(balances[..n], people[..n]) + (if b > 0.0 then [Entry(people[n], b)] else [])
            && Debtors(balances, people)
               == Debtors(balances[..n], people[..n]) + (if b < 0.0 then [Entry(people[n], -b)] else [])
            && Sum(balances) == Sum(balances[..n]) + b
  {
  }

  /** What the creditors are owed minus what the debtors owe is the sum of the balances. */
  lemma {:induction false} PartitionTotal(balances: seq<real>, people: seq<string>)
    requires |balances| == |people|
    ensures Total(Creditors(balances, people)) - Total(Debtors(balances, people)) == Sum(balances)
    decreases |balances|
  {
    if balances != [] {
      var n := |balances| - 1;
      var b := balances[n];
      var creditors, debtors := Creditors(balances[..n], people[..n]), Debtors(balances[..n], people[..n]);
      PartitionTotal(balances[..n], people[..n]);
      PartitionStep(balances, people);
      if b > 0.0 {
        TotalAppend(creditors, [Entry(people[n], b)]);
        assert debtors + [] == debtors;
      } else if b < 0.0 {
        TotalAppend(debtors, [Entry(people[n], -b)]);
        assert creditors + [] == creditors;
      } else {
        assert creditors + [] == creditors && debtors + [] == debtors;
      }
    }
  }

  /** Every balance that is not zero gives exactly one entry, and a zero balance none. */
  lemma {:induction false} PartitionCount(balances: seq<real>, people: seq<string>)
    requires |balances| == |people|
    ensures |Creditors(balances, people)| + |Debtors(balances, people)| == NonZeroCount(balances)
    decreases |balances|
  {
    if balances != [] {
      var n := |balances| - 1;
      PartitionCount(balances[..n], people[..n]);
    }
  }

  /** A positive balance `b` of person `k` gives the creditor `{ people[k], b }`. */
  lemma {:induction false} CreditorOf(balances: seq<real>, people: seq<string>, k: int)
    requires |balances| == |people| && 0 <= k < |balances| && balances[k] > 0.0
    ensures Entry(people[k], balances[k]) in Creditors(balances, people)
    decreases |balances|
  {
    var n := |balances| - 1;
    if k < n {
      CreditorOf(balances[..n], people[..n], k);
    }
  }

  /** Every creditor is `{ people[k], b }` for a positive balance `b` of some person `k`. */
  lemma {:induction false} CreditorFrom(balances: seq<real>, people: seq<string>, e: Entry)
    requires |balances| == |people| && e in Creditors(balances, people)
    ensures exists k :: 0 <= k < |balances| && balances[k] > 0.0 && e == Entry(people[k], balances[k])
    decreases |balances|
  {
    var n := |balances| - 1;
    if e in Creditors(balances[..n], people[..n]) {
      CreditorFrom(balances[..n], people[..n], e);
      var k :| 0 <= k < n && balances[..n][k] > 0.0 && e == Entry(people[..n][k], balances[..n][k]);
      assert balances[k] > 0.0 && e == Entry(people[k], balances[k]);
    } else {
      assert balances[n] > 0.0 && e == Entry(people[n], balances[n]);
    }
  }

  /** A negative balance `b` of person `k` gives the debtor `{ people[k], -b }`. */
  lemma {:induction false} DebtorOf(balances: seq<real>, people: seq<string>, k: int)
    requires |balances| == |people| && 0 <= k < |balances| && balances[k] < 0.0
    ensures Entry(people[k], -balances[k]) in Debtors(balances, people)
    decreases |balances|
  {
    var n := |balances| - 1;
    if k < n {
      DebtorOf(balances[..n], people[..n], k);
    }
  }

  /** Every debtor is `{ people[k], -b }` for a negative balance `b` of some person `k`. */
  lemma {:induction false} DebtorFrom(balances: seq<real>, people: seq<string>, e: Entry)
    requires |balances| == |people| && e in Debtors(balances, people)
    ensures exists k :: 0 <= k < |balances| && balances[k] < 0.0 && e == Entry(people[k], -balances[k])
    decreases |balances|
  {
    var n := |balances| - 1;
    if e in Debtors(balances[..n], people[..n]) {
      DebtorFrom(balances[..n], people[..n], e);
      var k :| 0 <= k < n && balances[..n][k] < 0.0 && e == Entry(people[..n][k], -balances[..n][k]);
      assert balances[k] < 0.0 && e == Entry(people[k], -balances[k]);
    } else {
      assert balances[n] < 0.0 && e == Entry(people[n], -balances[n]);
    }
  }

  // ----- Sorting (src/App.tsx:96-97) -----

  /**
   * `sort((a, b) => b.amount - a.amount)`, a stable sort, written as an
   * insertion sort: `x` goes after every entry whose amount is at least its own.
   */
  function Insert(x: Entry, sorted: seq<Entry>): (r: seq<Entry>)
    ensures |r| == |sorted| + 1
  {
    if sorted == [] then [x]
    else if sorted[0].amount < x.amount then [x] + sorted
    else [sorted[0]] + Insert(x, sorted[1..])
  }

  function SortDescending(entries: seq<Entry>): (r: seq<Entry>)
    ensures |r| == |entries|
  {
    if entries == [] then []
    else
      var n := |entries| - 1;
      Insert(entries[n], SortDescending(entries[..n]))
  }

  predicate IsSortedDescending(entries: seq<Entry>) {
    forall i, j :: 0 <= i < j < |entries| ==> entries[i].amount >= entries[j].amount
  }

  /** The entries whose amount is `v`, in order. */
  function WithAmount(entries: seq<Entry>, v: real): seq<Entry> {
    if entries == [] then []
    else (if entries[0].amount == v then [entries[0]] else []) + WithAmount(entries[1..], v)
  }

  predicate AtMost(entries: seq<Entry>, bound: real) {
    forall k :: 0 <= k < |entries| ==> entries[k].amount <= bound
  }

  lemma {:induction false} InsertAtMost(x: Entry, sorted: seq<Entry>, bound: real)
    requires AtMost(sorted, bound) && x.amount <= bound
    ensures AtMost(Insert(x, sorted), bound)
    decreases |sorted|
  {
    if sorted != [] && sorted[0].amount >= x.amount {
      InsertAtMost(x, sorted[1..], bound);
    }
  }

  lemma {:induction false} InsertSorted(x: Entry, sorted: seq<Entry>)
    requires IsSortedDescending(sorted)
    ensures IsSortedDescending(Insert(x, sorted))
    decreases |sorted|
  {
    if sorted != [] && sorted[0].amount >= x.amount {
      var rest := Insert(x, sorted[1..]);
      InsertSorted(x, sorted[1..]);
      InsertAtMost(x, sorted[1..], sorted[0].amount);
      var r := [sorted[0]] + rest;
      assert forall k :: 1 <= k < |r| ==> r[k] == rest[k - 1];
    }
  }

  lemma {:induction false} InsertMultiset(x: Entry, sorted: seq<Entry>)
    ensures multiset(Insert(x, sorted)) == multiset(sorted) + multiset{x}
    decreases |sorted|
  {
    if sorted != [] && sorted[0].amount >= x.amount {
      InsertMultiset(x, sorted[1..]);
      assert sorted == [sorted[0]] + sorted[1..];
    }
  }

  /** The sort orders the entries by amount, largest first. */
  lemma {:induction false} SortDescendingSorted(entries: seq<Entry>)
    ensures IsSortedDescending(SortDescending(entries))
    decreases |entries|
  {
    if entries != [] {
      var n := |entries| - 1;
      SortDescendingSorted(entries[..n]);
      InsertSorted(entries[n], SortDescending(entries[..n]));
    }
  }

  /** The sort keeps every entry: the result is a permutation of its input. */
  lemma {:induction false} SortDescendingPermutes(entries: seq<Entry>)
    ensures multiset(SortDescending(entries)) == multiset(entries)
    decreases |entries|
  {
    if entries != [] {
      var n := |entries| - 1;
      SortDescendingPermutes(entries[..n]);
      InsertMultiset(entries[n], SortDescending(entries[..n]));
      MultisetLast(entries);
    }
  }

  lemma MultisetLast(entries: seq<Entry>)
    requires entries != []
    ensures multiset(entries) == multiset(entries[..|entries| - 1]) + multiset{entries[|entries| - 1]}
  {
    var n := |entries| - 1;
    assert entries == entries[..n] + [entries[n]];
  }

  lemma {:induction false} WithAmountAppend(a: seq<Entry>, b: seq<Entry>, v: real)
    ensures WithAmount(a + b, v) == WithAmount(a, v) + WithAmount(b, v)
    decreases |a|
  {
    if a == [] {
      assert a + b == b;
    } else {
      var head := if a[0].amount == v then [a[0]] else [];
      assert (a + b)[0] == a[0] && (a + b)[1..] == a[1..] + b;
      WithAmountAppend(a[1..], b, v);
      calc {
        WithAmount(a + b, v);
        head + WithAmount(a[1..] + b, v);
        head + (WithAmount(a[1..], v) + WithAmount(b, v));
        (head + WithAmount(a[1..], v)) + WithAmount(b, v);
      }
    }
  }

  lemma {:induction false} WithAmountBelow(entries: seq<Entry>, v: real)
    requires forall k :: 0 <= k < |entries| ==> entries[k].amount < v
    ensures WithAmount(entries, v) == []
    decreases |entries|
  {
    if entries != [] {
      WithAmountBelow(entries[1..], v);
    }
  }

  lemma {:induction false} InsertStable(x: Entry, sorted: seq<Entry>, v: real)
    requires IsSortedDescending(sorted)
    ensures WithAmount(Insert(x, sorted), v)
            == WithAmount(sorted, v) + (if x.amount == v then [x] else [])
    decreases |sorted|
  {
    if sorted == [] {
    } else if sorted[0].amount < x.amount {
      if x.amount == v {
        WithAmountBelow(sorted, v);
      }
      assert ([x] + sorted)[1..] == sorted;
    } else {
      InsertStable(x, sorted[1..], v);
      assert ([sorted[0]] + Insert(x, sorted[1..]))[1..] == Insert(x, sorted[1..]);
    }
  }

  /** Stability: entries with the same amount keep their order. */
  lemma {:induction false} SortDescendingStable(entries: seq<Entry>, v: real)
    ensures WithAmount(SortDescending(entries), v) == WithAmount(entries, v)
    decreases |entries|
  {
    if entries != [] {
      var n := |entries| - 1;
      SortDescendingStable(entries[..n], v);
      SortDescendingSorted(entries[..n]);
      InsertStable(entries[n], SortDescending(entries[..n]), v);
      assert entries == entries[..n] + [entries[n]];
      WithAmountAppend(entries[..n], [entries[n]], v);
    }
  }

  lemma {:induction false} InsertTotal(x: Entry, sorted: seq<Entry>)
    ensures Total(Insert(x, sorted)) == x.amount + Total(sorted)
    decreases |sorted|
  {
    if sorted != [] && sorted[0].amount >= x.amount {
      InsertTotal(x, sorted[1..]);
      assert ([sorted[0]] + Insert(x, sorted[1..]))[1..] == Insert(x, sorted[1..]);
    } else if sorted != [] {
      assert ([x] + sorted)[1..] == sorted;
    }
  }

  lemma {:induction false} SortDescendingTotal(entries: seq<Entry>)
    ensures Total(SortDescending(entries)) == Total(entries)
    decreases |entries|
  {
    if entries != [] {
      var n := |entries| - 1;
      SortDescendingTotal(entries[..n]);
      InsertTotal(entries[n], SortDescending(entries[..n]));
      assert entries == entries[..n] + [entries[n]];
      TotalAppend(entries[..n], [entries[n]]);
    }
  }

  lemma SortDescendingPositive(entries: seq<Entry>)
    requires AllPositive(entries)
    ensures AllPositive(SortDescending(entries))
  {
    SortDescendingPermutes(entries);
    var sorted := SortDescending(entries);
    forall k | 0 <= k < |sorted| ensures sorted[k].amount > 0.0 {
      assert sorted[k] in multiset(entries);
    }
  }

  // ----- The matching loop (src/App.tsx:99-118) -----

  /** `Math.min`. */
  function Min(a: real, b: real): (m: real)
    ensures m <= a && m <= b && (m == a || m == b)
  {
    if a <= b then a else b
  }

  /** The remaining entries after `amount` is taken from the first one; it is passed when it reaches zero. */
  function Remaining(entries: seq<Entry>, amount: real): seq<Entry>
    requires entries != []
  {
    var rest := entries[0].amount - amount;
    if rest == 0.0 then entries[1..] else [entries[0].(amount := rest)] + entries[1..]
  }

  /** The cursor after a round: `if (x.amount === 0) i++`. */
  function Advance(entries: seq<Entry>, amount: real, i: nat): nat
    requires entries != []
  {
    if entries[0].amount - amount == 0.0 then i + 1 else i
  }

  /**
   * The rounds of the loop from the creditors `cs` and debtors `ds` still to
   * be matched, whose first entries are at positions `c` and `d`.
   */
  function Match(cs: seq<Entry>, ds: seq<Entry>, c: nat, d: nat): seq<Step>
    decreases |cs| + |ds|
  {
    if cs == [] || ds == [] then []
    else
      var amount := Min(cs[0].amount, ds[0].amount);
      var c' := Advance(cs, amount, c);
      var d' := Advance(ds, amount, d);
      [Step(c, d, Transfer(ds[0].name, cs[0].name, amount))]
        + Match(Remaining(cs, amount), Remaining(ds, amount), c', d')
  }

  /** The transfers the rounds emit, in order. */
  function Transfers(steps: seq<Step>): (txns: seq<Transfer>)
    ensures |txns| == |steps|
  {
    if steps == [] then [] else Transfers(steps[..|steps| - 1]) + [steps[|steps| - 1].transfer]
  }

  function SortedCreditors(balances: seq<real>, people: seq<string>): seq<Entry>
    requires |balances| == |people|
  {
    SortDescending(Creditors(balances, people))
  }

  function SortedDebtors(balances: seq<real>, people: seq<string>): seq<Entry>
    requires |balances| == |people|
  {
    SortDescending(Debtors(balances, people))
  }

  /** The rounds of the loop over the sorted creditors and debtors. */
  function Rounds(balances: seq<real>, people: seq<string>): seq<Step>
    requires |balances| == |people|
  {
    Match(SortedCreditors(balances, people), SortedDebtors(balances, people), 0, 0)
  }

  /** The transfers `settlements` returns. */
  function Plan(balances: seq<real>, people: seq<string>): seq<Transfer>
    requires |balances| == |people|
  {
    Transfers(Rounds(balances, people))
  }

  lemma MatchUnfold(cs: seq<Entry>, ds: seq<Entry>, c: nat, d: nat)
    requires cs != [] && ds != []
    ensures var amount := Min(cs[0].amount, ds[0].amount);
            Match(cs, ds, c, d)
            == [Step(c, d, Transfer(ds[0].name, cs[0].name, amount))]
               + Match(Remaining(cs, amount), Remaining(ds, amount),
                       Advance(cs, amount, c),
                       Advance(ds, amount, d))
  {
  }

  lemma TransfersSnoc(steps: seq<Step>, step: Step)
    ensures Transfers(steps + [step]) == Transfers(steps) + [step.transfer]
  {
    assert (steps + [step])[..|steps|] == steps;
  }

  /** Taking `amount` from the entry at `i` leaves `Remaining` from the cursor that follows. */
  method TakeFrom(entries: array<Entry>, i: nat, amount: real) returns (next: nat)
    requires i < entries.Length
    modifies entries
    ensures next == Advance(old(entries[i..]), amount, i)
    ensures entries[next..] == Remaining(old(entries[i..]), amount)
    ensures entries[..i] == old(entries[..i])
  {
    ghost var suffix := entries[i..];
    entries[i] := entries[i].(amount := entries[i].amount - amount);
    if entries[i].amount == 0.0 {
      assert entries[i + 1..] == suffix[1..];
      next := i + 1;
    } else {
      assert entries[i..] == [entries[i]] + suffix[1..];
      next := i;
    }
  }

  /** One round of the loop (src/App.tsx:105-115): emit a transfer, take it from both sides, advance. */
  method Round(credit: array<Entry>, debt: array<Entry>, ci: nat, di: nat)
      returns (transfer: Transfer, ci': nat, di': nat)
    requires credit != debt && ci < credit.Length && di < debt.Length
    modifies credit, debt
    ensures ci <= ci' <= credit.Length && di <= di' <= debt.Length && ci + di < ci' + di'
    ensures old(Match(credit[ci..], debt[di..], ci, di))
            == [Step(ci, di, transfer)] + Match(credit[ci'..], debt[di'..], ci', di')
    ensures credit[..ci] == old(credit[..ci]) && debt[..di] == old(debt[..di])
  {
    ghost var cs, ds := credit[ci..], debt[di..];
    var amount := Min(credit[ci].amount, debt[di].amount);
    transfer := Transfer(debt[di].name, credit[ci].name, amount);
    MatchUnfold(cs, ds, ci, di);
    ci' := TakeFrom(credit, ci, amount);
    di' := TakeFrom(debt, di, amount);
  }

  /** The `while` loop of src/App.tsx:104-116 over the sorted lists. */
  method MatchLoop(creditors: seq<Entry>, debtors: seq<Entry>) returns (txns: seq<Transfer>)
    ensures txns == Transfers(Match(creditors, debtors, 0, 0))
  {
    var credit := new Entry[|creditors|](k requires 0 <= k < |creditors| => creditors[k]);
    var debt := new Entry[|debtors|](k requires 0 <= k < |debtors| => debtors[k]);
    assert credit[0..] == creditors && debt[0..] == debtors;
    ghost var steps: seq<Step> := [];
    txns := [];
    var ci, di := 0, 0;
    while ci < credit.Length && di < debt.Length
      invariant 0 <= ci <= credit.Length && 0 <= di <= debt.Length
      invariant steps + Match(credit[ci..], debt[di..], ci, di) == Match(creditors, debtors, 0, 0)
      invariant txns == Transfers(steps)
      decreases credit.Length - ci + debt.Length - di
    {
      var transfer, ci', di' := Round(credit, debt, ci, di);
      ghost var step := Step(ci, di, transfer);
      ghost var rest := Match(credit[ci'..], debt[di'..], ci', di');
      assert steps + ([step] + rest) == (steps + [step]) + rest;
      TransfersSnoc(steps, step);
      steps := steps + [step];
      txns := txns + [transfer];
      ci, di := ci', di';
    }
    assert |credit[ci..]| == 0 || |debt[di..]| == 0;
    assert steps + [] == steps;
  }

  /** The `forEach` of src/App.tsx:91-94. */
  method Partition(balances: seq<real>, people: seq<string>) returns (creditors: seq<Entry>, debtors: seq<Entry>)
    requires |balances| == |people|
    ensures creditors == Creditors(balances, people) && debtors == Debtors(balances, people)
  {
    creditors, debtors := [], [];
    for i := 0 to |balances|
      invariant creditors == Creditors(balances[..i], people[..i])
      invariant debtors == Debtors(balances[..i], people[..i])
    {
      assert balances[..i + 1][..i] == balances[..i] && people[..i + 1][..i] == people[..i];
      var b := balances[i];
      if b > 0.0 {
        creditors := creditors + [Entry(people[i], b)];
      } else if b < 0.0 {
        debtors := debtors + [Entry(people[i], -b)];
      }
    }
    assert balances[..|balances|] == balances && people[..|people|] == people;
  }

  /** `settlements` (src/App.tsx:87-119). */
  method Settlements(balances: seq<real>, people: seq<string>) returns (txns: seq<Transfer>)
    requires |balances| == |people|
    ensures txns == Plan(balances, people)
  {
    var creditors, debtors := Partition(balances, people);
    creditors := SortDescending(creditors);
    debtors := SortDescending(debtors);
    txns := MatchLoop(creditors, debtors);
  }

  // ----- Properties of the matching -----

  /** What the creditor at position `k` receives over the rounds. */
  function Inflow(steps: seq<Step>, k: nat): real {
    if steps == [] then 0.0
    else (if steps[0].creditor == k then steps[0].transfer.amount else 0.0) + Inflow(steps[1..], k)
  }

  /** What the debtor at position `k` pays over the rounds. */
  function Outflow(steps: seq<Step>, k: nat): real {
    if steps == [] then 0.0
    else (if steps[0].debtor == k then steps[0].transfer.amount else 0.0) + Outflow(steps[1..], k)
  }

  lemma {:induction false} TotalPositive(entries: seq<Entry>)
    requires AllPositive(entries)
    ensures Total(entries) >= 0.0
    ensures entries != [] ==> Total(entries) > 0.0
    decreases |entries|
  {
    if entries != [] {
      TotalPositive(entries[1..]);
    }
  }

  lemma RemainingFacts(entries: seq<Entry>, amount: real)
    requires entries != [] && AllPositive(entries) && 0.0 <= amount <= entries[0].amount
    ensures AllPositive(Remaining(entries, amount))
    ensures Total(Remaining(entries, amount)) == Total(entries) - amount
  {
    var rest := entries[0].amount - amount;
    if rest != 0.0 {
      assert ([entries[0].(amount := rest)] + entries[1..])[1..] == entries[1..];
    }
  }

  /** The rounds only name positions of the lists they were given. */
  lemma {:induction false} MatchWithin(cs: seq<Entry>, ds: seq<Entry>, c: nat, d: nat)
    ensures forall i :: 0 <= i < |Match(cs, ds, c, d)| ==>
              c <= Match(cs, ds, c, d)[i].creditor < c + |cs| && d <= Match(cs, ds, c, d)[i].debtor < d + |ds|
    decreases |cs| + |ds|
  {
    if cs != [] && ds != [] {
      var amount := Min(cs[0].amount, ds[0].amount);
      var c' := Advance(cs, amount, c);
      var d' := Advance(ds, amount, d);
      var cs', ds' := Remaining(cs, amount), Remaining(ds, amount);
      MatchUnfold(cs, ds, c, d);
      MatchWithin(cs', ds', c', d');
    }
  }

  lemma {:induction false} InflowElsewhere(steps: seq<Step>, k: nat)
    requires forall i :: 0 <= i < |steps| ==> steps[i].creditor != k
    ensures Inflow(steps, k) == 0.0
    decreases |steps|
  {
    if steps != [] {
      InflowElsewhere(steps[1..], k);
    }
  }

  lemma {:induction false} OutflowElsewhere(steps: seq<Step>, k: nat)
    requires forall i :: 0 <= i < |steps| ==> steps[i].debtor != k
    ensures Outflow(steps, k) == 0.0
    decreases |steps|
  {
    if steps != [] {
      OutflowElsewhere(steps[1..], k);
    }
  }

  lemma InflowCons(step: Step, rest: seq<Step>, k: nat)
    ensures Inflow([step] + rest, k)
            == (if step.creditor == k then step.transfer.amount else 0.0) + Inflow(rest, k)
  {
    assert ([step] + rest)[1..] == rest;
  }

  lemma OutflowCons(step: Step, rest: seq<Step>, k: nat)
    ensures Outflow([step] + rest, k)
            == (if step.debtor == k then step.transfer.amount else 0.0) + Outflow(rest, k)
  {
    assert ([step] + rest)[1..] == rest;
  }

  /** An entry still present after a round keeps its position, and only the first one changes. */
  lemma RemainingAt(entries: seq<Entry>, amount: real, i: nat, k: nat)
    requires entries != [] && i <= k < i + |entries|
    requires k == i ==> entries[0].amount - amount != 0.0
    ensures var j := Advance(entries, amount, i);
            && j <= k < j + |Remaining(entries, amount)|
            && Remaining(entries, amount)[k - j]
               == (if k == i then entries[0].(amount := entries[0].amount - amount) else entries[k - i])
  {
  }

  /**
   * Conservation for a creditor: it never receives more than it is owed, and
   * exactly that when the creditors' total equals the debtors' total.
   */
  lemma {:induction false} MatchReceives(cs: seq<Entry>, ds: seq<Entry>, c: nat, d: nat, k: nat)
    requires AllPositive(cs) && AllPositive(ds) && c <= k < c + |cs|
    ensures Inflow(Match(cs, ds, c, d), k) <= cs[k - c].amount
    ensures Total(cs) == Total(ds) ==> Inflow(Match(cs, ds, c, d), k) == cs[k - c].amount
    decreases |cs| + |ds|
  {
    if ds == [] {
      TotalPositive(cs);
    } else {
      var amount := Min(cs[0].amount, ds[0].amount);
      var c', d' := Advance(cs, amount, c), Advance(ds, amount, d);
      var cs', ds' := Remaining(cs, amount), Remaining(ds, amount);
      var rest := Match(cs', ds', c', d');
      MatchUnfold(cs, ds, c, d);
      InflowCons(Step(c, d, Transfer(ds[0].name, cs[0].name, amount)), rest, k);
      RemainingFacts(cs, amount);
      RemainingFacts(ds, amount);
      if k == c && c' == c + 1 {
        MatchWithin(cs', ds', c', d');
        InflowElsewhere(rest, k);
      } else {
        RemainingAt(cs, amount, c, k);
        MatchReceives(cs', ds', c', d', k);
      }
    }
  }

  /**
   * Conservation for a debtor: it never pays more than it owes, and exactly
   * that when the creditors' total equals the debtors' total.
   */
  lemma {:induction false} MatchPays(cs: seq<Entry>, ds: seq<Entry>, c: nat, d: nat, k: nat)
    requires AllPositive(cs) && AllPositive(ds) && d <= k < d + |ds|
    ensures Outflow(Match(cs, ds, c, d), k) <= ds[k - d].amount
    ensures Total(cs) == Total(ds) ==> Outflow(Match(cs, ds, c, d), k) == ds[k - d].amount
    decreases |cs| + |ds|
  {
    if cs == [] {
      TotalPositive(ds);
    } else {
      var amount := Min(cs[0].amount, ds[0].amount);
      var c', d' := Advance(cs, amount, c), Advance(ds, amount, d);
      var cs', ds' := Remaining(cs, amount), Remaining(ds, amount);
      var rest := Match(cs', ds', c', d');
      MatchUnfold(cs, ds, c, d);
      OutflowCons(Step(c, d, Transfer(ds[0].name, cs[0].name, amount)), rest, k);
      RemainingFacts(cs, amount);
      RemainingFacts(ds, amount);
      if k == d && d' == d + 1 {
        MatchWithin(cs', ds', c', d');
        OutflowElsewhere(rest, k);
      } else {
        RemainingAt(ds, amount, d, k);
        MatchPays(cs', ds', c', d', k);
      }
    }
  }

  /** Every round moves a positive amount. */
  lemma {:induction false} MatchPositive(cs: seq<Entry>, ds: seq<Entry>, c: nat, d: nat)
    requires AllPositive(cs) && AllPositive(ds)
    ensures forall i :: 0 <= i < |Match(cs, ds, c, d)| ==> Match(cs, ds, c, d)[i].transfer.amount > 0.0
    decreases |cs| + |ds|
  {
    if cs != [] && ds != [] {
      var amount := Min(cs[0].amount, ds[0].amount);
      var c' := Advance(cs, amount, c);
      var d' := Advance(ds, amount, d);
      MatchUnfold(cs, ds, c, d);
      RemainingFacts(cs, amount);
      RemainingFacts(ds, amount);
      MatchPositive(Remaining(cs, amount), Remaining(ds, amount), c', d');
    }
  }

  /** Every round passes at least one cursor, so the rounds are fewer than the entries. */
  lemma {:induction false} MatchCount(cs: seq<Entry>, ds: seq<Entry>, c: nat, d: nat)
    ensures cs == [] || ds == [] ==> Match(cs, ds, c, d) == []
    ensures cs != [] && ds != [] ==> |Match(cs, ds, c, d)| <= |cs| + |ds| - 1
    decreases |cs| + |ds|
  {
    if cs != [] && ds != [] {
      var amount := Min(cs[0].amount, ds[0].amount);
      var c' := Advance(cs, amount, c);
      var d' := Advance(ds, amount, d);
      MatchUnfold(cs, ds, c, d);
      MatchCount(Remaining(cs, amount), Remaining(ds, amount), c', d');
    }
  }

  /** A step names the creditor and debtor at its two positions, counted from `c` and `d`. */
  predicate Names(step: Step, cs: seq<Entry>, ds: seq<Entry>, c: nat, d: nat)
  {
    && c <= step.creditor < c + |cs| && d <= step.debtor < d + |ds|
    && step.transfer.to == cs[step.creditor - c].name
    && step.transfer.from == ds[step.debtor - d].name
  }

  /** Each round pays the named creditor from the named debtor at its two positions. */
  lemma {:induction false} MatchNames(cs: seq<Entry>, ds: seq<Entry>, c: nat, d: nat, i: nat)
    requires i < |Match(cs, ds, c, d)|
    ensures Names(Match(cs, ds, c, d)[i], cs, ds, c, d)
    decreases |cs| + |ds|
  {
    MatchAt(cs, ds, c, d, i);
    if i > 0 {
      var amount := Min(cs[0].amount, ds[0].amount);
      MatchNames(Remaining(cs, amount), Remaining(ds, amount), Advance(cs, amount, c), Advance(ds, amount, d), i - 1);
      NamesKept(cs, ds, c, d, amount, Match(cs, ds, c, d)[i]);
    }
  }

  /** The round at position `i`: the first one, or a round of the rest. */
  lemma MatchAt(cs: seq<Entry>, ds: seq<Entry>, c: nat, d: nat, i: nat)
    requires i < |Match(cs, ds, c, d)|
    ensures cs != [] && ds != []
    ensures var amount := Min(cs[0].amount, ds[0].amount);
            var rest := Match(Remaining(cs, amount), Remaining(ds, amount), Advance(cs, amount, c), Advance(ds, amount, d));
            && (i == 0 ==> Match(cs, ds, c, d)[i] == Step(c, d, Transfer(ds[0].name, cs[0].name, amount)))
            && (i > 0 ==> i - 1 < |rest| && Match(cs, ds, c, d)[i] == rest[i - 1])
  {
    if cs == [] || ds == [] {
      assert false;
    }
    MatchUnfold(cs, ds, c, d);
  }

  /** A step that names positions after a round names the same people before it. */
  lemma NamesKept(cs: seq<Entry>, ds: seq<Entry>, c: nat, d: nat, amount: real, step: Step)
    requires cs != [] && ds != []
    requires Names(step, Remaining(cs, amount), Remaining(ds, amount), Advance(cs, amount, c), Advance(ds, amount, d))
    ensures Names(step, cs, ds, c, d)
  {
    NameKept(cs, amount, c, step.creditor);
    NameKept(ds, amount, d, step.debtor);
  }

  /** A round changes amounts only, never the name at a position. */
  lemma NameKept(entries: seq<Entry>, amount: real, i: nat, k: nat)
    requires entries != []
    requires Advance(entries, amount, i) <= k < Advance(entries, amount, i) + |Remaining(entries, amount)|
    ensures i <= k < i + |entries|
    ensures Remaining(entries, amount)[k - Advance(entries, amount, i)].name == entries[k - i].name
  {
  }

  // ----- Properties of the plan -----

  lemma {:induction false} TransfersAt(steps: seq<Step>, i: nat)
    requires i < |steps|
    ensures Transfers(steps)[i] == steps[i].transfer
    decreases |steps|
  {
    var n := |steps| - 1;
    if i < n {
      TransfersAt(steps[..n], i);
      assert steps[..n][i] == steps[i];
    }
  }

  /** Sorting keeps the entries: each sorted entry is one of the unsorted ones. */
  lemma SortedMember(entries: seq<Entry>, j: nat)
    requires j < |SortDescending(entries)|
    ensures SortDescending(entries)[j] in entries
  {
    SortDescendingPermutes(entries);
    assert SortDescending(entries)[j] in multiset(SortDescending(entries));
  }

  /** An unsorted entry has a position in the sorted list. */
  lemma SortedPosition(entries: seq<Entry>, e: Entry) returns (k: nat)
    requires e in entries
    ensures k < |SortDescending(entries)| && SortDescending(entries)[k] == e
  {
    SortDescendingPermutes(entries);
    assert e in multiset(SortDescending(entries));
    k :| 0 <= k < |SortDescending(entries)| && SortDescending(entries)[k] == e;
  }

  /** The sorted lists hold positive amounts and differ in total by the sum of the balances. */
  lemma SortedFacts(balances: seq<real>, people: seq<string>)
    requires |balances| == |people|
    ensures AllPositive(SortedCreditors(balances, people)) && AllPositive(SortedDebtors(balances, people))
    ensures Total(SortedCreditors(balances, people)) - Total(SortedDebtors(balances, people)) == Sum(balances)
  {
    SortDescendingPositive(Creditors(balances, people));
    SortDescendingPositive(Debtors(balances, people));
    SortDescendingTotal(Creditors(balances, people));
    SortDescendingTotal(Debtors(balances, people));
    PartitionTotal(balances, people);
  }

  /** Every transfer of the plan moves a positive amount. */
  lemma PlanPositive(balances: seq<real>, people: seq<string>)
    requires |balances| == |people|
    ensures forall i :: 0 <= i < |Plan(balances, people)| ==> Plan(balances, people)[i].amount > 0.0
  {
    SortedFacts(balances, people);
    MatchPositive(SortedCreditors(balances, people), SortedDebtors(balances, people), 0, 0);
    forall i | 0 <= i < |Plan(balances, people)|
      ensures Plan(balances, people)[i].amount > 0.0
    {
      TransfersAt(Rounds(balances, people), i);
    }
  }

  /**
   * The plan has fewer transfers than there are people with a non-zero
   * balance; in particular it is empty when everyone is settled.
   */
  lemma PlanCount(balances: seq<real>, people: seq<string>)
    requires |balances| == |people|
    ensures Plan(balances, people) == [] || |Plan(balances, people)| < NonZeroCount(balances)
  {
    PartitionCount(balances, people);
    MatchCount(SortedCreditors(balances, people), SortedDebtors(balances, people), 0, 0);
  }

  /** Every transfer goes from a person with a negative balance to a person with a positive one. */
  lemma PlanParties(balances: seq<real>, people: seq<string>, i: nat)
    requires |balances| == |people| && i < |Plan(balances, people)|
    ensures exists k :: 0 <= k < |balances| && balances[k] < 0.0 && people[k] == Plan(balances, people)[i].from
    ensures exists k :: 0 <= k < |balances| && balances[k] > 0.0 && people[k] == Plan(balances, people)[i].to
  {
    var cs, ds := SortedCreditors(balances, people), SortedDebtors(balances, people);
    var step := Rounds(balances, people)[i];
    TransfersAt(Rounds(balances, people), i);
    MatchNames(cs, ds, 0, 0, i);
    SortedMember(Creditors(balances, people), step.creditor);
    SortedMember(Debtors(balances, people), step.debtor);
    CreditorFrom(balances, people, cs[step.creditor]);
    DebtorFrom(balances, people, ds[step.debtor]);
  }

  /**
   * A person owed money has an entry among the sorted creditors; over the
   * rounds that entry receives at most the balance, and exactly the balance
   * when the balances add up to zero.
   */
  lemma PlanReceives(balances: seq<real>, people: seq<string>, p: nat) returns (k: nat)
    requires |balances| == |people| && p < |balances| && balances[p] > 0.0
    ensures k < |SortedCreditors(balances, people)|
    ensures SortedCreditors(balances, people)[k] == Entry(people[p], balances[p])
    ensures Inflow(Rounds(balances, people), k) <= balances[p]
    ensures Sum(balances) == 0.0 ==> Inflow(Rounds(balances, people), k) == balances[p]
  {
    CreditorOf(balances, people, p);
    k := SortedPosition(Creditors(balances, people), Entry(people[p], balances[p]));
    SortedFacts(balances, people);
    MatchReceives(SortedCreditors(balances, people), SortedDebtors(balances, people), 0, 0, k);
  }

  /**
   * A person who owes money has an entry among the sorted debtors; over the
   * rounds that entry pays at most the debt, and exactly the debt when the
   * balances add up to zero.
   */
  lemma PlanPays(balances: seq<real>, people: seq<string>, p: nat) returns (k: nat)
    requires |balances| == |people| && p < |balances| && balances[p] < 0.0
    ensures k < |SortedDebtors(balances, people)|
    ensures SortedDebtors(balances, people)[k] == Entry(people[p], -balances[p])
    ensures Outflow(Rounds(balances, people), k) <= -balances[p]
    ensures Sum(balances) == 0.0 ==> Outflow(Rounds(balances, people), k) == -balances[p]
  {
    DebtorOf(balances, people, p);
    k := SortedPosition(Debtors(balances, people), Entry(people[p], -balances[p]));
    SortedFacts(balances, people);
    MatchPays(SortedCreditors(balances, people), SortedDebtors(balances, people), 0, 0, k);
  }

  /**
   * End to end: when every expense shares out exactly its amount, each
   * person's balance is settled in full by the plan.
   */
  lemma ExpensesSettle(people: seq<string>, expenses: seq<Expense>, p: nat)
    requires ValidExpenses(|people|, expenses) && p < |people|
    requires forall j :: 0 <= j < |expenses| ==> IsBalanced(expenses[j])
    ensures var bal := Balances(|people|, expenses);
            bal[p] > 0.0 ==>
              exists k :: 0 <= k < |SortedCreditors(bal, people)|
                && SortedCreditors(bal, people)[k] == Entry(people[p], bal[p])
                && Inflow(Rounds(bal, people), k) == bal[p]
    ensures var bal := Balances(|people|, expenses);
            bal[p] < 0.0 ==>
              exists k :: 0 <= k < |SortedDebtors(bal, people)|
                && SortedDebtors(bal, people)[k] == Entry(people[p], -bal[p])
                && Outflow(Rounds(bal, people), k) == -bal[p]
  {
    var bal := Balances(|people|, expenses);
    ZeroSum(|people|, expenses);
    if bal[p] > 0.0 {
      var k := PlanReceives(bal, people, p);
    } else if bal[p] < 0.0 {
      var k := PlanPays(bal, people, p);
    }
  }

  // ----- Conservation per person, by name -----

  /** No two people share a name. */
  predicate DistinctNames(people: seq<string>) {
    forall i, j :: 0 <= i < j < |people| ==> people[i] != people[j]
  }

  /** The amount of the entries under `name`. */
  function TotalOf(entries: seq<Entry>, name: string): real {
    if entries == [] then 0.0
    else (if entries[0].name == name then entries[0].amount else 0.0) + TotalOf(entries[1..], name)
  }

  /** What the transfers pay to `name`. */
  function ReceivedBy(txns: seq<Transfer>, name: string): real {
    if txns == [] then 0.0
    else (if txns[0].to == name then txns[0].amount else 0.0) + ReceivedBy(txns[1..], name)
  }

  /** What the transfers take from `name`. */
  function SentBy(txns: seq<Transfer>, name: string): real {
    if txns == [] then 0.0
    else (if txns[0].from == name then txns[0].amount else 0.0) + SentBy(txns[1..], name)
  }

  lemma {:induction false} TotalOfAppend(a: seq<Entry>, b: seq<Entry>, name: string)
    ensures TotalOf(a + b, name) == TotalOf(a, name) + TotalOf(b, name)
    decreases |a|
  {
    if a == [] {
      assert a + b == b;
    } else {
      assert (a + b)[1..] == a[1..] + b;
      TotalOfAppend(a[1..], b, name);
    }
  }

  lemma {:induction false} TotalOfPositive(entries: seq<Entry>, name: string)
    requires AllPositive(entries)
    ensures TotalOf(entries, name) >= 0.0
    decreases |entries|
  {
    if entries != [] {
      TotalOfPositive(entries[1..], name);
    }
  }

  lemma {:induction false} TotalOfInsert(x: Entry, sorted: seq<Entry>, name: string)
    ensures TotalOf(Insert(x, sorted), name) == (if x.name == name then x.amount else 0.0) + TotalOf(sorted, name)
    decreases |sorted|
  {
    if sorted != [] && sorted[0].amount >= x.amount {
      TotalOfInsert(x, sorted[1..], name);
      assert ([sorted[0]] + Insert(x, sorted[1..]))[1..] == Insert(x, sorted[1..]);
    } else if sorted != [] {
      assert ([x] + sorted)[1..] == sorted;
    }
  }

  /** Sorting keeps the amount under every name. */
  lemma {:induction false} SortDescendingTotalOf(entries: seq<Entry>, name: string)
    ensures TotalOf(SortDescending(entries), name) == TotalOf(entries, name)
    decreases |entries|
  {
    if entries != [] {
      var n := |entries| - 1;
      SortDescendingTotalOf(entries[..n], name);
      TotalOfInsert(entries[n], SortDescending(entries[..n]), name);
      assert entries == entries[..n] + [entries[n]];
      TotalOfAppend(entries[..n], [entries[n]], name);
    }
  }

  lemma TotalOfSingle(e: Entry, name: string)
    ensures TotalOf([e], name) == if e.name == name then e.amount else 0.0
  {
    assert [e][1..] == [];
  }

  /** The amount under a name after one more person is partitioned. */
  lemma PartitionStepOf(balances: seq<real>, people: seq<string>, name: string)
    requires |balances| == |people| && balances != []
    ensures var n := |balances| - 1;
            var b, who := balances[n], people[n];
            && TotalOf(Creditors(balances, people), name)
               == TotalOf(Creditors(balances[..n], people[..n]), name) + (if b > 0.0 && who == name then b else 0.0)
            && TotalOf(Debtors(balances, people), name)
               == TotalOf(Debtors(balances[..n], people[..n]), name) + (if b < 0.0 && who == name then -b else 0.0)
  {
    var n := |balances| - 1;
    var b := balances[n];
    var creditors, debtors := Creditors(balances[..n], people[..n]), Debtors(balances[..n], people[..n]);
    PartitionStep(balances, people);
    var c := if b > 0.0 then [Entry(people[n], b)] else [];
    var d := if b < 0.0 then [Entry(people[n], -b)] else [];
    TotalOfAppend(creditors, c, name);
    TotalOfAppend(debtors, d, name);
    if b > 0.0 { TotalOfSingle(Entry(people[n], b), name); }
    if b < 0.0 { TotalOfSingle(Entry(people[n], -b), name); }
  }

  /** A name nobody has collects no credit and no debt. */
  lemma {:induction false} PartitionAbsent(balances: seq<real>, people: seq<string>, name: string)
    requires |balances| == |people| && name !in people
    ensures TotalOf(Creditors(balances, people), name) == 0.0
    ensures TotalOf(Debtors(balances, people), name) == 0.0
    decreases |balances|
  {
    if balances != [] {
      var n := |balances| - 1;
      assert people[n] in people && name !in people[..n];
      PartitionAbsent(balances[..n], people[..n], name);
      PartitionStepOf(balances, people, name);
    }
  }

  /**
   * With distinct names, the credit under a person's name is the person's
   * positive balance, and the debt under it the person's negative balance.
   */
  lemma {:induction false} PartitionNamed(balances: seq<real>, people: seq<string>, p: nat)
    requires |balances| == |people| && DistinctNames(people) && p < |people|
    ensures TotalOf(Creditors(balances, people), people[p]) == if balances[p] > 0.0 then balances[p] else 0.0
    ensures TotalOf(Debtors(balances, people), people[p]) == if balances[p] < 0.0 then -balances[p] else 0.0
    decreases |balances|
  {
    var n := |balances| - 1;
    var name := people[p];
    PartitionStepOf(balances, people, name);
    if p == n {
      assert name !in people[..n] by {
        forall i | 0 <= i < n ensures people[..n][i] != name {
          assert people[i] != people[n];
        }
      }
      PartitionAbsent(balances[..n], people[..n], name);
    } else {
      assert people[n] != name;
      assert DistinctNames(people[..n]) by {
        forall i, j | 0 <= i < j < n ensures people[..n][i] != people[..n][j] {
          assert people[i] != people[j];
        }
      }
      PartitionNamed(balances[..n], people[..n], p);
      assert people[..n][p] == name && balances[..n][p] == balances[p];
    }
  }

  lemma TransfersCons(step: Step, rest: seq<Step>)
    ensures Transfers([step] + rest) == [step.transfer] + Transfers(rest)
  {
    var all := Transfers([step] + rest);
    forall i | 0 <= i < |all|
      ensures all[i] == ([step.transfer] + Transfers(rest))[i]
    {
      TransfersAt([step] + rest, i);
      if i > 0 {
        TransfersAt(rest, i - 1);
      }
    }
  }

  /** What one round adds to the amounts received and sent under a name. */
  lemma FlowCons(step: Step, rest: seq<Step>, name: string)
    ensures ReceivedBy(Transfers([step] + rest), name)
            == (if step.transfer.to == name then step.transfer.amount else 0.0) + ReceivedBy(Transfers(rest), name)
    ensures SentBy(Transfers([step] + rest), name)
            == (if step.transfer.from == name then step.transfer.amount else 0.0) + SentBy(Transfers(rest), name)
  {
    TransfersCons(step, rest);
    assert ([step.transfer] + Transfers(rest))[1..] == Transfers(rest);
  }

  /** Taking `amount` from the first entry lowers the amount under its name by `amount`. */
  lemma RemainingTotalOf(entries: seq<Entry>, amount: real, name: string)
    requires entries != [] && amount <= entries[0].amount
    ensures TotalOf(Remaining(entries, amount), name)
            == TotalOf(entries, name) - (if entries[0].name == name then amount else 0.0)
  {
    var rest := entries[0].amount - amount;
    if rest != 0.0 {
      assert ([entries[0].(amount := rest)] + entries[1..])[1..] == entries[1..];
    }
  }

  /**
   * Conservation by name: the matching pays every name at most the credit
   * under it and takes from it at most the debt under it, and exactly those
   * when the two totals are equal.
   */
  lemma {:induction false} MatchByName(cs: seq<Entry>, ds: seq<Entry>, c: nat, d: nat, name: string)
    requires AllPositive(cs) && AllPositive(ds)
    ensures ReceivedBy(Transfers(Match(cs, ds, c, d)), name) <= TotalOf(cs, name)
    ensures SentBy(Transfers(Match(cs, ds, c, d)), name) <= TotalOf(ds, name)
    ensures Total(cs) == Total(ds) ==>
              ReceivedBy(Transfers(Match(cs, ds, c, d)), name) == TotalOf(cs, name)
              && SentBy(Transfers(Match(cs, ds, c, d)), name) == TotalOf(ds, name)
    decreases |cs| + |ds|
  {
    if cs == [] || ds == [] {
      assert Transfers(Match(cs, ds, c, d)) == [];
      TotalOfPositive(cs, name);
      TotalOfPositive(ds, name);
      TotalPositive(cs);
      TotalPositive(ds);
    } else {
      var amount := Min(cs[0].amount, ds[0].amount);
      var c', d' := Advance(cs, amount, c), Advance(ds, amount, d);
      var cs', ds' := Remaining(cs, amount), Remaining(ds, amount);
      var step := Step(c, d, Transfer(ds[0].name, cs[0].name, amount));
      MatchUnfold(cs, ds, c, d);
      FlowCons(step, Match(cs', ds', c', d'), name);
      RemainingFacts(cs, amount);
      RemainingFacts(ds, amount);
      RemainingTotalOf(cs, amount, name);
      RemainingTotalOf(ds, amount, name);
      MatchByName(cs', ds', c', d', name);
    }
  }

  /**
   * Per person: with distinct names, the plan pays a person at most the
   * positive balance and takes at most the debt, and when the balances add up
   * to 0 it pays exactly the one and takes exactly the other, so that
   * received minus sent is the person's balance.
   */
  lemma PlanSettlesPerson(balances: seq<real>, people: seq<string>, p: nat)
    requires |balances| == |people| && DistinctNames(people) && p < |people|
    ensures ReceivedBy(Plan(balances, people), people[p]) <= (if balances[p] > 0.0 then balances[p] else 0.0)
    ensures SentBy(Plan(balances, people), people[p]) <= (if balances[p] < 0.0 then -balances[p] else 0.0)
    ensures Sum(balances) == 0.0 ==>
              && ReceivedBy(Plan(balances, people), people[p]) == (if balances[p] > 0.0 then balances[p] else 0.0)
              && SentBy(Plan(balances, people), people[p]) == (if balances[p] < 0.0 then -balances[p] else 0.0)
              && ReceivedBy(Plan(balances, people), people[p]) - SentBy(Plan(balances, people), people[p]) == balances[p]
  {
    var name := people[p];
    SortedFacts(balances, people);
    PartitionNamed(balances, people, p);
    SortDescendingTotalOf(Creditors(balances, people), name);
    SortDescendingTotalOf(Debtors(balances, people), name);
    MatchByName(SortedCreditors(balances, people), SortedDebtors(balances, people), 0, 0, name);
  }

  /**
   * End to end, by name: when the names are distinct and every expense shares
   * out exactly its amount, what each person receives minus what the person
   * sends is the person's balance.
   */
  lemma ExpensesSettleByName(people: seq<string>, expenses: seq<Expense>, p: nat)
    requires ValidExpenses(|people|, expenses) && DistinctNames(people) && p < |people|
    requires forall j :: 0 <= j < |expenses| ==> IsBalanced(expenses[j])
    ensures var bal := Balances(|people|, expenses);
            ReceivedBy(Plan(bal, people), people[p]) - SentBy(Plan(bal, people), people[p]) == bal[p]
  {
    ZeroSum(|people|, expenses);
    PlanSettlesPerson(Balances(|people|, expenses), people, p);
  }

  // ----- A worked case -----

  /** The partition of the worked case: A is owed 200, B and C owe 100 each. */
  lemma ExamplePartition()
    ensures Creditors([200.0, -100.0, -100.0], ["A", "B", "C"]) == [Entry("A", 200.0)]
    ensures Debtors([200.0, -100.0, -100.0], ["A", "B", "C"]) == [Entry("B", 100.0), Entry("C", 100.0)]
  {
    var balances, people := [200.0, -100.0, -100.0], ["A", "B", "C"];
    var b1, p1 := [200.0], ["A"];
    var b2, p2 := [200.0, -100.0], ["A", "B"];
    assert balances[..2] == b2 && people[..2] == p2;
    assert b2[..1] == b1 && p2[..1] == p1;
    assert b1[..0] == [] && p1[..0] == [];
    assert Creditors(b1, p1) == [Entry("A", 200.0)] && Debtors(b1, p1) == [];
    assert Creditors(b2, p2) == [Entry("A", 200.0)] && Debtors(b2, p2) == [Entry("B", 100.0)];
  }

  /** The rounds of the worked case: one creditor meets the two debtors in turn. */
  lemma ExampleMatch()
    ensures Transfers(Match([Entry("A", 200.0)], [Entry("B", 100.0), Entry("C", 100.0)], 0, 0))
            == [Transfer("B", "A", 100.0), Transfer("C", "A", 100.0)]
  {
    var first, second := Transfer("B", "A", 100.0), Transfer("C", "A", 100.0);
    assert Match([Entry("A", 100.0)], [Entry("C", 100.0)], 0, 1) == [Step(0, 1, second)];
    var steps := [Step(0, 0, first), Step(0, 1, second)];
    assert Match([Entry("A", 200.0)], [Entry("B", 100.0), Entry("C", 100.0)], 0, 0) == steps;
    assert steps[..1] == [Step(0, 0, first)] && steps[..1][..0] == [];
  }

  /**
   * One person paid 200 for three: the two debtors of 100 each pay the
   * creditor, in person order, because the stable sort keeps the tie.
   */
  lemma PlanExample()
    ensures Plan([200.0, -100.0, -100.0], ["A", "B", "C"])
            == [Transfer("B", "A", 100.0), Transfer("C", "A", 100.0)]
  {
    var a, b, c := Entry("A", 200.0), Entry("B", 100.0), Entry("C", 100.0);
    ExamplePartition();
    assert SortDescending([a]) == [a];
    assert [b, c][..1] == [b];
    assert SortDescending([b, c]) == Insert(c, [b]) == [b, c];
    ExampleMatch();
  }
}
