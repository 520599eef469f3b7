/** The ledger store of `main.py`: seeding, the two read queries, and
    `add_transaction` with its recompute pass, each SQL statement modelled as
    a pure operation on the table value. */
module Store {
  import opened Ledger

  function Abs(x: int): (r: int)
    ensures r >= 0 && (r == x || r == -x)
  {
    if x < 0 then -x else x
  }

  /** The sign rule of `add_transaction`: a `"Debit"` is stored negative, any
      other type string positive, with the caller's magnitude either way. */
  function Normalize(amount: int, kind: string): (r: int)
    ensures Abs(r) == Abs(amount)
    ensures kind == "Debit" ==> r <= 0
    ensures kind != "Debit" ==> r >= 0
  {
    if kind == "Debit" then -Abs(amount) else Abs(amount)
  }

  /** Seed amounts, in cents. */
  const InitialDeposit: int := 500000
  const FirstExpense: int := -50000

  /** `init_db`: an empty table receives the two fixed seed rows dated
      `today`, under the next two AUTOINCREMENT ids; any other table is left
      as it is. */
  function Init(t: Table, today: string): (r: Table)
    ensures |t.rows| > 0 ==> r == t
    ensures |t.rows| == 0 ==>
      && |r.rows| == 2
      && r.rows[0].amount == 500000 && r.rows[0].balance == 500000
      && r.rows[1].amount == -50000 && r.rows[1].balance == 450000
      && r.rows[0].date == today && r.rows[1].date == today
      && r.rows[0].kind == "Credit" && r.rows[1].kind == "Debit"
      && r.rows[0].description == "Initial deposit" && r.rows[1].description == "First expense"
      && r.rows[0].id == t.lastId + 1 && r.rows[1].id == t.lastId + 2
      && r.lastId == t.lastId + 2
    ensures WellFormed(t) ==> WellFormed(r)
    ensures |t.rows| == 0 ==> Consistent(r.rows)
  {
    if |t.rows| == 0 then
      var deposit := Row(t.lastId + 1, today, "Initial deposit", InitialDeposit, "Credit", InitialDeposit);
      var expense := Row(t.lastId + 2, today, "First expense", FirstExpense, "Debit", InitialDeposit + FirstExpense);
      var rows := [deposit, expense];
      BeforeIrreflexive(deposit);
      BeforeAsymmetric(deposit, expense);
      assert rows[1..] == [expense] && rows[1..][1..] == [];
      assert AtOrBefore(deposit, expense) && !AtOrBefore(expense, deposit);
      assert AmountUpTo([expense], deposit) == 0;
      assert AmountUpTo([expense], expense) == FirstExpense;
      assert AmountUpTo(rows, deposit) == InitialDeposit;
      assert AmountUpTo(rows, expense) == InitialDeposit + FirstExpense;
      Table(rows, t.lastId + 2)
    else
      t
  }

  /** Seeding twice is seeding once: the first call leaves the table non-empty. */
  lemma InitIdempotent(t: Table, today: string, later: string)
    ensures Init(Init(t, today), later) == Init(t, today)
  {
  }

  /** `get_all_transactions`: every row, newest first under `(date, id)`. */
  function ListTransactions(t: Table): (r: seq<Row>)
    ensures multiset(r) == multiset(t.rows)
    ensures UniqueIds(t.rows) ==> forall i, j :: 0 <= i < j < |r| ==> Before(r[j], r[i])
  {
    var r := SortBy(t.rows, Descending);
    if UniqueIds(t.rows) then
      SortedUniqueIsStrict(r, Descending);
      r
    else
      r
  }

  /** The row at `k` is chronologically last: no row comes after it. */
  predicate IsLatest(s: seq<Row>, k: int)
    requires 0 <= k < |s|
  {
    forall j :: 0 <= j < |s| ==> !Before(s[k], s[j])
  }

  /** A chronologically last row of a non-empty table: one that no row
      follows under `(date, id)`. */
  function Latest(s: seq<Row>): (x: Row)
    requires |s| > 0
    ensures x in s
    ensures forall j :: 0 <= j < |s| ==> !Before(x, s[j])
  {
    if |s| == 1 then
      BeforeIrreflexive(s[0]);
      s[0]
    else
      var rest := Latest(s[1..]);
      if Before(s[0], rest) then
        BeforeAsymmetric(s[0], rest);
        assert forall j :: 1 <= j < |s| ==> s[j] == s[1..][j - 1];
        rest
      else
        LatestKeepsFirst(s, rest);
        s[0]
  }

  /** When the first row does not come before the latest of the others, no
      row comes after the first row. */
  lemma LatestKeepsFirst(s: seq<Row>, rest: Row)
    requires |s| > 1 && !Before(s[0], rest)
    requires forall j :: 0 <= j < |s[1..]| ==> !Before(rest, s[1..][j])
    ensures forall j :: 0 <= j < |s| ==> !Before(s[0], s[j])
  {
    BeforeIrreflexive(s[0]);
    forall j | 1 <= j < |s|
      ensures !Before(s[0], s[j])
    {
      assert s[j] == s[1..][j - 1];
      BeforeTotal(s[0], rest);
      if Before(rest, s[0]) && Before(s[0], s[j]) {
        BeforeTransitive(rest, s[0], s[j]);
      }
    }
  }

  /** `get_current_balance`: the balance of the chronologically last row, or
      0 for an empty table. */
  function CurrentBalance(t: Table): (r: int)
    ensures |t.rows| == 0 ==> r == 0
  {
    if |t.rows| == 0 then 0 else Latest(t.rows).balance
  }

  /** The current balance is 0 for an empty table and otherwise that of a
      row no other row follows under `(date, id)`. */
  lemma CurrentBalanceIsLatest(t: Table)
    ensures |t.rows| == 0 ==> CurrentBalance(t) == 0
    ensures |t.rows| > 0 ==> exists k :: 0 <= k < |t.rows| && IsLatest(t.rows, k) && CurrentBalance(t) == t.rows[k].balance
  {
    if |t.rows| > 0 {
      var x := Latest(t.rows);
      var k :| 0 <= k < |t.rows| && t.rows[k] == x;
      assert IsLatest(t.rows, k);
    }
  }

  /** The current balance is the balance of the first row of the history
      listing: the `ORDER BY date DESC, id DESC LIMIT 1` the query runs. */
  lemma CurrentBalanceIsFirstListed(t: Table)
    requires UniqueIds(t.rows) && |t.rows| > 0
    ensures CurrentBalance(t) == ListTransactions(t)[0].balance
  {
    var d := ListTransactions(t);
    var x := Latest(t.rows);
    assert |d| == |multiset(d)| == |t.rows|;
    assert x in multiset(d);
    var m :| 0 <= m < |d| && d[m] == x;
    assert d[0] in multiset(t.rows);
    assert m == 0;
  }

  /** The recompute pass as a value: every row keeps its columns and gets the
      balance `Consistent` demands of it. */
  function Recomputed(rows: seq<Row>): (r: seq<Row>)
    ensures |r| == |rows|
    ensures forall i :: 0 <= i < |r| ==> SameEntry(r[i], rows[i])
    ensures Consistent(r)
  {
    var r := seq(|rows|, i requires 0 <= i < |rows| => rows[i].(balance := AmountUpTo(rows, rows[i])));
    assert forall i :: 0 <= i < |r| ==> SameEntry(r[i], rows[i]);
    forall j | 0 <= j < |r|
      ensures r[j].balance == AmountUpTo(r, r[j])
    {
      AmountUpToSameEntries(rows, r, rows[j], r[j]);
    }
    r
  }

  /** The INSERT of `add_transaction`: a new last row under the next
      AUTOINCREMENT id, holding the provisional balance `provisional`. */
  function AppendRow(t: Table, date: string, description: string, amount: int, kind: string, provisional: int): (r: Table)
    ensures WellFormed(t) ==> WellFormed(r)
    ensures r.lastId == t.lastId + 1
    ensures |r.rows| == |t.rows| + 1 && r.rows[..|t.rows|] == t.rows
    ensures r.rows[|t.rows|] == Row(r.lastId, date, description, amount, kind, provisional)
    ensures WellFormed(t) ==> forall i :: 0 <= i < |t.rows| ==> t.rows[i].id < r.rows[|t.rows|].id
  {
    Table(t.rows + [Row(t.lastId + 1, date, description, amount, kind, provisional)], t.lastId + 1)
  }

  /** `add_transaction` with the provisional balance it writes given as a
      parameter: normalise, insert, then recompute every balance. */
  function AddWith(t: Table, date: string, description: string, amount: int, kind: string, provisional: int): Table
  {
    var inserted := AppendRow(t, date, description, Normalize(amount, kind), kind, provisional);
    Table(Recomputed(inserted.rows), inserted.lastId)
  }

  /** `add_transaction`: the provisional balance is the current balance plus
      the normalised amount. */
  function Add(t: Table, date: string, description: string, amount: int, kind: string): (r: Table)
    ensures |r.rows| == |t.rows| + 1 && r.lastId == t.lastId + 1
    ensures SameEntry(r.rows[|t.rows|], Row(r.lastId, date, description, Normalize(amount, kind), kind, 0))
    ensures forall i :: 0 <= i < |t.rows| ==> SameEntry(r.rows[i], t.rows[i])
    ensures WellFormed(t) ==> forall i :: 0 <= i < |t.rows| ==> t.rows[i].id < r.rows[|t.rows|].id
    ensures WellFormed(t) ==> WellFormed(r) && Consistent(r.rows)
  {
    AddWith(t, date, description, amount, kind, CurrentBalance(t) + Normalize(amount, kind))
  }

  /** The provisional balance is always overwritten: the table after an add
      does not depend on it. */
  lemma ProvisionalIrrelevant(t: Table, date: string, description: string, amount: int, kind: string, p: int, q: int)
    ensures AddWith(t, date, description, amount, kind, p) == AddWith(t, date, description, amount, kind, q)
  {
    var a := AppendRow(t, date, description, Normalize(amount, kind), kind, p).rows;
    var b := AppendRow(t, date, description, Normalize(amount, kind), kind, q).rows;
    var ra, rb := Recomputed(a), Recomputed(b);
    forall i | 0 <= i < |a|
      ensures ra[i] == rb[i]
    {
      AmountUpToSameEntries(a, b, a[i], b[i]);
    }
  }

  /** Rewrites the balance of the rows whose id is `id`: the model of
      `UPDATE transactions SET running_balance = ? WHERE id = ?`. */
  function SetBalance(rows: seq<Row>, id: int, balance: int): (r: seq<Row>)
    ensures |r| == |rows|
    ensures forall j :: 0 <= j < |r| ==> SameEntry(r[j], rows[j])
    ensures forall j :: 0 <= j < |r| ==> r[j].balance == (if rows[j].id == id then balance else rows[j].balance)
  {
    seq(|rows|, j requires 0 <= j < |rows| => if rows[j].id == id then rows[j].(balance := balance) else rows[j])
  }

  /** The rows of `out` agree with `rows`, position by position, on every
      column except the balance. */
  predicate SameEntries(out: seq<Row>, rows: seq<Row>)
  {
    |out| == |rows| && forall j :: 0 <= j < |rows| ==> SameEntry(out[j], rows[j])
  }

  /** Every row whose id is in `done` already holds the balance
      `Consistent` demands of it. */
  predicate Settled(rows: seq<Row>, out: seq<Row>, done: set<int>)
    requires |out| == |rows|
  {
    forall j :: 0 <= j < |rows| && rows[j].id in done ==> out[j].balance == AmountUpTo(rows, rows[j])
  }

  /** `asc` holds the rows of `rows` in ascending `(date, id)` order, each
      id once: what the recompute loop reads. */
  predicate AscendingOf(asc: seq<Row>, rows: seq<Row>)
  {
    multiset(asc) == multiset(rows) && Sorted(asc, Ascending) && UniqueIds(asc)
  }

  /** The recompute loop of `add_transaction`: walk the rows in ascending
      `(date, id)` order, accumulate the amounts, and write each partial sum
      to the row with that id. */
  method RecomputeBalances(rows: seq<Row>) returns (out: seq<Row>)
    requires UniqueIds(rows)
    ensures out == Recomputed(rows)
  {
    var asc := SortBy(rows, Ascending);
    assert AscendingOf(asc, rows);
    out := rows;
    var running := 0;
    var i := 0;
    ghost var done: set<int> := {};
    while i < |asc|
      invariant 0 <= i <= |asc|
      invariant SameEntries(out, rows)
      invariant running == Total(asc[..i])
      invariant forall k :: 0 <= k < i ==> asc[k].id in done
      invariant Settled(rows, out, done)
    {
      RecomputeStep(rows, asc, i, out, running, done);
      running := running + asc[i].amount;
      out := SetBalance(out, asc[i].id, running);
      done := done + {asc[i].id};
      i := i + 1;
    }
    FinishedPassIsRecomputed(rows, asc, out, done);
  }

  /** One turn of the recompute loop keeps its invariant: the partial sum
      through `asc[i]` is the balance `Consistent` demands of the one row
      with that id. */
  lemma RecomputeStep(rows: seq<Row>, asc: seq<Row>, i: int, out: seq<Row>, running: int, done: set<int>)
    requires UniqueIds(rows) && AscendingOf(asc, rows)
    requires 0 <= i < |asc|
    requires SameEntries(out, rows) && Settled(rows, out, done)
    requires running == Total(asc[..i])
    ensures running + asc[i].amount == Total(asc[..i + 1])
    ensures SameEntries(SetBalance(out, asc[i].id, running + asc[i].amount), rows)
    ensures Settled(rows, SetBalance(out, asc[i].id, running + asc[i].amount), done + {asc[i].id})
  {
    var p := PartialSumIsBalance(rows, asc, i);
    SetBalanceSettles(rows, out, asc[i].id, running + asc[i].amount, p, done);
  }

  /** The partial sum through `asc[i]` is the balance `Consistent` demands
      of the row `rows[p]` it is written to, and that row is the only one
      with the id. */
  lemma PartialSumIsBalance(rows: seq<Row>, asc: seq<Row>, i: int) returns (p: int)
    requires UniqueIds(rows) && AscendingOf(asc, rows)
    requires 0 <= i < |asc|
    ensures 0 <= p < |rows| && rows[p] == asc[i]
    ensures Total(asc[..i + 1]) == Total(asc[..i]) + asc[i].amount
    ensures Total(asc[..i + 1]) == AmountUpTo(rows, rows[p])
    ensures forall j :: 0 <= j < |rows| && rows[j].id == asc[i].id ==> j == p
  {
    TotalPrefixStep(asc, i);
    AmountUpToSorted(asc, i);
    AmountUpToPermutation(rows, asc, asc[i]);
    assert asc[i] in multiset(rows);
    p :| 0 <= p < |rows| && rows[p] == asc[i];
  }

  /** Writing the right balance to the one row with id `id` settles that id. */
  lemma SetBalanceSettles(rows: seq<Row>, out: seq<Row>, id: int, balance: int, p: int, done: set<int>)
    requires SameEntries(out, rows) && Settled(rows, out, done)
    requires 0 <= p < |rows| && rows[p].id == id && balance == AmountUpTo(rows, rows[p])
    requires forall j :: 0 <= j < |rows| && rows[j].id == id ==> j == p
    ensures SameEntries(SetBalance(out, id, balance), rows)
    ensures Settled(rows, SetBalance(out, id, balance), done + {id})
  {
    var next := SetBalance(out, id, balance);
    forall j | 0 <= j < |rows| && rows[j].id in done + {id}
      ensures next[j].balance == AmountUpTo(rows, rows[j])
    {
      if rows[j].id == id {
        assert j == p;
      } else {
        assert next[j] == out[j] && rows[j].id in done;
      }
    }
  }

  /** Once every id of the ascending listing has been visited, the table is
      the recomputed one. */
  lemma FinishedPassIsRecomputed(rows: seq<Row>, asc: seq<Row>, out: seq<Row>, done: set<int>)
    requires multiset(asc) == multiset(rows)
    requires forall k :: 0 <= k < |asc| ==> asc[k].id in done
    requires SameEntries(out, rows) && Settled(rows, out, done)
    ensures out == Recomputed(rows)
  {
    var want := Recomputed(rows);
    forall j | 0 <= j < |rows|
      ensures out[j] == want[j]
    {
      assert rows[j] in multiset(asc);
      var k :| 0 <= k < |asc| && asc[k] == rows[j];
      assert rows[j].id in done;
    }
  }

  /** `add_transaction` step by step: normalise, read the current balance,
      insert with the provisional balance, run the recompute loop. */
  method AddTransaction(t: Table, date: string, description: string, amount: int, kind: string) returns (r: Table)
    requires WellFormed(t)
    ensures r == Add(t, date, description, amount, kind)
  {
    var signed := Normalize(amount, kind);
    var current := CurrentBalance(t);
    var inserted := AppendRow(t, date, description, signed, kind, current + signed);
    assert UniqueIds(inserted.rows);
    var rows := RecomputeBalances(inserted.rows);
    r := Table(rows, inserted.lastId);
  }

  /** The balance invariant in its running-balance form after every add, whatever
      state the table was in before. */
  lemma AddRestoresRunningBalances(t: Table, date: string, description: string, amount: int, kind: string)
    requires WellFormed(t)
    ensures RunningBalances(SortBy(Add(t, date, description, amount, kind).rows, Ascending))
  {
    ConsistentIffRunningBalances(Add(t, date, description, amount, kind).rows);
  }

  /** In a consistent table the current balance is the sum of all amounts. */
  lemma CurrentBalanceIsTotal(t: Table)
    requires WellFormed(t) && Consistent(t.rows)
    ensures CurrentBalance(t) == Total(t.rows)
  {
    var r := CurrentBalance(t);
    if |t.rows| > 0 {
      CurrentBalanceIsLatest(t);
      var k :| 0 <= k < |t.rows| && IsLatest(t.rows, k) && r == t.rows[k].balance;
      LatestHoldsTotal(t.rows, k);
    }
  }

  lemma LatestHoldsTotal(rows: seq<Row>, k: int)
    requires 0 <= k < |rows| && IsLatest(rows, k) && Consistent(rows)
    ensures rows[k].balance == Total(rows)
  {
    forall j | 0 <= j < |rows|
      ensures AtOrBefore(rows[j], rows[k])
    {
      BeforeTotal(rows[j], rows[k]);
    }
    AmountUpToAll(rows, rows[k]);
  }

  /** After an add the current balance is the old total plus the normalised
      amount, even when the new row is not the chronologically last one. */
  lemma BalanceAfterAdd(t: Table, date: string, description: string, amount: int, kind: string)
    requires WellFormed(t)
    ensures CurrentBalance(Add(t, date, description, amount, kind)) == Total(t.rows) + Normalize(amount, kind)
  {
    var r := Add(t, date, description, amount, kind);
    CurrentBalanceIsTotal(r);
    TotalAfterAppend(t.rows, r.rows);
  }

  /** Rows that keep the old rows' amounts and add one more row add its
      amount to the total. */
  lemma TotalAfterAppend(rows: seq<Row>, longer: seq<Row>)
    requires |longer| == |rows| + 1
    requires forall i :: 0 <= i < |rows| ==> SameEntry(longer[i], rows[i])
    ensures Total(longer) == Total(rows) + longer[|rows|].amount
  {
    assert longer == longer[..|rows|] + [longer[|rows|]];
    TotalSameEntries(longer[..|rows|], rows);
    TotalConcat(longer[..|rows|], [longer[|rows|]]);
  }

  /** Reverses a sequence. */
  function Reverse(s: seq<Row>): (r: seq<Row>)
    ensures |r| == |s|
    ensures forall i :: 0 <= i < |s| ==> r[i] == s[|s| - 1 - i]
  {
    seq(|s|, i requires 0 <= i < |s| => s[|s| - 1 - i])
  }

  lemma ReverseMultiset(s: seq<Row>)
    ensures multiset(Reverse(s)) == multiset(s)
  {
    if |s| > 0 {
      var r := Reverse(s);
      assert s == s[..|s| - 1] + [s[|s| - 1]];
      assert r == [s[|s| - 1]] + Reverse(s[..|s| - 1]);
      ReverseMultiset(s[..|s| - 1]);
    }
  }

  /** Two strictly ascending sequences of the same rows are equal. */
  lemma {:induction false} StrictlySortedUnique(a: seq<Row>, b: seq<Row>)
    requires StrictlySorted(a, Ascending) && StrictlySorted(b, Ascending)
    requires multiset(a) == multiset(b)
    ensures a == b
    decreases |a|
  {
    if |a| == 0 {
      assert |b| == |multiset(b)| == 0;
    } else {
      assert |b| == |multiset(b)| == |a|;
      SameLeast(a, b);
      TailMultiset(a);
      TailMultiset(b);
      StrictlySortedUnique(a[1..], b[1..]);
      assert a == [a[0]] + a[1..] && b == [b[0]] + b[1..];
    }
  }

  /** Two strictly ascending sequences of the same rows start alike. */
  lemma SameLeast(a: seq<Row>, b: seq<Row>)
    requires StrictlySorted(a, Ascending) && StrictlySorted(b, Ascending)
    requires multiset(a) == multiset(b) && |a| > 0 && |b| > 0
    ensures a[0] == b[0]
  {
    if a[0] != b[0] {
      assert a[0] in multiset(b);
      assert b[0] in multiset(a);
      var i :| 0 <= i < |b| && b[i] == a[0];
      var j :| 0 <= j < |a| && a[j] == b[0];
      assert Before(b[0], a[0]) && Before(a[0], b[0]);
      BeforeAsymmetric(a[0], b[0]);
      assert false;
    }
  }

  /** The history listing is the recompute pass's chronological order read
      backwards. */
  lemma ListingIsReverseChronological(t: Table)
    requires UniqueIds(t.rows)
    ensures ListTransactions(t) == Reverse(SortBy(t.rows, Ascending))
  {
    var d := ListTransactions(t);
    var asc := SortBy(t.rows, Ascending);
    SortedUniqueIsStrict(asc, Ascending);
    ReverseMultiset(d);
    StrictlySortedUnique(Reverse(d), asc);
    assert Reverse(Reverse(d)) == d;
    assert Reverse(d) == asc;
  }
}
