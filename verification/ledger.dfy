/** The `transactions` table as an abstract value: its rows in storage order,
    the chronological order `(date, id)` the queries sort by, and the
    running-balance invariant the store maintains. */
module Ledger {
  import TextOrder

  /** One row of the table. Amounts and balances are exact integer cents. */
  datatype Row = Row(
    id: int,
    date: string,
    description: string,
    amount: int,
    kind: string,
    balance: int)

  /** The table: rows in storage order, and the AUTOINCREMENT counter, the
      largest id ever handed out. */
  datatype Table = Table(rows: seq<Row>, lastId: nat)

  /** The primary key holds no duplicates. */
  predicate UniqueIds(s: seq<Row>)
  {
    forall i, j :: 0 <= i < j < |s| ==> s[i].id != s[j].id
  }

  /** The schema's guarantees: ids are unique, positive and never larger than
      the AUTOINCREMENT counter. */
  predicate WellFormed(t: Table)
  {
    && UniqueIds(t.rows)
    && forall i :: 0 <= i < |t.rows| ==> 0 < t.rows[i].id <= t.lastId
  }

  /** Two rows agree on every column except `running_balance`. */
  predicate SameEntry(a: Row, b: Row)
  {
    && a.id == b.id
    && a.date == b.date
    && a.description == b.description
    && a.amount == b.amount
    && a.kind == b.kind
  }

  /** Chronological order: `a` sorts strictly before `b` under `(date, id)`. */
  predicate Before(a: Row, b: Row)
  {
    TextOrder.Less(a.date, b.date) || (a.date == b.date && a.id < b.id)
  }

  /** `a` is at or before `b` under `(date, id)`. */
  predicate AtOrBefore(a: Row, b: Row)
  {
    Before(a, b) || (a.date == b.date && a.id == b.id)
  }

  lemma BeforeIrreflexive(a: Row)
    ensures !Before(a, a)
  {
    TextOrder.Irreflexive(a.date);
  }

  lemma BeforeAsymmetric(a: Row, b: Row)
    ensures Before(a, b) ==> !Before(b, a)
  {
    TextOrder.Asymmetric(a.date, b.date);
    TextOrder.Irreflexive(a.date);
  }

  lemma BeforeTransitive(a: Row, b: Row, c: Row)
    requires Before(a, b) && Before(b, c)
    ensures Before(a, c)
  {
    if TextOrder.Less(a.date, b.date) && TextOrder.Less(b.date, c.date) {
      TextOrder.Transitive(a.date, b.date, c.date);
    }
  }

  lemma BeforeTotal(a: Row, b: Row)
    ensures Before(a, b) || Before(b, a) || (a.date == b.date && a.id == b.id)
  {
    TextOrder.Total(a.date, b.date);
  }

  /** The two `ORDER BY` directions the queries use. */
  datatype Direction = Ascending | Descending

  /** `a` strictly precedes `b` in the listing order `dir`. */
  predicate Precedes(a: Row, b: Row, dir: Direction)
  {
    match dir
    case Ascending => Before(a, b)
    case Descending => Before(b, a)
  }

  lemma PrecedesTransitive(a: Row, b: Row, c: Row, dir: Direction)
    requires Precedes(a, b, dir) && Precedes(b, c, dir)
    ensures Precedes(a, c, dir)
  {
    if dir == Ascending {
      BeforeTransitive(a, b, c);
    } else {
      BeforeTransitive(c, b, a);
    }
  }

  lemma PrecedesAsymmetric(a: Row, b: Row, dir: Direction)
    ensures Precedes(a, b, dir) ==> !Precedes(b, a, dir)
  {
    BeforeAsymmetric(a, b);
  }

  /** No later row precedes an earlier one. */
  predicate Sorted(s: seq<Row>, dir: Direction)
  {
    forall i, j :: 0 <= i < j < |s| ==> !Precedes(s[j], s[i], dir)
  }

  /** Every row strictly precedes every later row. */
  predicate StrictlySorted(s: seq<Row>, dir: Direction)
  {
    forall i, j :: 0 <= i < j < |s| ==> Precedes(s[i], s[j], dir)
  }

  /** Inserts `x` in front of the first row it strictly precedes. */
  function Insert(x: Row, s: seq<Row>, dir: Direction): (r: seq<Row>)
    ensures multiset(r) == multiset(s) + multiset{x}
    ensures |r| == |s| + 1
    ensures Sorted(s, dir) ==> Sorted(r, dir)
    ensures UniqueIds(s) && (forall y :: y in s ==> y.id != x.id) ==> UniqueIds(r)
  {
    if |s| == 0 then [x]
    else if Precedes(x, s[0], dir) then
      InsertFrontSorted(x, s, dir);
      [x] + s
    else
      var tail := Insert(x, s[1..], dir);
      assert s == [s[0]] + s[1..];
      InsertConsSorted(x, s, tail, dir);
      [s[0]] + tail
  }

  lemma InsertFrontSorted(x: Row, s: seq<Row>, dir: Direction)
    requires |s| > 0 && Precedes(x, s[0], dir)
    ensures Sorted(s, dir) ==> Sorted([x] + s, dir)
  {
    if Sorted(s, dir) {
      forall j | 0 < j < |s| && Precedes(s[j], x, dir)
        ensures false
      {
        PrecedesTransitive(s[j], x, s[0], dir);
      }
      PrecedesAsymmetric(x, s[0], dir);
    }
  }

  lemma InsertConsSorted(x: Row, s: seq<Row>, tail: seq<Row>, dir: Direction)
    requires |s| > 0 && !Precedes(x, s[0], dir)
    requires multiset(tail) == multiset(s[1..]) + multiset{x}
    requires Sorted(s[1..], dir) ==> Sorted(tail, dir)
    requires UniqueIds(s[1..]) && (forall y :: y in s[1..] ==> y.id != x.id) ==> UniqueIds(tail)
    ensures Sorted(s, dir) ==> Sorted([s[0]] + tail, dir)
    ensures UniqueIds(s) && (forall y :: y in s ==> y.id != x.id) ==> UniqueIds([s[0]] + tail)
  {
    InsertedFrom(x, s[1..], tail);
    if Sorted(s, dir) {
      assert Sorted(s[1..], dir);
    }
    if UniqueIds(s) && (forall y :: y in s ==> y.id != x.id) {
      assert UniqueIds(s[1..]);
    }
  }

  /** Every row of `tail` is `x` or a row of `s`. */
  lemma InsertedFrom(x: Row, s: seq<Row>, tail: seq<Row>)
    requires multiset(tail) == multiset(s) + multiset{x}
    ensures forall k :: 0 <= k < |tail| ==> tail[k] == x || tail[k] in s
  {
    forall k | 0 <= k < |tail|
      ensures tail[k] == x || tail[k] in s
    {
      assert tail[k] in multiset(tail);
    }
  }

  /** Dropping the first row drops one copy of it from the multiset. */
  lemma TailMultiset(s: seq<Row>)
    requires |s| > 0
    ensures multiset(s[1..]) == multiset(s) - multiset{s[0]}
  {
    assert s == [s[0]] + s[1..];
  }

  /** Insertion sort of the rows under `dir`: the model of
      `ORDER BY date <dir>, id <dir>`. */
  function SortBy(s: seq<Row>, dir: Direction): (r: seq<Row>)
    ensures multiset(r) == multiset(s)
    ensures |r| == |s|
    ensures Sorted(r, dir)
    ensures UniqueIds(s) ==> UniqueIds(r)
  {
    if |s| == 0 then []
    else
      var rest := SortBy(s[1..], dir);
      SortStep(s, rest);
      Insert(s[0], rest, dir)
  }

  /** What inserting `s[0]` into the sorted rest of `s` needs to know. */
  lemma SortStep(s: seq<Row>, rest: seq<Row>)
    requires |s| > 0 && multiset(rest) == multiset(s[1..])
    ensures multiset(s) == multiset(rest) + multiset{s[0]}
    ensures UniqueIds(s) ==> UniqueIds(s[1..]) && forall y :: y in rest ==> y.id != s[0].id
  {
    assert s == [s[0]] + s[1..];
    if UniqueIds(s) {
      forall y | y in rest
        ensures y.id != s[0].id
      {
        assert y in multiset(rest);
        assert y in s[1..];
      }
    }
  }

  /** A sorted sequence with no duplicate id is strictly sorted. */
  lemma SortedUniqueIsStrict(s: seq<Row>, dir: Direction)
    requires Sorted(s, dir) && UniqueIds(s)
    ensures StrictlySorted(s, dir)
  {
    forall i, j | 0 <= i < j < |s|
      ensures Precedes(s[i], s[j], dir)
    {
      BeforeTotal(s[i], s[j]);
    }
  }

  /** Sum of the amounts of all rows. */
  function Total(s: seq<Row>): int
  {
    if |s| == 0 then 0 else s[0].amount + Total(s[1..])
  }

  /** Sum of the amounts of the rows of `s` that are at or before `x` in
      chronological order: what `x`'s running balance must be. */
  function AmountUpTo(s: seq<Row>, x: Row): int
  {
    if |s| == 0 then 0
    else (if AtOrBefore(s[0], x) then s[0].amount else 0) + AmountUpTo(s[1..], x)
  }

  lemma {:induction false} TotalConcat(a: seq<Row>, b: seq<Row>)
    ensures Total(a + b) == Total(a) + Total(b)
  {
    if |a| == 0 {
      assert a + b == b;
    } else {
      assert (a + b)[1..] == a[1..] + b;
      TotalConcat(a[1..], b);
    }
  }

  lemma {:induction false} AmountUpToConcat(a: seq<Row>, b: seq<Row>, x: Row)
    ensures AmountUpTo(a + b, x) == AmountUpTo(a, x) + AmountUpTo(b, x)
  {
    if |a| == 0 {
      assert a + b == b;
    } else {
      assert (a + b)[1..] == a[1..] + b;
      AmountUpToConcat(a[1..], b, x);
    }
  }

  /** The total of a prefix grows by exactly the next row's amount. */
  lemma TotalPrefixStep(s: seq<Row>, k: int)
    requires 0 <= k < |s|
    ensures Total(s[..k + 1]) == Total(s[..k]) + s[k].amount
  {
    assert s[..k + 1] == s[..k] + [s[k]];
    TotalConcat(s[..k], [s[k]]);
  }

  /** `AmountUpTo` does not depend on the order the rows are stored in. */
  lemma {:induction false} AmountUpToPermutation(a: seq<Row>, b: seq<Row>, x: Row)
    requires multiset(a) == multiset(b)
    ensures AmountUpTo(a, x) == AmountUpTo(b, x)
    decreases |a|
  {
    if |a| == 0 {
      assert |b| == |multiset(b)| == 0;
    } else {
      assert a[0] in multiset(b);
      var i :| 0 <= i < |b| && b[i] == a[0];
      var rest := RemoveAt(b, i, x);
      assert a == [a[0]] + a[1..];
      assert multiset(a[1..]) == multiset(a) - multiset{a[0]};
      AmountUpToPermutation(a[1..], rest, x);
    }
  }

  /** `b` without its row at `i`, and what that row contributed. */
  lemma RemoveAt(b: seq<Row>, i: int, x: Row) returns (rest: seq<Row>)
    requires 0 <= i < |b|
    ensures multiset(rest) == multiset(b) - multiset{b[i]}
    ensures |rest| == |b| - 1
    ensures AmountUpTo(b, x) == (if AtOrBefore(b[i], x) then b[i].amount else 0) + AmountUpTo(rest, x)
  {
    rest := b[..i] + b[i + 1..];
    assert b == b[..i] + [b[i]] + b[i + 1..];
    assert multiset(b) == multiset(b[..i]) + multiset{b[i]} + multiset(b[i + 1..]);
    AmountUpToConcat(b[..i] + [b[i]], b[i + 1..], x);
    AmountUpToConcat(b[..i], [b[i]], x);
    AmountUpToConcat(b[..i], b[i + 1..], x);
    assert [b[i]][1..] == [];
  }

  /** When every row is at or before `x`, `AmountUpTo` is the total. */
  lemma {:induction false} AmountUpToAll(s: seq<Row>, x: Row)
    requires forall i :: 0 <= i < |s| ==> AtOrBefore(s[i], x)
    ensures AmountUpTo(s, x) == Total(s)
  {
    if |s| > 0 {
      AmountUpToAll(s[1..], x);
    }
  }

  /** When no row is at or before `x`, `AmountUpTo` is zero. */
  lemma {:induction false} AmountUpToNone(s: seq<Row>, x: Row)
    requires forall i :: 0 <= i < |s| ==> !AtOrBefore(s[i], x)
    ensures AmountUpTo(s, x) == 0
  {
    if |s| > 0 {
      AmountUpToNone(s[1..], x);
    }
  }

  /** In ascending order, the rows at or before `s[k]` are exactly `s[..k+1]`. */
  lemma AmountUpToSorted(s: seq<Row>, k: int)
    requires Sorted(s, Ascending) && UniqueIds(s)
    requires 0 <= k < |s|
    ensures AmountUpTo(s, s[k]) == Total(s[..k + 1])
  {
    SortedUniqueIsStrict(s, Ascending);
    assert s == s[..k + 1] + s[k + 1..];
    AmountUpToConcat(s[..k + 1], s[k + 1..], s[k]);
    AmountUpToAll(s[..k + 1], s[k]);
    forall i | k < i < |s|
      ensures !AtOrBefore(s[i], s[k])
    {
      BeforeAsymmetric(s[k], s[i]);
    }
    AmountUpToNone(s[k + 1..], s[k]);
  }

  /** `AmountUpTo` reads only ids, dates and amounts, never balances. */
  lemma {:induction false} AmountUpToSameEntries(a: seq<Row>, b: seq<Row>, x: Row, y: Row)
    requires |a| == |b|
    requires forall i :: 0 <= i < |a| ==> SameEntry(a[i], b[i])
    requires x.date == y.date && x.id == y.id
    ensures AmountUpTo(a, x) == AmountUpTo(b, y)
  {
    if |a| > 0 {
      AmountUpToSameEntries(a[1..], b[1..], x, y);
    }
  }

  lemma {:induction false} TotalSameEntries(a: seq<Row>, b: seq<Row>)
    requires |a| == |b|
    requires forall i :: 0 <= i < |a| ==> SameEntry(a[i], b[i])
    ensures Total(a) == Total(b)
  {
    if |a| > 0 {
      TotalSameEntries(a[1..], b[1..]);
    }
  }

  /** The balance invariant, independent of storage order: every row's
      balance is the sum of the amounts of all rows at or before it in
      `(date, id)` order. */
  predicate Consistent(s: seq<Row>)
  {
    forall j :: 0 <= j < |s| ==> s[j].balance == AmountUpTo(s, s[j])
  }

  /** The balance invariant as the recompute loop establishes it on a
      sequence already in chronological order: each balance is the previous
      one (0 before the first row) plus the row's own amount. */
  predicate RunningBalances(s: seq<Row>)
  {
    forall k :: 0 <= k < |s| ==> s[k].balance == PreviousBalance(s, k) + s[k].amount
  }

  /** The balance before row `k`: the previous row's, or 0 before the first. */
  function PreviousBalance(s: seq<Row>, k: int): int
    requires 0 <= k < |s|
  {
    if k == 0 then 0 else s[k - 1].balance
  }

  /** The running-balance form is the prefix-sum form. */
  lemma RunningBalancesArePrefixSums(s: seq<Row>)
    ensures RunningBalances(s) <==> forall k :: 0 <= k < |s| ==> s[k].balance == Total(s[..k + 1])
  {
    if RunningBalances(s) {
      forall k | 0 <= k < |s|
        ensures s[k].balance == Total(s[..k + 1])
      {
        PrefixFromRunning(s, k);
      }
    }
    if forall k :: 0 <= k < |s| ==> s[k].balance == Total(s[..k + 1]) {
      forall k | 0 <= k < |s|
        ensures s[k].balance == PreviousBalance(s, k) + s[k].amount
      {
        TotalPrefixStep(s, k);
        if k > 0 {
          assert s[..k] == s[..k - 1 + 1];
        }
      }
    }
  }

  lemma {:induction false} PrefixFromRunning(s: seq<Row>, k: int)
    requires RunningBalances(s) && 0 <= k < |s|
    ensures s[k].balance == Total(s[..k + 1])
  {
    TotalPrefixStep(s, k);
    assert s[k].balance == PreviousBalance(s, k) + s[k].amount;
    if k > 0 {
      PrefixFromRunning(s, k - 1);
      assert s[..k] == s[..k - 1 + 1];
    } else {
      assert s[..k] == [];
    }
  }

  /** In the ascending listing, the rows up to position `k` are exactly the
      rows of the table at or before the row at `k`. */
  lemma ChronologicalPrefix(rows: seq<Row>, k: int)
    requires UniqueIds(rows) && 0 <= k < |rows|
    ensures AmountUpTo(rows, SortBy(rows, Ascending)[k]) == Total(SortBy(rows, Ascending)[..k + 1])
  {
    var asc := SortBy(rows, Ascending);
    AmountUpToPermutation(rows, asc, asc[k]);
    AmountUpToSorted(asc, k);
  }

  lemma ConsistentGivesPrefixSums(rows: seq<Row>)
    requires UniqueIds(rows) && Consistent(rows)
    ensures var asc := SortBy(rows, Ascending);
      forall k :: 0 <= k < |asc| ==> asc[k].balance == Total(asc[..k + 1])
  {
    var asc := SortBy(rows, Ascending);
    forall k | 0 <= k < |asc|
      ensures asc[k].balance == Total(asc[..k + 1])
    {
      ChronologicalPrefix(rows, k);
      assert asc[k] in multiset(rows);
      var j :| 0 <= j < |rows| && rows[j] == asc[k];
    }
  }

  lemma PrefixSumsGiveConsistent(rows: seq<Row>)
    requires UniqueIds(rows)
    requires var asc := SortBy(rows, Ascending);
      forall k :: 0 <= k < |asc| ==> asc[k].balance == Total(asc[..k + 1])
    ensures Consistent(rows)
  {
    var asc := SortBy(rows, Ascending);
    forall j | 0 <= j < |rows|
      ensures rows[j].balance == AmountUpTo(rows, rows[j])
    {
      assert rows[j] in multiset(asc);
      var k :| 0 <= k < |asc| && asc[k] == rows[j];
      ChronologicalPrefix(rows, k);
    }
  }

  /** The balance invariant over the whole table holds exactly when the
      ascending listing has correct running balances. */
  lemma ConsistentIffRunningBalances(rows: seq<Row>)
    requires UniqueIds(rows)
    ensures Consistent(rows) <==> RunningBalances(SortBy(rows, Ascending))
  {
    RunningBalancesArePrefixSums(SortBy(rows, Ascending));
    if Consistent(rows) {
      ConsistentGivesPrefixSums(rows);
    }
    if RunningBalances(SortBy(rows, Ascending)) {
      PrefixSumsGiveConsistent(rows);
    }
  }
}
