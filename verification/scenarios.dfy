/** Worked examples of the ledger's behaviour on concrete tables. */
module Scenarios {
  import TextOrder
  import opened Ledger
  import opened Store

  /** The balances of a two-row table in which `b` sorts before `a`. */
  lemma TwoRowBalances(rows: seq<Row>)
    requires |rows| == 2 && Consistent(rows) && Before(rows[1], rows[0])
    ensures rows[1].balance == rows[1].amount
    ensures rows[0].balance == rows[0].amount + rows[1].amount
  {
    BeforeAsymmetric(rows[1], rows[0]);
    BeforeIrreflexive(rows[0]);
    BeforeIrreflexive(rows[1]);
    assert !AtOrBefore(rows[0], rows[1]) && AtOrBefore(rows[1], rows[0]);
    assert rows[1..] == [rows[1]] && rows[1..][1..] == [];
    assert AmountUpTo(rows[1..], rows[0]) == rows[1].amount;
    assert AmountUpTo(rows[1..], rows[1]) == rows[1].amount;
    assert rows[0].balance == AmountUpTo(rows, rows[0]);
    assert rows[1].balance == AmountUpTo(rows, rows[1]);
  }

  /** An add dated before the only row of a table comes first: its balance
      is its own amount, and the older row's balance grows by that amount. */
  lemma BackdatedSecondRow(t: Table, date: string, description: string, amount: int, kind: string)
    requires WellFormed(t) && |t.rows| == 1 && TextOrder.Less(date, t.rows[0].date)
    ensures var a := Normalize(amount, kind);
      Add(t, date, description, amount, kind).rows
        == [t.rows[0].(balance := t.rows[0].amount + a), Row(t.lastId + 1, date, description, a, kind, a)]
  {
    var r := Add(t, date, description, amount, kind);
    assert SameEntry(r.rows[0], t.rows[0]);
    assert r.rows[1].date == date && r.rows[1].amount == Normalize(amount, kind);
    assert Before(r.rows[1], r.rows[0]);
    TwoRowBalances(r.rows);
  }

  /** An earlier-dated add repairs the later row: [Jan-10: +100] then
      [Jan-05: +50] gives Jan-05 balance 50 and Jan-10 balance 150. */
  lemma BackdatedAddRepairsHistory()
    ensures var t := Table([Row(1, "2025-01-10", "Salary", 10000, "Credit", 10000)], 1);
      var r := Add(t, "2025-01-05", "Gift", 5000, "Credit");
      r.rows == [Row(1, "2025-01-10", "Salary", 10000, "Credit", 15000),
                 Row(2, "2025-01-05", "Gift", 5000, "Credit", 5000)]
  {
    var t := Table([Row(1, "2025-01-10", "Salary", 10000, "Credit", 10000)], 1);
    assert WellFormed(t);
    assert TextOrder.Less("2025-01-05", "2025-01-10");
    assert Normalize(5000, "Credit") == 5000;
    BackdatedSecondRow(t, "2025-01-05", "Gift", 5000, "Credit");
  }

  /** The balances of a three-row table whose chronological order is
      `rows[2]`, `rows[0]`, `rows[1]`. */
  lemma ThreeRowBalances(rows: seq<Row>)
    requires |rows| == 3 && Consistent(rows)
    requires Before(rows[2], rows[0]) && Before(rows[0], rows[1])
    ensures rows[2].balance == rows[2].amount
    ensures rows[0].balance == rows[2].amount + rows[0].amount
    ensures rows[1].balance == rows[2].amount + rows[0].amount + rows[1].amount
  {
    BeforeTransitive(rows[2], rows[0], rows[1]);
    BeforeAsymmetric(rows[2], rows[0]);
    BeforeAsymmetric(rows[0], rows[1]);
    BeforeAsymmetric(rows[2], rows[1]);
    BeforeIrreflexive(rows[0]);
    BeforeIrreflexive(rows[1]);
    BeforeIrreflexive(rows[2]);
    var tail := rows[1..];
    assert tail == [rows[1], rows[2]] && tail[1..] == [rows[2]] && tail[1..][1..] == [];
    assert AmountUpTo(tail[1..], rows[2]) == rows[2].amount;
    assert AmountUpTo(tail, rows[2]) == rows[2].amount;
    assert AmountUpTo(tail[1..], rows[0]) == rows[2].amount;
    assert AmountUpTo(tail, rows[0]) == rows[2].amount;
    assert AmountUpTo(tail[1..], rows[1]) == rows[2].amount;
    assert AmountUpTo(tail, rows[1]) == rows[1].amount + rows[2].amount;
    assert rows[0].balance == AmountUpTo(rows, rows[0]);
    assert rows[1].balance == AmountUpTo(rows, rows[1]);
    assert rows[2].balance == AmountUpTo(rows, rows[2]);
  }

  /** A freshly seeded table holds two rows and reports a balance of 4500.00. */
  lemma SeededBalance(today: string)
    ensures |Init(Table([], 0), today).rows| == 2
    ensures CurrentBalance(Init(Table([], 0), today)) == 450000
  {
    var t := Init(Table([], 0), today);
    CurrentBalanceIsTotal(t);
    assert t.rows[1..][1..] == [];
  }

  /** What seeding an empty table leaves: two rows on `today`, ids 1 and 2,
      summing to 4500.00. */
  lemma SeedFacts(today: string)
    ensures var t := Init(Table([], 0), today);
      && WellFormed(t) && |t.rows| == 2
      && t.rows[0].id == 1 && t.rows[1].id == 2
      && t.rows[0].date == today && t.rows[1].date == today
      && t.rows[0].amount == 500000 && t.rows[1].amount == -50000
      && Total(t.rows) == 450000
  {
    var t := Init(Table([], 0), today);
    assert WellFormed(Table([], 0));
    assert t.rows[1..] == [t.rows[1]] && t.rows[1..][1..] == [];
    assert Total(t.rows[1..]) == t.rows[1].amount;
  }

  /** An add dated before both rows of a two-row table, whose rows share a
      date, comes first: every balance grows by its amount. */
  lemma EarlierThanBoth(t: Table, date: string, description: string, amount: int, kind: string)
    requires WellFormed(t) && |t.rows| == 2
    requires t.rows[0].date == t.rows[1].date && t.rows[0].id < t.rows[1].id
    requires TextOrder.Less(date, t.rows[0].date)
    ensures var r := Add(t, date, description, amount, kind);
      var a := Normalize(amount, kind);
      && |r.rows| == 3
      && r.rows[2].balance == a
      && r.rows[0].balance == a + t.rows[0].amount
      && r.rows[1].balance == a + t.rows[0].amount + t.rows[1].amount
      && CurrentBalance(r) == Total(t.rows) + a
  {
    var r := Add(t, date, description, amount, kind);
    assert SameEntry(r.rows[0], t.rows[0]) && SameEntry(r.rows[1], t.rows[1]);
    assert r.rows[2].date == date && r.rows[2].amount == Normalize(amount, kind);
    assert Before(r.rows[2], r.rows[0]) && Before(r.rows[0], r.rows[1]);
    ThreeRowBalances(r.rows);
    BalanceAfterAdd(t, date, description, amount, kind);
  }

  /** From the seeded table, an add dated before the seed day lands first:
      its balance is its own amount, both seed balances grow by it, and the
      current balance is still that of the later seed row. */
  lemma AddBeforeSeed(today: string, date: string, description: string, amount: int, kind: string)
    requires TextOrder.Less(date, today)
    ensures var r := Add(Init(Table([], 0), today), date, description, amount, kind);
      var a := Normalize(amount, kind);
      && |r.rows| == 3
      && r.rows[0].balance == 500000 + a
      && r.rows[1].balance == 450000 + a
      && r.rows[2].balance == a
      && CurrentBalance(r) == 450000 + a
  {
    SeedFacts(today);
    EarlierThanBoth(Init(Table([], 0), today), date, description, amount, kind);
  }

  /** A refund of 20.00 dated 2025-01-01, before the seed day, on the seeded
      table. */
  lemma RefundBeforeSeedDay(today: string)
    requires TextOrder.Less("2025-01-01", today)
    ensures var r := Add(Init(Table([], 0), today), "2025-01-01", "Refund", 2000, "Credit");
      && |r.rows| == 3
      && r.rows[0].balance == 502000
      && r.rows[1].balance == 452000
      && r.rows[2].balance == 2000
      && CurrentBalance(r) == 452000
  {
    AddBeforeSeed(today, "2025-01-01", "Refund", 2000, "Credit");
    assert Normalize(2000, "Credit") == 2000;
  }
}
