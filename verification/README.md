# Transaction ledger: a Dafny model

This project models the ledger store of the personal transaction manager in
`main.py`. The store is a single sqlite table `transactions` with the columns
`id`, `date`, `description`, `amount`, `type` and `running_balance`. The model
treats the table as an immutable value: a sequence of `Row`s plus the table's
AUTOINCREMENT counter (`Table.lastId`). Each SQL statement becomes a pure
operation on that value:

- seeding an empty table (`init_db`);
- the current balance (`get_current_balance`);
- the history listing (`get_all_transactions`);
- adding a transaction with its recompute pass (`add_transaction`);
- the display form of a row (`format_transactions_for_table`);
- the CSV text (`export_transactions_to_csv`).

The central property is the balance invariant. Once an add has finished,
sort the rows ascending by `(date, id)`. Every row's running balance then
equals the sum of the amounts of that row and of every row before it. The model
states this in two equivalent forms:

- `Ledger.Consistent` does not mention a sort: each balance is the sum of the
  amounts of the rows at or before that row.
- `Ledger.RunningBalances` is the prefix-sum form over the ascending listing.

`Ledger.ConsistentIffRunningBalances` proves the two equivalent.

Modules:

- `TextOrder`: the BINARY text order sqlite applies to the `date` column, with
  its order laws.
- `Ledger`: rows, the `(date, id)` order, a functional insertion sort, sums and
  the balance invariant.
- `Store`: the store operations, including the imperative recompute loop
  `Store.RecomputeBalances`, proved equal to its functional definition
  `Store.Recomputed`.
- `Money`: the `$` text of an amount of cents, and a parser that reads it back.
- `Export`: display rows and the CSV text, with a splitter that reads the CSV
  back into lines and cells.
- `Scenarios`: concrete tables worked through the operations.

Representation choices:

- Amounts and balances are integers counting cents. The `REAL` columns and
  float accumulation are replaced by exact arithmetic.
- Dates are strings compared character by character, as sqlite compares TEXT.
- The seed date comes in as a `today` parameter instead of reading the clock.

The `type` column stores the string the caller passed (main.py:105). Only
the display derives a type from the amount's sign (main.py:136). The model
follows that: `Store.Add` keeps the caller's string, and `Export.FormatRow`
re-derives the shown type.

## Model

| member | source | states |
|---|---|---|
| `Store.Normalize` | main.py:81-84 | The stored amount has the caller's magnitude. It is at most 0 for the type `"Debit"` and at least 0 for any other type string. |
| `Store.Init` | main.py:34-47 | A non-empty table is returned unchanged. An empty one gets exactly two rows dated `today`: amounts 5000.00 and -500.00, balances 5000.00 and 4500.00, types Credit and Debit, descriptions "Initial deposit" and "First expense". They take the next two AUTOINCREMENT ids, and the counter advances by exactly two. Well-formedness is kept and the seeded balances satisfy the invariant. |
| `Store.InitIdempotent` | main.py:35-36 | Seeding twice, even with different dates, equals seeding once. |
| `Store.Latest` | main.py:60 | The row picked as the latest is a row of the table, and no row of the table follows it in `(date, id)` order. |
| `Store.CurrentBalanceIsLatest` | main.py:56-66 | `Store.CurrentBalance` models `get_current_balance`. The current balance is 0 for an empty table. Otherwise it is the balance of a row that no other row follows in `(date, id)` order. |
| `Store.CurrentBalanceIsFirstListed` | main.py:56-76 | When ids are unique, the current balance is the balance of the first row of the history listing. |
| `Store.CurrentBalanceIsTotal` | main.py:60-66 | In a table that satisfies the invariant, the current balance is the sum of all amounts. |
| `Store.ListTransactions` | main.py:69-76 | The listing is a permutation of the table's rows. When ids are unique it is strictly descending in `(date, id)`, so on equal dates the larger id comes first. |
| `Store.ListingIsReverseChronological` | main.py:73 | The history listing is exactly the recompute pass's ascending order read backwards. |
| `Ledger.SortBy` | main.py:112 | Sorting by `(date, id)` keeps every row the same number of times, keeps the length and the uniqueness of ids, and yields an ordered sequence in the requested direction. |
| `Store.AppendRow` | main.py:101-105 | The INSERT adds one last row under the next AUTOINCREMENT id: the counter advances by exactly one and the new id is its new value, larger than every existing id. The row holds the given columns and the provisional balance, and the old rows stay as they were. |
| `Store.SetBalance` | main.py:119 | The UPDATE rewrites the balance of exactly the rows with the given id. No other column of any row changes. |
| `Store.Recomputed` | main.py:111-119 | After the recompute pass every row keeps every column except the balance, and the balances satisfy the invariant. |
| `Store.RecomputeBalances` | main.py:111-119 | The loop over the ascending listing writes each partial sum to the row with that id. The table it leaves is the functional recompute pass. |
| `Store.Add` | main.py:79-123 | An add yields exactly one new row and advances the id counter by one. The new row carries the date, description, type string and normalised amount, with an id larger than every old id. Old rows keep every column except the balance. A well-formed table stays well-formed and satisfies the invariant afterwards. |
| `Store.AddTransaction` | main.py:79-123 | The step-by-step add (normalise, read the current balance, insert, run the loop) yields the same table as `Store.Add`. |
| `Store.ProvisionalIrrelevant` | main.py:94-119 | `Store.AddWith` is the add with the provisional balance the INSERT writes as a parameter. The table after an add does not depend on the provisional balance the INSERT writes. |
| `Store.AddRestoresRunningBalances` | main.py:112-119 | After an add, in ascending `(date, id)` order, every balance equals the previous row's balance (0 for the first row) plus the row's own amount. |
| `Store.BalanceAfterAdd` | main.py:94-119 | After an add the current balance is the old sum of amounts plus the normalised amount, even when the new row is back-dated. |
| `Ledger.ConsistentIffRunningBalances` | main.py:112-119 | Each balance equals the sum of the amounts at or before its row exactly when the ascending listing carries running prefix sums. |
| `Money.Format` | main.py:133-139 | The text of an amount starts with `$`, and its next character is `-` exactly when the amount is negative. It holds no comma and no newline. |
| `Money.FormatLayout` | main.py:133-139 | After `$` and the optional `-`, the text is the whole units of the magnitude in decimal without leading zeros, then `.`, then the two cent digits. |
| `Money.FormatRoundTrip` | main.py:133-139 | The `$` text of an amount of cents reads back as that amount, negative amounts included. |
| `Export.FormatRow` | main.py:126-149 | The shown type is `"Credit"` exactly when the amount is at least 0 and `"Debit"` exactly when it is negative, whatever the stored type says. The shown amount reads back as the magnitude, the shown balance as the balance, and date and description pass through. |
| `Export.DisplayRecoversAmount` | main.py:133-136 | Shown type and shown magnitude together give back the stored signed amount. |
| `Export.DisplayOfAddedRow` | main.py:81-84 | A freshly added row shows the caller's magnitude. It shows `Debit` exactly when the caller asked for a non-zero Debit. |
| `Export.LineFields` | main.py:161 | A CSV line splits at its commas back into date, description, amount, type and balance, provided date and description contain no comma. |
| `Export.CsvLines` | main.py:152-163 | `Export.ExportCsv` splits at its newlines into the header line followed by one line per row of the history listing, in listing order: exactly one more line than the table has rows. Date and description must contain no newline. |
| `Export.SplitJoin` | main.py:161 | Cells that hold no separator, the last one non-empty, split back out of their joined line. |
| `Scenarios.BackdatedSecondRow` | main.py:79-123 | Adding to a one-row table a row dated before that row yields exactly two rows. The old row keeps its columns and its balance becomes its amount plus the new amount. The new row takes the next id and its balance is its own amount. |
| `Scenarios.BackdatedAddRepairsHistory` | main.py:107-119 | A table with a 100.00 credit on 2025-01-10 gets a 50.00 credit dated 2025-01-05. The new row's balance becomes 50.00 and the older row's balance becomes 150.00. |
| `Scenarios.SeededBalance` | main.py:34-66 | A freshly seeded table holds two rows and reports a balance of 4500.00. |
| `Scenarios.AddBeforeSeed` | main.py:34-123 | Any amount added to a freshly seeded table under a date before the seed day adds to both seed balances. The new row's balance is its own amount, and the current balance is 4500.00 plus that amount. |
| `Scenarios.RefundBeforeSeedDay` | main.py:79-123 | A refund dated before the seed day lands first in date order. Both seed balances grow by it, and the current balance is 4520.00. |
| `TextOrder.Transitive` | main.py:73 | The text order on dates is transitive. |
| `TextOrder.Total` | main.py:73 | Any two distinct dates are ordered one way or the other. |

## Left out

- The Streamlit pages, forms, buttons, session-state navigation and download button carry no ledger logic. The form's `min_value=0.01` guard belongs to them, so `Store.Add` accepts any amount, zero and negative included.
- sqlite connections, cursors, `commit` and `close` are I/O. The table is an in-memory value, and each function's result is the committed state.
- The `CREATE TABLE IF NOT EXISTS` statement and the call to `init_db` at import time are not modelled. `Store.Init` starts from whatever table exists.
- The clock (`datetime.now`, `today_date`) is not read. The seed date is the `today` parameter of `Store.Init`.
- Store.Init: one `today` stands for the two clock reads at main.py:41 and main.py:47. If midnight passes between them, the source dates the two seed rows a day apart; the model always dates them alike.
- Concurrency is not modelled. Streamlit may serve several sessions against the same database file, but each operation here runs alone against the table, as if every call were serialised.
- Floating point is not modelled. `REAL` columns and `+=` accumulation become exact integers counting cents. Rounding, negative zero and `.2f` rounding of values that are not whole cents do not arise.
- Money.Format: models `:.2f` only for whole cents, which is all the model's amounts can be.
- The CSV has no quoting or escaping. Export.LineFields needs dates and descriptions without commas, and Export.CsvLines needs them without newlines. With such characters the source's CSV cannot be read back into the same cells, and the model does not claim it can.
- Store.RecomputeBalances requires unique ids. The PRIMARY KEY column guarantees this, and with duplicate ids the source's `UPDATE ... WHERE id = ?` would write one sum to several rows.
- Store.CurrentBalanceIsLatest: states that the result is the balance of a chronologically last row, not which one when two rows share both date and id. The PRIMARY KEY rules that case out, and `Store.CurrentBalanceIsFirstListed` pins the row down under unique ids.
- The dates are not checked to be `YYYY-MM-DD`. Any text is ordered as sqlite orders TEXT, and that order is chronological only for that format.
