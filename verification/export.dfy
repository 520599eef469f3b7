/** `format_transactions_for_table` and `export_transactions_to_csv`: the
    display form of a row and the CSV text built from the history listing. */
module Export {
  import opened Ledger
  import Store
  import Money

  /** One row as the history table shows it; every cell is text. */
  datatype DisplayRow = DisplayRow(
    date: string,
    description: string,
    amount: string,
    kind: string,
    balance: string)

  /** The display form of a row: the type is re-derived from the sign of the
      amount, whatever the stored type column says, and the amount is shown
      as its magnitude. */
  function FormatRow(x: Row): (d: DisplayRow)
    ensures d.kind == "Credit" <==> x.amount >= 0
    ensures d.kind == "Debit" <==> x.amount < 0
    ensures Money.Parse(d.amount) == Money.Some(Store.Abs(x.amount))
    ensures Money.Parse(d.balance) == Money.Some(x.balance)
    ensures d.date == x.date && d.description == x.description
  {
    Money.FormatRoundTrip(Store.Abs(x.amount));
    Money.FormatRoundTrip(x.balance);
    DisplayRow(
      x.date,
      x.description,
      Money.Format(Store.Abs(x.amount)),
      if x.amount >= 0 then "Credit" else "Debit",
      Money.Format(x.balance))
  }

  /** The whole listing in display form, row for row. */
  function FormatRows(rows: seq<Row>): (ds: seq<DisplayRow>)
    ensures |ds| == |rows|
    ensures forall i :: 0 <= i < |rows| ==> ds[i] == FormatRow(rows[i])
  {
    seq(|rows|, i requires 0 <= i < |rows| => FormatRow(rows[i]))
  }

  /** The signed amount a display row stands for: the shown magnitude,
      negated for a `Debit`. */
  function SignedAmount(d: DisplayRow): Money.Option
  {
    match Money.Parse(d.amount)
    case None => Money.None
    case Some(m) => Money.Some(if d.kind == "Debit" then -m else m)
  }

  /** The display form loses nothing: sign and magnitude give back the
      stored amount. */
  lemma DisplayRecoversAmount(x: Row)
    ensures SignedAmount(FormatRow(x)) == Money.Some(x.amount)
  {
  }

  /** A freshly added row shows the caller's magnitude, and shows `Debit`
      exactly when the caller asked for a non-zero `Debit`. */
  lemma DisplayOfAddedRow(t: Table, date: string, description: string, amount: int, kind: string)
    ensures var d := FormatRow(Store.Add(t, date, description, amount, kind).rows[|t.rows|]);
      && Money.Parse(d.amount) == Money.Some(Store.Abs(amount))
      && (d.kind == "Debit" <==> kind == "Debit" && amount != 0)
  {
  }

  const Header: string := "Date,Description,Amount,Type,Running Balance"

  /** Cells joined by `sep`, with no escaping. */
  function Join(cells: seq<string>, sep: char): string
    requires |cells| > 0
  {
    if |cells| == 1 then cells[0] else cells[0] + [sep] + Join(cells[1..], sep)
  }

  /** The five cells of a display row as one CSV line (without its newline). */
  function Line(d: DisplayRow): string
  {
    Join([d.date, d.description, d.amount, d.kind, d.balance], ',')
  }

  /** One newline-terminated line per display row, in order. */
  function Body(ds: seq<DisplayRow>): string
  {
    if |ds| == 0 then "" else Line(ds[0]) + "\n" + Body(ds[1..])
  }

  /** `export_transactions_to_csv`: the header line, then the history
      listing in display form. */
  function ExportCsv(t: Table): string
  {
    Header + "\n" + Body(FormatRows(Store.ListTransactions(t)))
  }

  /** Index of the first `c` in `s`, or `|s|` when there is none. */
  function IndexOf(s: string, c: char): (i: nat)
    ensures i <= |s|
    ensures forall k :: 0 <= k < i ==> s[k] != c
    ensures i < |s| ==> s[i] == c
  {
    if |s| == 0 || s[0] == c then 0 else 1 + IndexOf(s[1..], c)
  }

  /** Cuts `s` at every `c`; a final `c` does not start an empty piece. */
  function Split(s: string, c: char): seq<string>
    decreases |s|
  {
    if |s| == 0 then []
    else
      var i := IndexOf(s, c);
      if i == |s| then [s] else [s[..i]] + Split(s[i + 1..], c)
  }

  lemma SplitCons(p: string, c: char, rest: string)
    requires c !in p
    ensures Split(p + [c] + rest, c) == [p] + Split(rest, c)
  {
    var s := p + [c] + rest;
    assert forall k :: 0 <= k < |p| ==> s[k] == p[k] && p[k] != c;
    assert s[|p|] == c;
    assert IndexOf(s, c) == |p|;
    assert s[..|p|] == p && s[|p| + 1..] == rest;
  }

  lemma SplitSingle(p: string, c: char)
    requires |p| > 0 && c !in p
    ensures Split(p, c) == [p]
  {
    assert forall k :: 0 <= k < |p| ==> p[k] != c;
    assert IndexOf(p, c) == |p|;
  }

  /** Joined cells that hold no separator split back into the same cells;
      the last cell must be non-empty, as a trailing separator is dropped. */
  lemma {:induction false} SplitJoin(cells: seq<string>, c: char)
    requires |cells| > 0 && |cells[|cells| - 1]| > 0
    requires forall i :: 0 <= i < |cells| ==> c !in cells[i]
    ensures Split(Join(cells, c), c) == cells
  {
    if |cells| == 1 {
      SplitSingle(cells[0], c);
    } else {
      var head, rest := cells[0], cells[1..];
      JoinTail(cells, c);
      SplitJoin(rest, c);
      SplitCons(head, c, Join(rest, c));
    }
  }

  /** The facts `SplitJoin` needs about the cells after the first. */
  lemma JoinTail(cells: seq<string>, c: char)
    requires |cells| > 1 && |cells[|cells| - 1]| > 0
    requires forall i :: 0 <= i < |cells| ==> c !in cells[i]
    ensures Join(cells, c) == cells[0] + [c] + Join(cells[1..], c)
    ensures cells == [cells[0]] + cells[1..] && c !in cells[0]
    ensures |cells[1..][|cells[1..]| - 1]| > 0
    ensures forall i :: 0 <= i < |cells[1..]| ==> c !in cells[1..][i]
  {
    assert forall i :: 0 <= i < |cells[1..]| ==> cells[1..][i] == cells[i + 1];
  }

  /** Joining adds no character other than the separator. */
  lemma {:induction false} JoinAvoids(cells: seq<string>, sep: char, c: char)
    requires |cells| > 0 && c != sep
    requires forall i :: 0 <= i < |cells| ==> c !in cells[i]
    ensures c !in Join(cells, sep)
  {
    if |cells| > 1 {
      JoinAvoids(cells[1..], sep, c);
    }
  }

  /** No comma in the free-text cells of a row. */
  predicate CommaFree(x: Row)
  {
    ',' !in x.date && ',' !in x.description
  }

  /** The cells a display row computes, money texts and type, hold neither a
      comma nor a newline. */
  lemma ComputedCellsAvoid(x: Row, c: char)
    requires c == ',' || c == '\n'
    ensures var d := FormatRow(x);
      c !in d.amount && c !in d.kind && c !in d.balance
  {
    Money.FormatAvoids(Store.Abs(x.amount));
    Money.FormatAvoids(x.balance);
    assert forall i :: 0 <= i < |"Credit"| ==> "Credit"[i] != c;
    assert forall i :: 0 <= i < |"Debit"| ==> "Debit"[i] != c;
  }

  /** A line holds a newline only if the row's date or description does. */
  lemma LineHasNoNewline(x: Row)
    requires '\n' !in x.date && '\n' !in x.description
    ensures '\n' !in Line(FormatRow(x))
  {
    var d := FormatRow(x);
    ComputedCellsAvoid(x, '\n');
    var cells := [d.date, d.description, d.amount, d.kind, d.balance];
    assert forall i :: 0 <= i < |cells| ==> '\n' !in cells[i];
    JoinAvoids(cells, ',', '\n');
  }

  /** When the date and description hold no comma, the five cells of a line
      read back apart. */
  lemma LineFields(x: Row)
    requires CommaFree(x)
    ensures var d := FormatRow(x);
      Split(Line(d), ',') == [d.date, d.description, d.amount, d.kind, d.balance]
  {
    var d := FormatRow(x);
    ComputedCellsAvoid(x, ',');
    var cells := [d.date, d.description, d.amount, d.kind, d.balance];
    assert forall i :: 0 <= i < |cells| ==> ',' !in cells[i];
    SplitJoin(cells, ',');
  }

  /** The lines of the display rows, in order. */
  function Lines(ds: seq<DisplayRow>): (r: seq<string>)
    ensures |r| == |ds|
    ensures forall i :: 0 <= i < |ds| ==> r[i] == Line(ds[i])
  {
    if |ds| == 0 then [] else [Line(ds[0])] + Lines(ds[1..])
  }

  /** The body splits back into one line per display row. */
  lemma {:induction false} BodyLines(ds: seq<DisplayRow>)
    requires forall i :: 0 <= i < |ds| ==> '\n' !in Line(ds[i])
    ensures Split(Body(ds), '\n') == Lines(ds)
  {
    if |ds| > 0 {
      SplitCons(Line(ds[0]), '\n', Body(ds[1..]));
      BodyLines(ds[1..]);
    }
  }

  /** No date or description holds a newline. */
  predicate SingleLine(rows: seq<Row>)
  {
    forall i :: 0 <= i < |rows| ==> '\n' !in rows[i].date && '\n' !in rows[i].description
  }

  lemma HeaderIsOneLine()
    ensures '\n' !in Header
  {
    assert forall i :: 0 <= i < |Header| ==> Header[i] != '\n';
  }

  /** The listing keeps every row, so it keeps `SingleLine`; its display
      lines then hold no newline. */
  lemma ListingLinesAreSingle(t: Table)
    requires SingleLine(t.rows)
    ensures var ds := FormatRows(Store.ListTransactions(t));
      forall i :: 0 <= i < |ds| ==> '\n' !in Line(ds[i])
  {
    var listing := Store.ListTransactions(t);
    forall i | 0 <= i < |listing|
      ensures '\n' !in Line(FormatRow(listing[i]))
    {
      assert listing[i] in multiset(t.rows);
      LineHasNoNewline(listing[i]);
    }
  }

  /** The CSV is the header line followed by exactly one line per row of the
      history listing, in listing order, provided no date or description
      holds a newline. */
  lemma CsvLines(t: Table)
    requires SingleLine(t.rows)
    ensures Split(ExportCsv(t), '\n') == [Header] + Lines(FormatRows(Store.ListTransactions(t)))
    ensures |Split(ExportCsv(t), '\n')| == |t.rows| + 1
  {
    var listing := Store.ListTransactions(t);
    var ds := FormatRows(listing);
    ListingLinesAreSingle(t);
    BodyLines(ds);
    HeaderIsOneLine();
    SplitCons(Header, '\n', Body(ds));
    assert |listing| == |multiset(listing)| == |t.rows|;
  }
}
