/** The `$` money text of `f"${x:.2f}"` for an exact amount of cents, and its
    inverse. */
module Money {

  function DigitChar(d: int): (c: char)
    requires 0 <= d < 10
    ensures IsDigit(c) && DigitValue(c) == d
  {
    "0123456789"[d]
  }

  predicate IsDigit(c: char)
  {
    '0' <= c <= '9'
  }

  function DigitValue(c: char): int
    requires IsDigit(c)
  {
    c as int - '0' as int
  }

  /** Decimal digits of `n`, without leading zeros. */
  function NatText(n: nat): (s: string)
    ensures |s| > 0
    ensures forall i :: 0 <= i < |s| ==> IsDigit(s[i])
    ensures n > 0 ==> s[0] != '0'
  {
    if n < 10 then [DigitChar(n)] else NatText(n / 10) + [DigitChar(n % 10)]
  }

  predicate AllDigits(s: string)
  {
    forall i :: 0 <= i < |s| ==> IsDigit(s[i])
  }

  /** Value of a string of decimal digits. */
  function DigitsValue(s: string): nat
    requires AllDigits(s)
  {
    if |s| == 0 then 0 else DigitsValue(s[..|s| - 1]) * 10 + DigitValue(s[|s| - 1])
  }

  lemma {:induction false} NatTextRoundTrip(n: nat)
    ensures DigitsValue(NatText(n)) == n
  {
    if n >= 10 {
      var s := NatText(n);
      assert s[..|s| - 1] == NatText(n / 10);
      NatTextRoundTrip(n / 10);
    }
  }

  /** The magnitude part of the money text: whole units, a point and
      exactly two digits of cents. */
  function Units(m: nat): (s: string)
    ensures |s| >= 4 && IsDigit(s[0])
    ensures forall i :: 0 <= i < |s| ==> s[i] != ',' && s[i] != '\n' && s[i] != '-'
  {
    var whole := NatText(m / 100);
    assert forall i :: 0 <= i < |whole| ==> IsDigit(whole[i]);
    whole + "." + [DigitChar(m % 100 / 10), DigitChar(m % 10)]
  }

  /** The units text digit by digit: the whole units in decimal without
      leading zeros, the point, then the tens of cents and the cents. */
  lemma UnitsLayout(m: nat)
    ensures var s := Units(m);
      && s[|s| - 3] == '.'
      && AllDigits(s[..|s| - 3]) && DigitsValue(s[..|s| - 3]) == m / 100
      && (|s| == 4 || s[0] != '0')
      && IsDigit(s[|s| - 2]) && DigitValue(s[|s| - 2]) == m % 100 / 10
      && IsDigit(s[|s| - 1]) && DigitValue(s[|s| - 1]) == m % 10
  {
    var s := Units(m);
    NatTextRoundTrip(m / 100);
    assert s[..|s| - 3] == NatText(m / 100);
  }

  /** The size of an amount of cents. */
  function Magnitude(cents: int): nat
  {
    if cents < 0 then -cents else cents
  }

  /** `f"${x:.2f}"` of `cents / 100`: a dollar sign, a minus sign exactly
      for a negative amount, then the units of the magnitude. */
  function Format(cents: int): (s: string)
    ensures |s| >= 5 && s[0] == '$'
    ensures s[1] == '-' <==> cents < 0
    ensures forall i :: 0 <= i < |s| ==> s[i] != ',' && s[i] != '\n'
  {
    if cents < 0 then "$-" + Units(-cents) else "$" + Units(cents)
  }

  /** The money text digit by digit: after `$` and the optional `-` come the
      whole units of the magnitude without leading zeros, a point, and the
      two digits of cents. */
  lemma FormatLayout(cents: int)
    ensures var s := Format(cents);
      var units := s[if cents < 0 then 2 else 1..];
      && units[|units| - 3] == '.'
      && AllDigits(units[..|units| - 3]) && DigitsValue(units[..|units| - 3]) == Magnitude(cents) / 100
      && (|units| == 4 || units[0] != '0')
      && IsDigit(units[|units| - 2]) && DigitValue(units[|units| - 2]) == Magnitude(cents) % 100 / 10
      && IsDigit(units[|units| - 1]) && DigitValue(units[|units| - 1]) == Magnitude(cents) % 10
  {
    var s := Format(cents);
    UnitsLayout(Magnitude(cents));
    assert s[if cents < 0 then 2 else 1..] == Units(Magnitude(cents));
  }

  /** A money text holds neither a comma nor a newline. */
  lemma FormatAvoids(cents: int)
    ensures ',' !in Format(cents) && '\n' !in Format(cents)
  {
    var s := Format(cents);
    assert forall i :: 0 <= i < |s| ==> s[i] != ',' && s[i] != '\n';
  }

  datatype Option = None | Some(value: int)

  /** Reads the units back: one or more digits, `.` and two digits. */
  function ParseUnits(body: string): (r: Option)
  {
    if |body| < 4 || body[|body| - 3] != '.' then None
    else
      var whole := body[..|body| - 3];
      var d1, d2 := body[|body| - 2], body[|body| - 1];
      if !AllDigits(whole) || !IsDigit(d1) || !IsDigit(d2) then None
      else Some(DigitsValue(whole) * 100 + DigitValue(d1) * 10 + DigitValue(d2))
  }

  /** Reads a money text back: `$`, an optional `-`, then the units;
      anything else is `None`. */
  function Parse(s: string): (r: Option)
  {
    if |s| < 5 || s[0] != '$' then None
    else if s[1] == '-' then
      match ParseUnits(s[2..])
      case None => None
      case Some(m) => Some(-m)
    else ParseUnits(s[1..])
  }

  lemma UnitsRoundTrip(m: nat)
    ensures ParseUnits(Units(m)) == Some(m)
  {
    UnitsLayout(m);
    WholeAndCents(m);
  }

  /** The whole units, the tens of cents and the cents give back the amount. */
  lemma WholeAndCents(m: nat)
    ensures (m / 100) * 100 + (m % 100 / 10) * 10 + m % 10 == m
  {
    assert m % 10 == m % 100 % 10;
  }

  /** Formatting loses nothing: the text reads back as the same amount. */
  lemma FormatRoundTrip(cents: int)
    ensures Parse(Format(cents)) == Some(cents)
  {
    var s := Format(cents);
    FormatLayout(cents);
    WholeAndCents(Magnitude(cents));
    if cents < 0 {
      assert ParseUnits(s[2..]) == Some(-cents);
    } else {
      assert ParseUnits(s[1..]) == Some(cents);
    }
  }
}
