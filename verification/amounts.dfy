/** Money amounts. The source keeps amounts in a `double`; the model keeps them
    as an exact whole number of cents, so that sums are exact, and gives the
    amount field of a data-file line a concrete text form. */
module Amounts {
  import opened Wrappers
  import opened Digits
  import opened Text

  /** An amount in hundredths of the currency unit. */
  type Cents = int

  /** 1,000,000 currency units, the largest amount the validator accepts. */
  const MaxAmount: Cents := 100_000_000

  /** The fraction digits `Double.toString` prints for `f` cents: at least one
      digit and no trailing zero after the first. */
  function FractionText(f: nat): (s: string)
    requires f < 100
    ensures 1 <= |s| <= 2 && AllDigits(s)
  {
    if f % 10 == 0 then [DigitChar(f / 10)] else [DigitChar(f / 10), DigitChar(f % 10)]
  }

  /** `String.valueOf(double)` for a whole number of cents: optional '-', the
      whole units, '.', then one or two fraction digits ("25.5", "100.0", "0.05"). */
  function FormatAmount(c: Cents): (s: string)
    ensures |s| >= 3 && !IsTrimmable(s[0]) && IsDigit(s[|s| - 1])
    ensures forall i :: 0 <= i < |s| ==> IsDigit(s[i]) || s[i] == '-' || s[i] == '.'
  {
    var a: nat := if c < 0 then -c else c;
    (if c < 0 then "-" else "") + Decimal(a / 100) + "." + FractionText(a % 100)
  }

  /** The cents that one or two fraction digits stand for ("5" is 50, "05" is 5). */
  function FractionCents(f: string): (n: nat)
    requires AllDigits(f) && |f| <= 2
    ensures n < 100
  {
    if |f| == 0 then 0
    else if |f| == 1 then 10 * DigitValue(f[0])
    else 10 * DigitValue(f[0]) + DigitValue(f[1])
  }

  /** `Double.parseDouble` restricted to amounts with at most two fraction
      digits: surrounding trimmable chars are ignored, then an optional sign and
      an unsigned decimal ("25", "25.", ".5" and "-0.05" are all accepted). */
  function ParseAmount(s: string): Option<Cents>
  {
    var t := Trim(s);
    if |t| > 0 && (t[0] == '-' || t[0] == '+') then
      match ParseUnsigned(t[1..])
      case None => None
      case Some(m) => Some(if t[0] == '-' then -(m as int) else m)
    else
      match ParseUnsigned(t)
      case None => None
      case Some(m) => Some(m)
  }

  /** Whole digits and an optional '.' followed by up to two fraction digits,
      with at least one digit overall, read as cents. */
  function ParseUnsigned(body: string): Option<nat>
  {
    match IndexOf(body, ".", 0)
    case None => ParseDecimalParts(body, "")
    case Some(i) => ParseDecimalParts(body[..i], body[i + 1..])
  }

  function ParseDecimalParts(whole: string, fraction: string): Option<nat>
  {
    if AllDigits(whole) && AllDigits(fraction) && |whole| + |fraction| >= 1 && |fraction| <= 2
    then Some(Value(whole) * 100 + FractionCents(fraction))
    else None
  }

  /** Digit strings contain no '.'. */
  lemma NoDotInDigits(s: string)
    requires AllDigits(s)
    ensures !Contains(s, ".")
  {
    forall i | 0 <= i < |s| ensures !OccursAt(s, ".", i) {
      assert s[i..i + 1][0] == s[i];
    }
  }

  /** Whole digits, '.', fraction digits read back as the cents they stand for. */
  lemma ParseUnsignedDecimal(units: string, frac: string)
    requires AllDigits(units) && |units| >= 1
    requires AllDigits(frac) && 1 <= |frac| <= 2
    ensures ParseUnsigned(units + "." + frac) == Some(Value(units) * 100 + FractionCents(frac))
  {
    var body := units + "." + frac;
    DotSplitsDecimal(units, frac);
    ParseUnsignedAt(body, |units|);
    DecimalPartsValue(units, frac);
  }

  /** The first '.' of `units.frac` is the one after the whole digits. */
  lemma DotSplitsDecimal(units: string, frac: string)
    requires AllDigits(units)
    ensures var body := units + "." + frac;
      && IndexOf(body, ".", 0) == Some(|units|)
      && body[..|units|] == units && body[|units| + 1..] == frac
  {
    var body := units + "." + frac;
    NoDotInDigits(units);
    assert Unbordered(".");
    FirstOccurrenceAfterField(units, ".", frac);
    assert body[..|units|] == units;
    assert body[|units| + 1..] == frac;
  }

  lemma ParseUnsignedAt(body: string, i: nat)
    requires IndexOf(body, ".", 0) == Some(i)
    ensures i + 1 <= |body|
    ensures ParseUnsigned(body) == ParseDecimalParts(body[..i], body[i + 1..])
  {
  }

  lemma DecimalPartsValue(units: string, frac: string)
    requires AllDigits(units) && |units| >= 1
    requires AllDigits(frac) && 1 <= |frac| <= 2
    ensures ParseDecimalParts(units, frac) == Some(Value(units) * 100 + FractionCents(frac))
  {
  }

  /** Reading an amount back from its text gives the amount. */
  lemma ParseFormatAmount(c: Cents)
    ensures ParseAmount(FormatAmount(c)) == Some(c)
  {
    var a: nat := if c < 0 then -c else c;
    var units := Decimal(a / 100);
    var frac := FractionText(a % 100);
    var body := units + "." + frac;
    var s := FormatAmount(c);
    FormatAmountShape(c);
    ParseAmountOf(s, c < 0, body);
    ParseUnsignedDecimal(units, frac);
    FractionRoundTrip(a % 100);
    assert Value(units) * 100 + FractionCents(frac) == a;
  }

  /** A trimmed text that is an optional '-' before an unsigned body reads as
      the body's value, negated after the '-'. */
  lemma ParseAmountOf(s: string, negative: bool, body: string)
    requires Trim(s) == s
    requires negative ==> |s| > 0 && s[0] == '-' && s[1..] == body
    requires !negative ==> s == body && |s| > 0 && s[0] != '-' && s[0] != '+'
    ensures ParseAmount(s) == match ParseUnsigned(body)
      case None => None
      case Some(m) => Some(if negative then -(m as int) else m)
  {
  }

  /** The text of an amount is its own trim: a sign when negative, then the
      unsigned decimal. */
  lemma FormatAmountShape(c: Cents)
    ensures var a: nat := if c < 0 then -c else c;
      var body := Decimal(a / 100) + "." + FractionText(a % 100);
      var s := FormatAmount(c);
      && Trim(s) == s
      && (c < 0 ==> |s| > 0 && s[0] == '-' && s[1..] == body)
      && (c >= 0 ==> s == body && s[0] != '-' && s[0] != '+')
  {
    var a: nat := if c < 0 then -c else c;
    var body := Decimal(a / 100) + "." + FractionText(a % 100);
    var s := FormatAmount(c);
    if c < 0 {
      assert s == "-" + body;
      assert s[1..] == body;
    } else {
      assert s == body;
      assert IsDigit(s[0]);
    }
  }

  lemma FractionRoundTrip(f: nat)
    requires f < 100
    ensures FractionCents(FractionText(f)) == f
  {
  }
}
