/** The data-file line of one expense: six fields joined by '|' in the order
    id, amount, category, description, date, payment method name. */
module LineFormat {
  import opened Wrappers
  import opened Text
  import opened Lines
  import opened Digits
  import opened Amounts
  import opened Dates
  import opened PaymentMethods
  import opened Expenses

  /** The field separator; `split("\\|")` splits at this literal char. */
  const Bar: string := "|"

  /** Neither the field separator nor a line break. */
  predicate IsPlainChar(c: char) {
    c != '|' && !IsLineBreak(c)
  }

  /** Text that can stand as one field of a line. */
  predicate IsPlainField(s: string) {
    forall i :: 0 <= i < |s| ==> IsPlainChar(s[i])
  }

  /** The record's text fields can be written into one line and read back, and
      its date has a year a LocalDate can hold. */
  predicate IsStorable(e: Expense) {
    && IsPlainField(e.id)
    && IsPlainField(e.category)
    && IsPlainField(e.description)
    && InYearRange(e.date.year)
  }

  /** The six fields of the line, in the order they are written. */
  function Fields(e: Expense): seq<string> {
    [e.id, FormatAmount(e.amount), e.category, e.description, FormatDate(e.date), e.paymentMethod.Name()]
  }

  /** `formatExpense`: the fields joined by '|'. For a storable record the line
      has no line break and Java's split gives the six fields back in order. */
  function FormatExpense(e: Expense): (line: string)
    ensures IsStorable(e) ==> HasNoLineBreak(line)
    ensures IsStorable(e) ==> SplitDiscardingTrailingEmpty(line, Bar) == Fields(e)
  {
    var fields := Fields(e);
    if IsStorable(e) then
      FieldsArePlain(e);
      forall k | 0 <= k < |fields| ensures !Contains(fields[k], Bar) {
        PlainFieldHasNoBar(fields[k]);
      }
      JoinHasNoLineBreak(fields, Bar);
      JavaSplitJoin(fields, Bar);
      Join(fields, Bar)
    else
      Join(fields, Bar)
  }

  /** `parseExpense`: null (here `None`) unless the line splits into exactly six
      fields, the amount and date fields parse and the last field is exactly a
      payment method's name; the record then carries the fields as read. */
  function ParseExpense(line: string): (r: Option<Expense>)
    ensures var parts := SplitDiscardingTrailingEmpty(line, Bar);
      r.Some? <==>
        |parts| == 6 && ParseAmount(parts[1]).Some? && ParseDate(parts[4]).Some?
        && ValueOf(parts[5]).Some?
    ensures var parts := SplitDiscardingTrailingEmpty(line, Bar);
      r.Some? ==>
        && r.value.id == parts[0]
        && Some(r.value.amount) == ParseAmount(parts[1])
        && r.value.category == parts[2]
        && r.value.description == parts[3]
        && Some(r.value.date) == ParseDate(parts[4])
        && r.value.paymentMethod.Name() == parts[5]
  {
    var parts := SplitDiscardingTrailingEmpty(line, Bar);
    if |parts| != 6 then None
    else
      match (ParseAmount(parts[1]), ParseDate(parts[4]), ValueOf(parts[5]))
      case (Some(amount), Some(date), Some(pm)) =>
        var made := NewExpense(Some(parts[0]), amount, Some(parts[2]), Some(parts[3]),
                               Some(date), Some(pm), date);
        Some(made.value)
      case _ => None
  }

  /** Reading back the line of a storable record gives the record. */
  lemma ParseFormatExpense(e: Expense)
    requires IsStorable(e)
    ensures ParseExpense(FormatExpense(e)) == Some(e)
  {
    var fields := Fields(e);
    assert SplitDiscardingTrailingEmpty(FormatExpense(e), Bar) == fields;
    ParseFormatAmount(e.amount);
    ParseFormatDate(e.date);
    assert ValueOf(fields[5]) == Some(e.paymentMethod);
  }

  /** A category holding a '|' between two plain texts turns the record's line
      into seven fields, so `parseExpense` refuses it. */
  lemma BarInCategoryIsUnreadable(e: Expense, x: string, y: string)
    requires e.category == x + Bar + y
    requires IsPlainField(e.id) && IsPlainField(x) && IsPlainField(y) && IsPlainField(e.description)
    ensures |SplitDiscardingTrailingEmpty(FormatExpense(e), Bar)| == 7
    ensures ParseExpense(FormatExpense(e)) == None
    ensures HasNoLineBreak(FormatExpense(e))
  {
    var parts := CutFields(e, x, y);
    LineOfCutFields(e, x, y);
    CutFieldsSplitBack(e, x, y);
    JoinHasNoLineBreak(parts, Bar);
    assert |SplitDiscardingTrailingEmpty(FormatExpense(e), Bar)| == |parts|;
  }

  /** The record's fields with the category cut in two at its '|'. */
  function CutFields(e: Expense, x: string, y: string): seq<string> {
    [e.id, FormatAmount(e.amount), x, y, e.description, FormatDate(e.date), e.paymentMethod.Name()]
  }

  /** The line is also the cut fields joined by '|'. */
  lemma LineOfCutFields(e: Expense, x: string, y: string)
    requires e.category == x + Bar + y
    ensures FormatExpense(e) == Join(CutFields(e, x, y), Bar)
  {
    var amount, date, name := FormatAmount(e.amount), FormatDate(e.date), e.paymentMethod.Name();
    LineIsJoinedFields(e);
    assert Fields(e) == [e.id, amount, e.category, e.description, date, name];
    assert CutFields(e, x, y) == [e.id, amount, x, y, e.description, date, name];
    JoinCutsSixth(e.id, amount, x, y, e.description, date, name, Bar);
  }

  lemma LineIsJoinedFields(e: Expense)
    ensures FormatExpense(e) == Join(Fields(e), Bar)
  {
  }

  /** Java's split of the joined cut fields gives all seven back. */
  lemma CutFieldsSplitBack(e: Expense, x: string, y: string)
    requires IsPlainField(e.id) && IsPlainField(x) && IsPlainField(y) && IsPlainField(e.description)
    ensures SplitDiscardingTrailingEmpty(Join(CutFields(e, x, y), Bar), Bar) == CutFields(e, x, y)
    ensures forall k :: 0 <= k < |CutFields(e, x, y)| ==> HasNoLineBreak(CutFields(e, x, y)[k])
  {
    var parts := CutFields(e, x, y);
    AmountIsPlain(e.amount);
    FormatDateIsPlain(e.date);
    NameIsPlain(e.paymentMethod);
    forall k | 0 <= k < |parts| ensures !Contains(parts[k], Bar) && HasNoLineBreak(parts[k]) {
      PlainFieldHasNoBar(parts[k]);
    }
    JavaSplitJoin(parts, Bar);
  }

  /** A record read from a line without line breaks is storable, so writing it
      and reading it again gives it back. */
  lemma ParsedIsStorable(line: string)
    requires HasNoLineBreak(line)
    requires ParseExpense(line).Some?
    ensures IsStorable(ParseExpense(line).value)
    ensures ParseExpense(FormatExpense(ParseExpense(line).value)) == ParseExpense(line)
  {
    PartsArePlain(line);
    var e := ParseExpense(line).value;
    assert IsStorable(e);
    ParseFormatExpense(e);
  }

  /** The fields of a line without line breaks are plain text. */
  lemma PartsArePlain(line: string)
    requires HasNoLineBreak(line)
    ensures var parts := SplitDiscardingTrailingEmpty(line, Bar);
      forall k :: 0 <= k < |parts| ==> IsPlainField(parts[k])
  {
    var split := Split(line, Bar);
    var parts := SplitDiscardingTrailingEmpty(line, Bar);
    assert parts == split[..|parts|];
    JoinedPartsHaveNoLineBreak(split, Bar);
    forall k | 0 <= k < |parts| ensures IsPlainField(parts[k]) {
      assert parts[k] == split[k];
      NoBarIsPlain(parts[k]);
    }
  }

  /** A record's line always holds a '|', so it is never blank. */
  lemma FormatIsNotBlank(e: Expense)
    ensures !IsBlank(FormatExpense(e))
  {
    var fields := Fields(e);
    var line := FormatExpense(e);
    assert line == e.id + Bar + Join(fields[1..], Bar);
    assert line[|e.id|] == '|';
  }

  lemma PlainFieldHasNoBar(s: string)
    requires IsPlainField(s)
    ensures !Contains(s, Bar) && HasNoLineBreak(s)
  {
    forall i | 0 <= i <= |s| ensures !OccursAt(s, Bar, i) {
      if i + 1 <= |s| {
        assert s[i..i + 1][0] == s[i];
      }
    }
  }

  lemma NoBarIsPlain(s: string)
    requires !Contains(s, Bar) && HasNoLineBreak(s)
    ensures IsPlainField(s)
  {
    forall i | 0 <= i < |s| ensures s[i] != '|' {
      assert s[i..i + 1][0] == s[i];
      assert !OccursAt(s, Bar, i);
    }
  }

  lemma PlainConcat(a: string, b: string)
    requires IsPlainField(a) && IsPlainField(b)
    ensures IsPlainField(a + b)
  {
    forall i | 0 <= i < |a + b| ensures IsPlainChar((a + b)[i]) {
      if i >= |a| {
        assert (a + b)[i] == b[i - |a|];
      }
    }
  }

  /** Every field of a storable record is plain text, and the last is not empty. */
  lemma FieldsArePlain(e: Expense)
    requires IsStorable(e)
    ensures forall k :: 0 <= k < |Fields(e)| ==> IsPlainField(Fields(e)[k])
    ensures Fields(e)[5] != ""
  {
    AmountIsPlain(e.amount);
    FormatDateIsPlain(e.date);
    NameIsPlain(e.paymentMethod);
    var f := Fields(e);
    forall k | 0 <= k < |f| ensures IsPlainField(f[k]) {
      if k == 0 { assert f[k] == e.id; }
      else if k == 1 { assert f[k] == FormatAmount(e.amount); }
      else if k == 2 { assert f[k] == e.category; }
      else if k == 3 { assert f[k] == e.description; }
      else if k == 4 { assert f[k] == FormatDate(e.date); }
      else { assert f[k] == e.paymentMethod.Name(); }
    }
  }

  lemma AmountIsPlain(c: Cents)
    ensures IsPlainField(FormatAmount(c))
  {
  }

  lemma DigitsArePlain(s: string)
    requires AllDigits(s)
    ensures IsPlainField(s)
  {
  }

  lemma FormatDateIsPlain(d: Date)
    ensures IsPlainField(FormatDate(d))
  {
    var y := d.year;
    var sign := if y < 0 then "-" else if y > 9999 then "+" else "";
    var digits := PadLeft(Decimal(if y < 0 then -y else y), 4);
    var yt, mt, dt := FormatYear(y), TwoDigits(d.month), TwoDigits(d.day);
    assert yt == sign + digits;
    assert IsPlainField(sign);
    DigitsArePlain(digits);
    DigitsArePlain(mt);
    DigitsArePlain(dt);
    PlainConcat(sign, digits);
    var s1 := yt + "-";
    PlainConcat(yt, "-");
    var s2 := s1 + mt;
    PlainConcat(s1, mt);
    var s3 := s2 + "-";
    PlainConcat(s2, "-");
    PlainConcat(s3, dt);
    assert FormatDate(d) == s3 + dt;
  }

  lemma NameIsPlain(m: PaymentMethod)
    ensures IsPlainField(m.Name()) && m.Name() != ""
  {
    match m
    case Cash => assert IsPlainField("CASH");
    case CreditCard => assert IsPlainField("CREDIT_CARD");
    case DebitCard => assert IsPlainField("DEBIT_CARD");
    case BankTransfer => assert IsPlainField("BANK_TRANSFER");
    case DigitalWallet => assert IsPlainField("DIGITAL_WALLET");
  }

  lemma NoLineBreakConcat(a: string, b: string)
    requires HasNoLineBreak(a) && HasNoLineBreak(b)
    ensures HasNoLineBreak(a + b)
  {
    forall i | 0 <= i < |a + b| ensures !IsLineBreak((a + b)[i]) {
      if i >= |a| {
        assert (a + b)[i] == b[i - |a|];
      }
    }
  }

  lemma {:induction false} JoinHasNoLineBreak(parts: seq<string>, sep: string)
    requires HasNoLineBreak(sep)
    requires forall k :: 0 <= k < |parts| ==> HasNoLineBreak(parts[k])
    ensures HasNoLineBreak(Join(parts, sep))
  {
    if |parts| > 1 {
      JoinHasNoLineBreak(parts[1..], sep);
      NoLineBreakConcat(parts[0], sep);
      NoLineBreakConcat(parts[0] + sep, Join(parts[1..], sep));
    }
  }

  /** Each piece of a joined text without line breaks has none either. */
  lemma {:induction false} JoinedPartsHaveNoLineBreak(parts: seq<string>, sep: string)
    requires HasNoLineBreak(Join(parts, sep))
    ensures forall k :: 0 <= k < |parts| ==> HasNoLineBreak(parts[k])
  {
    if |parts| > 1 {
      var s := Join(parts, sep);
      var rest := Join(parts[1..], sep);
      assert s == parts[0] + sep + rest;
      forall i | 0 <= i < |parts[0]| ensures !IsLineBreak(parts[0][i]) {
        assert s[i] == parts[0][i];
      }
      forall i | 0 <= i < |rest| ensures !IsLineBreak(rest[i]) {
        assert s[|parts[0]| + |sep| + i] == rest[i];
      }
      JoinedPartsHaveNoLineBreak(parts[1..], sep);
      forall k | 1 <= k < |parts| ensures HasNoLineBreak(parts[k]) {
        assert parts[k] == parts[1..][k - 1];
      }
    }
  }
}
