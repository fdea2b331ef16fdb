/** Input validation: the business rules an expense's fields must meet, the
    result object carrying the violated rules' messages, and the lookup of a
    payment method by name or label. */
module Validation {
  import opened Wrappers
  import opened Text
  import opened Amounts
  import opened Dates
  import opened PaymentMethods

  /** `ValidationResult`: the flag and the error list given to its constructor,
      returned unchanged by `isValid()` and `getErrors()`. */
  datatype ValidationResult = ValidationResult(isValid: bool, errors: seq<string>)

  const AmountNotPositive := "Amount must be greater than 0"
  const AmountTooLarge := "Amount exceeds maximum limit of 1,000,000"
  const CategoryEmpty := "Category cannot be empty"
  const CategoryTooLong := "Category cannot exceed 50 characters"
  const DescriptionTooLong := "Description cannot exceed 200 characters"
  const DateMissing := "Date cannot be null"
  const DateInFuture := "Date cannot be in the future"
  const DateTooOld := "Date cannot be more than 10 years in the past"

  const MaxCategoryLength := 50
  const MaxDescriptionLength := 200
  const MaxYearsBack := 10

  /** The messages in the order their checks run. */
  const CheckOrder: seq<string> := [
    AmountNotPositive, AmountTooLarge, CategoryEmpty, CategoryTooLong,
    DescriptionTooLong, DateMissing, DateInFuture, DateTooOld]

  /** The position of a message's check in `CheckOrder`. */
  function Rank(message: string): nat {
    if message == AmountNotPositive then 0
    else if message == AmountTooLarge then 1
    else if message == CategoryEmpty then 2
    else if message == CategoryTooLong then 3
    else if message == DescriptionTooLong then 4
    else if message == DateMissing then 5
    else if message == DateInFuture then 6
    else 7
  }

  /** The business rules, stated as what an acceptable expense looks like: an
      amount in (0, 1,000,000], a category that is not blank and has at most 50
      chars, an absent description or one of at most 200 chars, and a date from
      ten years before today through tomorrow, both ends included. */
  predicate IsAcceptable(
    amount: Cents, category: Option<string>, description: Option<string>,
    date: Option<Date>, today: Date)
  {
    && 0 < amount <= MaxAmount
    && category.Some? && !IsBlank(category.value) && |category.value| <= MaxCategoryLength
    && (description.None? || |description.value| <= MaxDescriptionLength)
    && date.Some?
    && !IsBefore(date.value, MinusYears(today, MaxYearsBack))
    && !IsAfter(date.value, PlusOneDay(today))
  }

  /** A message group: empty or one of the listed messages. */
  predicate AtMostOneOf(g: seq<string>, choices: seq<string>) {
    g == [] || (|g| == 1 && g[0] in choices)
  }

  function AmountErrors(amount: Cents): (g: seq<string>)
    ensures AtMostOneOf(g, [AmountNotPositive, AmountTooLarge])
    ensures AmountNotPositive in g <==> amount <= 0
    ensures AmountTooLarge in g <==> amount > MaxAmount
  {
    if amount <= 0 then [AmountNotPositive]
    else if amount > MaxAmount then [AmountTooLarge]
    else []
  }

  function CategoryErrors(category: Option<string>): (g: seq<string>)
    ensures AtMostOneOf(g, [CategoryEmpty, CategoryTooLong])
  {
    if category.None? || IsBlank(category.value) then [CategoryEmpty]
    else if |category.value| > MaxCategoryLength then [CategoryTooLong]
    else []
  }

  function DescriptionErrors(description: Option<string>): (g: seq<string>)
    ensures AtMostOneOf(g, [DescriptionTooLong])
  {
    if description.Some? && |description.value| > MaxDescriptionLength then [DescriptionTooLong] else []
  }

  function DateErrors(date: Option<Date>, today: Date): (g: seq<string>)
    ensures AtMostOneOf(g, [DateMissing, DateInFuture, DateTooOld])
  {
    if date.None? then [DateMissing]
    else if IsAfter(date.value, PlusOneDay(today)) then [DateInFuture]
    else if IsBefore(date.value, MinusYears(today, MaxYearsBack)) then [DateTooOld]
    else []
  }

  /** `validateExpenseData`: every check runs (no short circuit) and the
      messages of the failed ones are listed in check order. `today` stands for
      `LocalDate.now()`. */
  function ValidateExpenseData(
    amount: Cents, category: Option<string>, description: Option<string>,
    date: Option<Date>, today: Date): (r: ValidationResult)
    ensures r.isValid <==> r.errors == []
    ensures r.isValid <==> IsAcceptable(amount, category, description, date, today)
  {
    var errors := AmountErrors(amount) + CategoryErrors(category)
                  + DescriptionErrors(description) + DateErrors(date, today);
    ValidationResult(errors == [], errors)
  }

  /** At most one message per checked field, each a known message, listed in
      the order the checks run. */
  lemma ErrorsFollowCheckOrder(
    amount: Cents, category: Option<string>, description: Option<string>,
    date: Option<Date>, today: Date)
    ensures var r := ValidateExpenseData(amount, category, description, date, today);
      && |r.errors| <= 4
      && (forall i :: 0 <= i < |r.errors| ==> r.errors[i] in CheckOrder)
      && (forall i, j :: 0 <= i < j < |r.errors| ==> Rank(r.errors[i]) < Rank(r.errors[j]))
  {
    ErrorsInCheckOrder(AmountErrors(amount), CategoryErrors(category),
                       DescriptionErrors(description), DateErrors(date, today));
  }

  /** Each amount message is reported exactly when its rule is broken. */
  lemma ReportsAmountRules(
    amount: Cents, category: Option<string>, description: Option<string>,
    date: Option<Date>, today: Date)
    ensures var r := ValidateExpenseData(amount, category, description, date, today);
      && (AmountNotPositive in r.errors <==> amount <= 0)
      && (AmountTooLarge in r.errors <==> amount > MaxAmount)
  {
    var a, c, d, t := AmountErrors(amount), CategoryErrors(category),
                      DescriptionErrors(description), DateErrors(date, today);
    MessageLengths();
    InErrors(a, c, d, t, AmountNotPositive);
    InErrors(a, c, d, t, AmountTooLarge);
  }

  /** Each category message is reported exactly when its rule is broken: a
      missing or blank category is reported as empty, never as too long. */
  lemma ReportsCategoryRules(
    amount: Cents, category: Option<string>, description: Option<string>,
    date: Option<Date>, today: Date)
    ensures var r := ValidateExpenseData(amount, category, description, date, today);
      && (CategoryEmpty in r.errors <==> category.None? || IsBlank(category.value))
      && (CategoryTooLong in r.errors <==>
            category.Some? && !IsBlank(category.value) && |category.value| > MaxCategoryLength)
  {
    var a, c, d, t := AmountErrors(amount), CategoryErrors(category),
                      DescriptionErrors(description), DateErrors(date, today);
    MessageLengths();
    InErrors(a, c, d, t, CategoryEmpty);
    InErrors(a, c, d, t, CategoryTooLong);
  }

  /** The description message is reported exactly when a description is
      present and longer than 200 chars; an absent description is fine. */
  lemma ReportsDescriptionRule(
    amount: Cents, category: Option<string>, description: Option<string>,
    date: Option<Date>, today: Date)
    ensures var r := ValidateExpenseData(amount, category, description, date, today);
      DescriptionTooLong in r.errors <==>
        description.Some? && |description.value| > MaxDescriptionLength
  {
    var a, c, d, t := AmountErrors(amount), CategoryErrors(category),
                      DescriptionErrors(description), DateErrors(date, today);
    MessageLengths();
    InErrors(a, c, d, t, DescriptionTooLong);
  }

  /** Each date message is reported exactly when its rule is broken: a date
      after tomorrow is in the future, one before the same day ten years ago
      is too old. */
  lemma ReportsDateRules(
    amount: Cents, category: Option<string>, description: Option<string>,
    date: Option<Date>, today: Date)
    ensures var r := ValidateExpenseData(amount, category, description, date, today);
      && (DateMissing in r.errors <==> date.None?)
      && (DateInFuture in r.errors <==> date.Some? && IsAfter(date.value, PlusOneDay(today)))
      && (DateTooOld in r.errors <==>
            date.Some? && !IsAfter(date.value, PlusOneDay(today))
            && IsBefore(date.value, MinusYears(today, MaxYearsBack)))
  {
    var a, c, d, t := AmountErrors(amount), CategoryErrors(category),
                      DescriptionErrors(description), DateErrors(date, today);
    MessageLengths();
    InErrors(a, c, d, t, DateMissing);
    InErrors(a, c, d, t, DateInFuture);
    InErrors(a, c, d, t, DateTooOld);
  }

  /** A message is listed when one of the groups lists it. */
  lemma InErrors(a: seq<string>, c: seq<string>, d: seq<string>, t: seq<string>, x: string)
    ensures x in a + c + d + t <==> x in a || x in c || x in d || x in t
  {
  }

  /** The messages have pairwise different lengths, so they differ pairwise. */
  lemma MessageLengths()
    ensures |AmountNotPositive| == 29 && |AmountTooLarge| == 41
    ensures |CategoryEmpty| == 24 && |CategoryTooLong| == 36
    ensures |DescriptionTooLong| == 40
    ensures |DateMissing| == 19 && |DateInFuture| == 28 && |DateTooOld| == 45
  {
  }

  /** The messages differ pairwise, and `Rank` gives each its place in `CheckOrder`. */
  lemma MessagesAreDistinct()
    ensures forall i, j :: 0 <= i < j < |CheckOrder| ==> CheckOrder[i] != CheckOrder[j]
    ensures forall i :: 0 <= i < |CheckOrder| ==> Rank(CheckOrder[i]) == i
  {
    MessageLengths();
  }

  /** The four groups of messages, each in check order and each ranked below the
      next group, concatenate into a list in check order. */
  lemma ErrorsInCheckOrder(a: seq<string>, c: seq<string>, d: seq<string>, t: seq<string>)
    requires AtMostOneOf(a, [AmountNotPositive, AmountTooLarge])
    requires AtMostOneOf(c, [CategoryEmpty, CategoryTooLong])
    requires AtMostOneOf(d, [DescriptionTooLong])
    requires AtMostOneOf(t, [DateMissing, DateInFuture, DateTooOld])
    ensures var errors := a + c + d + t;
      && |errors| <= 4
      && (forall i :: 0 <= i < |errors| ==> errors[i] in CheckOrder)
      && (forall i, j :: 0 <= i < j < |errors| ==> Rank(errors[i]) < Rank(errors[j]))
  {
    var errors := a + c + d + t;
    MessagesAreDistinct();
    forall i | 0 <= i < |errors| ensures errors[i] in CheckOrder {
      GroupOf(a, c, d, t, i);
    }
    forall i, j | 0 <= i < j < |errors| ensures Rank(errors[i]) < Rank(errors[j]) {
      GroupOf(a, c, d, t, i);
      GroupOf(a, c, d, t, j);
    }
  }

  /** Which group an index of the concatenation falls in, and the rank bounds
      that group's message has. */
  lemma GroupOf(a: seq<string>, c: seq<string>, d: seq<string>, t: seq<string>, i: int)
    requires AtMostOneOf(a, [AmountNotPositive, AmountTooLarge])
    requires AtMostOneOf(c, [CategoryEmpty, CategoryTooLong])
    requires AtMostOneOf(d, [DescriptionTooLong])
    requires AtMostOneOf(t, [DateMissing, DateInFuture, DateTooOld])
    requires 0 <= i < |a + c + d + t|
    ensures var e := (a + c + d + t)[i];
      && e in CheckOrder
      && (i < |a| ==> Rank(e) <= 1)
      && (|a| <= i < |a| + |c| ==> 2 <= Rank(e) <= 3)
      && (|a| + |c| <= i < |a| + |c| + |d| ==> Rank(e) == 4)
      && (|a| + |c| + |d| <= i ==> 5 <= Rank(e))
  {
    MessagesAreDistinct();
    var e := (a + c + d + t)[i];
    if i < |a| {
      assert e == a[0];
    } else if i < |a| + |c| {
      assert e == c[0];
    } else if i < |a| + |c| + |d| {
      assert e == d[0];
    } else {
      assert e == t[0];
    }
  }

  /** Exactly 1,000,000 and tomorrow are still accepted; one cent more or one
      day later is not. */
  lemma BoundariesAreInclusive(category: string, today: Date)
    requires !IsBlank(category) && |category| <= MaxCategoryLength
    ensures ValidateExpenseData(MaxAmount, Some(category), None, Some(PlusOneDay(today)), today).isValid
    ensures !ValidateExpenseData(MaxAmount + 1, Some(category), None, Some(PlusOneDay(today)), today).isValid
    ensures !ValidateExpenseData(MaxAmount, Some(category), None, Some(PlusOneDay(PlusOneDay(today))), today).isValid
    ensures ValidateExpenseData(MaxAmount, Some(category), None, Some(MinusYears(today, MaxYearsBack)), today).isValid
  {
    var tomorrow := PlusOneDay(today);
    var earliest := MinusYears(today, MaxYearsBack);
    assert !IsBefore(tomorrow, earliest);
    assert !IsBefore(earliest, earliest) && !IsAfter(earliest, tomorrow);
  }

  /** `throwIfInvalid`: nothing when valid; otherwise a ValidationException whose
      message is the errors joined by ", ". */
  function ThrowIfInvalid(v: ValidationResult): (r: Result<(), Failure>)
    ensures r.Ok? <==> v.isValid
    ensures r.Err? ==> r.error.Validation?
  {
    if v.isValid then Ok(()) else Err(Validation(Join(v.errors, ", ")))
  }

  /** No ',' directly followed by ' '. */
  predicate NoCommaSpace(s: string) {
    forall i :: 0 <= i < |s| - 1 ==> !(s[i] == ',' && s[i + 1] == ' ')
  }

  lemma NoCommaSpaceConcat(a: string, b: string)
    requires NoCommaSpace(a) && NoCommaSpace(b)
    requires a != [] && a[|a| - 1] != ','
    ensures NoCommaSpace(a + b)
  {
    var s := a + b;
    forall i | 0 <= i < |s| - 1 ensures !(s[i] == ',' && s[i + 1] == ' ') {
      if i + 1 < |a| {
        assert s[i] == a[i] && s[i + 1] == a[i + 1];
      } else if i + 1 == |a| {
        assert s[i] == a[|a| - 1];
      } else {
        assert s[i] == b[i - |a|] && s[i + 1] == b[i + 1 - |a|];
      }
    }
  }

  lemma NoCommaSpaceHasNoSeparator(s: string)
    requires NoCommaSpace(s)
    ensures !Contains(s, ", ")
  {
    forall i | 0 <= i <= |s| ensures !OccursAt(s, ", ", i) {
      if i + 2 <= |s| {
        assert s[i..i + 2][0] == s[i] && s[i..i + 2][1] == s[i + 1];
      }
    }
  }

  /** A check message never contains the ", " that separates them. */
  lemma MessagesHaveNoSeparator(m: string)
    requires m in CheckOrder
    ensures !Contains(m, ", ")
  {
    if m == AmountNotPositive {
      AmountNotPositiveIsSeparatorFree();
    } else if m == AmountTooLarge {
      AmountTooLargeIsSeparatorFree();
    } else if m == CategoryEmpty {
      CategoryEmptyIsSeparatorFree();
    } else if m == CategoryTooLong {
      CategoryTooLongIsSeparatorFree();
    } else if m == DescriptionTooLong {
      DescriptionTooLongIsSeparatorFree();
    } else if m == DateMissing {
      DateMissingIsSeparatorFree();
    } else if m == DateInFuture {
      DateInFutureIsSeparatorFree();
    } else if m == DateTooOld {
      DateTooOldIsSeparatorFree();
    }
    NoCommaSpaceHasNoSeparator(m);
  }

  /** Text without a comma has no ", " in it. */
  lemma CommaFree(s: string)
    requires ',' !in s
    ensures NoCommaSpace(s)
  {
    forall i | 0 <= i < |s| - 1 ensures s[i] != ',' {
      assert s[i] in s;
    }
  }

  /* The long messages are taken apart into pieces short enough for the
     verifier to read char by char. */
  lemma AmountNotPositiveIsSeparatorFree()
    ensures NoCommaSpace(AmountNotPositive)
  {
    assert ',' !in AmountNotPositive;
    CommaFree(AmountNotPositive);
  }

  lemma CategoryEmptyIsSeparatorFree()
    ensures NoCommaSpace(CategoryEmpty)
  {
    assert ',' !in CategoryEmpty;
    CommaFree(CategoryEmpty);
  }

  lemma CategoryTooLongIsSeparatorFree()
    ensures NoCommaSpace(CategoryTooLong)
  {
    assert ',' !in CategoryTooLong;
    CommaFree(CategoryTooLong);
  }

  lemma DescriptionTooLongIsSeparatorFree()
    ensures NoCommaSpace(DescriptionTooLong)
  {
    assert ',' !in DescriptionTooLong;
    CommaFree(DescriptionTooLong);
  }

  lemma DateMissingIsSeparatorFree()
    ensures NoCommaSpace(DateMissing)
  {
    assert ',' !in DateMissing;
    CommaFree(DateMissing);
  }

  lemma DateInFutureIsSeparatorFree()
    ensures NoCommaSpace(DateInFuture)
  {
    assert ',' !in DateInFuture;
    CommaFree(DateInFuture);
  }

  lemma DateTooOldIsSeparatorFree()
    ensures NoCommaSpace(DateTooOld)
  {
    assert DateTooOld == "Date cannot be more than 10 years" + " in the past";
    assert ',' !in "Date cannot be more than 10 years";
    assert ',' !in " in the past";
    CommaFree(DateTooOld);
  }

  /** The only commas are those of "1,000,000", each followed by a digit. */
  lemma AmountTooLargeIsSeparatorFree()
    ensures NoCommaSpace(AmountTooLarge)
  {
    var head := "Amount exceeds maximum limit of 1";
    assert AmountTooLarge == head + ",000" + ",000";
    assert ',' !in head;
    CommaFree(head);
    assert NoCommaSpace(",000");
    NoCommaSpaceConcat(head, ",000");
    NoCommaSpaceConcat(head + ",000", ",000");
  }

  /** The exception message of an invalid validation lists every error in order:
      splitting it at ", " gives the error list back. */
  lemma ThrownMessageListsErrors(
    amount: Cents, category: Option<string>, description: Option<string>,
    date: Option<Date>, today: Date)
    requires !IsAcceptable(amount, category, description, date, today)
    ensures var v := ValidateExpenseData(amount, category, description, date, today);
      ThrowIfInvalid(v).Err? && Split(ThrowIfInvalid(v).error.message, ", ") == v.errors
  {
    var v := ValidateExpenseData(amount, category, description, date, today);
    ErrorsFollowCheckOrder(amount, category, description, date, today);
    forall i | 0 <= i < |v.errors| ensures !Contains(v.errors[i], ", ") {
      MessagesHaveNoSeparator(v.errors[i]);
    }
    assert Unbordered(", ") by {
      assert ", "[..1][0] != ", "[1..][0];
    }
    SplitJoin(v.errors, ", ");
  }

  /** `isValidPaymentMethod`: false for null, otherwise whether some constant's
      name or label equals the string ignoring case. */
  function IsValidPaymentMethod(s: Option<string>): (r: bool)
    ensures r <==> s.Some? && exists m: PaymentMethod :: m.MatchesIgnoringCase(s.value)
  {
    ValuesEnumerateAll();
    s.Some? && FirstMatch(Values, s.value).Some?
  }

  /** `parsePaymentMethod`: the constant whose name or label equals the string
      ignoring case; an IllegalArgumentException otherwise, null included. */
  function ParsePaymentMethod(s: Option<string>): (r: Result<PaymentMethod, Failure>)
    ensures forall m: PaymentMethod :: r == Ok(m) <==> s.Some? && m.MatchesIgnoringCase(s.value)
    ensures r.Err? ==> r.error == IllegalArgument("Invalid payment method: " + s.GetOr("null"))
  {
    ValuesEnumerateAll();
    var found := if s.Some? then FirstMatch(Values, s.value) else None;
    if found.Some? then
      forall m: PaymentMethod | m.MatchesIgnoringCase(s.value) ensures m == found.value {
        NamesAndLabelsAreUnambiguous(m, found.value, s.value);
      }
      Ok(found.value)
    else
      Err(IllegalArgument("Invalid payment method: " + s.GetOr("null")))
  }

  /** Every constant is found by its name and by its label, and validity means
      exactly that parsing succeeds. */
  lemma ParsePaymentMethodFindsEveryConstant(m: PaymentMethod, s: Option<string>)
    ensures ParsePaymentMethod(Some(m.Name())) == Ok(m)
    ensures ParsePaymentMethod(Some(m.DisplayName())) == Ok(m)
    ensures IsValidPaymentMethod(s) <==> ParsePaymentMethod(s).Ok?
  {
    assert m.MatchesIgnoringCase(m.Name());
    assert m.MatchesIgnoringCase(m.DisplayName());
    if IsValidPaymentMethod(s) {
      var n: PaymentMethod :| n.MatchesIgnoringCase(s.value);
      assert ParsePaymentMethod(s) == Ok(n);
    }
  }

  /** `toString` gives the display label, and that text parses back to the
      constant. */
  lemma ToStringParsesBack(m: PaymentMethod)
    ensures m.ToString() == m.DisplayName()
    ensures ParsePaymentMethod(Some(m.ToString())) == Ok(m)
  {
    ParsePaymentMethodFindsEveryConstant(m, None);
  }
}
