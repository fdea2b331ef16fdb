/** `ExpenseService`: validation and defaulting in front of the repository, and
    the totals computed from its listings. The service state is the repository's
    map; `order` is the iteration order of its `values()` (see `Enumerates`),
    `today` stands for `LocalDate.now()` and `freshId` for the text of
    `UUID.randomUUID()`. A thrown exception is an `Err`, and an operation that
    fails changes nothing. */
module Service {
  import opened Wrappers
  import opened Text
  import opened Dates
  import opened Amounts
  import opened PaymentMethods
  import opened Expenses
  import opened Validation
  import opened Queries
  import opened Repository
  import opened Summaries
  import opened Lines
  import opened LineFormat

  // ---------------------------------------------------------------- adding

  /** `addExpense`: validates the input and throws the validation message when
      anything is wrong; otherwise stores a new record under `freshId` holding
      the trimmed category, the trimmed description (empty when absent), the
      date, and the payment method or CASH when absent. */
  function AddExpense(
    m: Store, amount: Cents, category: Option<string>, description: Option<string>,
    date: Option<Date>, paymentMethod: Option<PaymentMethod>, today: Date, freshId: string)
    : (r: Result<(Expense, Change), Failure>)
    ensures r.Ok? <==> IsAcceptable(amount, category, description, date, today)
    ensures r.Err? ==> r.error == Validation(Join(ValidateExpenseData(amount, category, description, date, today).errors, ", "))
    ensures r.Ok? ==> r.value == CreateAndSave(m, amount, category.value, description, date.value, paymentMethod, today, freshId)
  {
    var v := ValidateExpenseData(amount, category, description, date, today);
    match ThrowIfInvalid(v)
    case Err(failure) => Err(failure)
    case Ok(_) => Ok(CreateAndSave(m, amount, category.value, description, date.value, paymentMethod, today, freshId))
  }

  /** The part of `addExpense` after validation: the record is built with the
      trimmed texts and saved. */
  function CreateAndSave(
    m: Store, amount: Cents, category: string, description: Option<string>,
    date: Date, paymentMethod: Option<PaymentMethod>, today: Date, freshId: string)
    : (r: (Expense, Change))
    ensures var e := r.0;
      && e.id == freshId && e.amount == amount && e.category == Trim(category)
      && e.description == (if description.Some? then Trim(description.value) else "")
      && e.date == date
      && e.paymentMethod == (if paymentMethod.Some? then paymentMethod.value else Cash)
    ensures r.1 == Save(m, r.0)
  {
    var made := NewExpense(Some(freshId), amount, Some(Trim(category)),
                           Some(if description.Some? then Trim(description.value) else ""),
                           Some(date), paymentMethod, today);
    (made.value, Save(m, made.value))
  }

  /** The record `addExpense` stores passes validation itself: trimming keeps a
      category non-blank and within its limit, and a description within its. */
  lemma AddedExpensePassesValidation(
    m: Store, amount: Cents, category: Option<string>, description: Option<string>,
    date: Option<Date>, paymentMethod: Option<PaymentMethod>, today: Date, freshId: string)
    requires AddExpense(m, amount, category, description, date, paymentMethod, today, freshId).Ok?
    ensures var e := AddExpense(m, amount, category, description, date, paymentMethod, today, freshId).value.0;
      ValidateExpenseData(e.amount, Some(e.category), Some(e.description), Some(e.date), today).isValid
  {
    var e := AddExpense(m, amount, category, description, date, paymentMethod, today, freshId).value.0;
    TrimmedStaysAcceptable(amount, category, description, date, today);
    assert Some(e.category) == Some(Trim(category.value));
    assert Some(e.description) == Some(if description.Some? then Trim(description.value) else "");
  }

  /** Trimming the texts of acceptable data keeps it acceptable. */
  lemma TrimmedStaysAcceptable(
    amount: Cents, category: Option<string>, description: Option<string>, date: Option<Date>, today: Date)
    requires IsAcceptable(amount, category, description, date, today)
    ensures IsAcceptable(amount, Some(Trim(category.value)),
      Some(if description.Some? then Trim(description.value) else ""), date, today)
  {
    var c := Trim(category.value);
    assert !IsTrimmable(c[0]);
  }

  /** A rejected `addExpense` throws a message that lists every failed rule, in
      check order, separated by ", ". */
  lemma RejectedAddListsErrors(
    m: Store, amount: Cents, category: Option<string>, description: Option<string>,
    date: Option<Date>, paymentMethod: Option<PaymentMethod>, today: Date, freshId: string)
    requires !IsAcceptable(amount, category, description, date, today)
    ensures var r := AddExpense(m, amount, category, description, date, paymentMethod, today, freshId);
      r.Err? && r.error.Validation?
      && Split(r.error.message, ", ") == ValidateExpenseData(amount, category, description, date, today).errors
  {
    ThrownMessageListsErrors(amount, category, description, date, today);
  }

  /** With a fresh id the store grows by exactly the new record, is still keyed
      by id, and `findExpenseById` finds the record. */
  lemma AddedExpenseIsFound(
    m: Store, amount: Cents, category: Option<string>, description: Option<string>,
    date: Option<Date>, paymentMethod: Option<PaymentMethod>, today: Date, freshId: string)
    requires IsKeyedById(m) && freshId !in m
    requires AddExpense(m, amount, category, description, date, paymentMethod, today, freshId).Ok?
    ensures var (e, change) := AddExpense(m, amount, category, description, date, paymentMethod, today, freshId).value;
      && FindExpenseById(change.store, freshId) == Some(e)
      && change.store.Keys == m.Keys + {freshId}
      && |change.store| == |m| + 1
      && IsKeyedById(change.store)
  {
    var r := AddExpense(m, amount, category, description, date, paymentMethod, today, freshId);
    SaveUnderFreshId(m, r.value.0);
  }

  /** No validation rule refuses a '|' in the category, so `addExpense` stores a
      record whose line splits into seven fields. Reopening the file drops it.
      The example is an expense of 5.00 in category "a|b", dated today. */
  lemma AddedRecordWithBarIsLost(today: Date)
    ensures var r := AddExpense(map[], 500, Some("a|b"), None, Some(today), None, today, "id");
      && r.Ok?
      && ParseExpense(FormatExpense(r.value.0)) == None
      && "id" in r.value.1.store
      && Load(ReadLines(FileText(["id"], r.value.1.store, LF))) == map[]
  {
    var e := Expense("id", 500, "a|b", "", today, Cash);
    var s := map["id" := e];
    AddBarCategory(today, e);
    var r := AddExpense(map[], 500, Some("a|b"), None, Some(today), None, today, "id");
    assert r.value.0 == e && r.value.1.store == s;
    BarInCategoryIsUnreadable(e, "a", "b");
    LostOnReopen(s, e);
  }

  /** The add of the example succeeds and stores exactly this record. */
  lemma AddBarCategory(today: Date, e: Expense)
    requires e == Expense("id", 500, "a|b", "", today, Cash)
    ensures AddExpense(map[], 500, Some("a|b"), None, Some(today), None, today, "id")
      == Ok((e, Change(map["id" := e], true)))
  {
    TodayIsAcceptable(today);
    TrimmedBarCategory();
  }

  /** An expense of 5.00 in category "a|b" dated today passes validation. */
  lemma TodayIsAcceptable(today: Date)
    ensures IsAcceptable(500, Some("a|b"), None, Some(today), today)
  {
    assert "a|b"[0] == 'a' && !IsTrimmable('a');
    var back := MinusYears(today, MaxYearsBack);
    BeforeIsStrictTotalOrder(today, PlusOneDay(today), today);
    assert IsBefore(back, today);
    BeforeIsStrictTotalOrder(back, today, back);
  }

  lemma TrimmedBarCategory()
    ensures Trim("a|b") == "a|b"
  {
    assert "a|b"[0] == 'a' && "a|b"[2] == 'b';
  }

  /** A store holding only a record whose line does not parse reopens empty. */
  lemma LostOnReopen(s: Store, e: Expense)
    requires s == map["id" := e]
    requires ParseExpense(FormatExpense(e)) == None && HasNoLineBreak(FormatExpense(e))
    ensures Load(ReadLines(FileText(["id"], s, LF))) == map[]
  {
    var line := FormatExpense(e);
    OneRecordFile(s, e);
    LoadSkipsBadLine([], line, []);
    assert [] + [line] + [] == [line];
    assert Load([]) == map[];
  }

  /** The file of a one-record store reads back as that record's line. */
  lemma OneRecordFile(s: Store, e: Expense)
    requires s == map["id" := e] && HasNoLineBreak(FormatExpense(e))
    ensures ReadLines(FileText(["id"], s, LF)) == [FormatExpense(e)]
  {
    var lines := SaveLines(["id"], s);
    assert lines == [FormatExpense(e)];
    ReadWriteLines(lines, LF);
  }

  /** The message of the storability rule added by `AddStorableExpense`. */
  const TextNotStorable := "Category and description cannot contain '|' or line breaks"

  /** `addExpense` with the rule the line format needs: after validation, the
      trimmed category and description must hold no '|' and no line break, so
      that the record's line reads back. Every record it stores survives a
      reopening of the file. */
  function AddStorableExpense(
    m: Store, amount: Cents, category: Option<string>, description: Option<string>,
    date: Option<Date>, paymentMethod: Option<PaymentMethod>, today: Date, freshId: string)
    : (r: Result<(Expense, Change), Failure>)
    ensures r.Ok? <==>
      && IsAcceptable(amount, category, description, date, today)
      && IsPlainField(Trim(category.value))
      && (description.None? || IsPlainField(Trim(description.value)))
    ensures !IsAcceptable(amount, category, description, date, today) ==>
      r == AddExpense(m, amount, category, description, date, paymentMethod, today, freshId)
    ensures IsAcceptable(amount, category, description, date, today) && r.Err? ==>
      r.error == Validation(TextNotStorable)
    ensures r.Ok? ==> r == AddExpense(m, amount, category, description, date, paymentMethod, today, freshId)
    ensures r.Ok? && IsPlainField(freshId) && InYearRange(date.value.year) ==> IsStorable(r.value.0)
  {
    match AddExpense(m, amount, category, description, date, paymentMethod, today, freshId)
    case Err(failure) => Err(failure)
    case Ok((e, change)) =>
      if IsPlainField(e.category) && IsPlainField(e.description) then Ok((e, change))
      else Err(Validation(TextNotStorable))
  }

  /** After a successful `AddStorableExpense` into a store of storable records
      keyed by id, reopening the saved file gives back the whole store, the new
      record included. `freshId` stands for a UUID text, which has no '|' or
      line break, and the date has a year a `LocalDate` can hold. */
  lemma StorableAddSurvivesReopen(
    m: Store, amount: Cents, category: Option<string>, description: Option<string>,
    date: Option<Date>, paymentMethod: Option<PaymentMethod>, today: Date, freshId: string,
    order: seq<string>, sep: LineSeparator)
    requires IsKeyedById(m) && AllStorable(m) && freshId !in m && IsPlainField(freshId)
    requires date.Some? ==> InYearRange(date.value.year)
    requires AddStorableExpense(m, amount, category, description, date, paymentMethod, today, freshId).Ok?
    requires Enumerates(order, AddStorableExpense(m, amount, category, description, date, paymentMethod, today, freshId).value.1.store)
    ensures var s := AddStorableExpense(m, amount, category, description, date, paymentMethod, today, freshId).value.1.store;
      && FindById(s, freshId).Some?
      && Load(ReadLines(FileText(order, s, sep))) == s
  {
    var r := AddStorableExpense(m, amount, category, description, date, paymentMethod, today, freshId);
    AddedExpenseIsFound(m, amount, category, description, date, paymentMethod, today, freshId);
    ReopenRestoresStore(order, r.value.1.store, sep);
  }

  /** Saving a record whose id is not stored yet adds one entry, and deleting
      that id again restores the map. */
  lemma SaveUnderFreshId(m: Store, e: Expense)
    requires IsKeyedById(m) && e.id !in m
    ensures var s := Save(m, e).store;
      && FindById(s, e.id) == Some(e)
      && s.Keys == m.Keys + {e.id}
      && |s| == |m| + 1
      && IsKeyedById(s)
      && Delete(s, e.id) == (true, Change(m, true))
  {
    var s := Save(m, e).store;
    assert s.Keys == m.Keys + {e.id};
    assert s - {e.id} == m;
  }

  // -------------------------------------------------------------- listings

  /** `getAllExpenses`: every stored record once, newest first. */
  function GetAllExpenses(m: Store, order: seq<string>): (r: seq<Expense>)
    requires Enumerates(order, m)
    ensures IsNewestFirst(r)
    ensures |r| == |m|
    ensures forall e :: e in r <==> e in m.Values
  {
    EnumerationLength(order, m);
    FindAll(m, order)
  }

  /** `getExpensesByCategory`: a missing or blank category is refused; otherwise
      the records whose category equals the trimmed one ignoring case. */
  function GetExpensesByCategory(m: Store, order: seq<string>, category: Option<string>)
    : (r: Result<seq<Expense>, Failure>)
    requires Enumerates(order, m)
    ensures r.Err? <==> category.None? || IsBlank(category.value)
    ensures r.Err? ==> r.error == IllegalArgument("Category cannot be empty")
    ensures r.Ok? ==> IsNewestFirst(r.value)
    ensures r.Ok? ==> forall e :: e in r.value <==>
      e in m.Values && EqualsIgnoreCase(e.category, Trim(category.value))
    ensures r.Ok? ==> r.value == Filter(FindAll(m, order), CategoryIs(Trim(category.value)))
  {
    if category.None? || Trim(category.value) == [] then
      Err(IllegalArgument("Category cannot be empty"))
    else
      Ok(FindByCategory(m, order, Trim(category.value)))
  }

  /** Padding around the category makes no difference to the query. */
  lemma CategoryQueryIgnoresPadding(m: Store, order: seq<string>, category: string)
    requires Enumerates(order, m)
    ensures GetExpensesByCategory(m, order, Some(category)) == GetExpensesByCategory(m, order, Some(Trim(category)))
  {
    TrimIdempotent(category);
  }

  /** `getExpensesByDateRange`: both dates must be given and in order; then the
      repository's range query runs on their ISO texts, which read back as the
      same dates, so it lists the records dated from `start` through `end`.
      A `LocalDate` always has a year in range, which the precondition says. */
  function GetExpensesByDateRange(m: Store, order: seq<string>, start: Option<Date>, end: Option<Date>)
    : (r: Result<seq<Expense>, Failure>)
    requires Enumerates(order, m)
    requires start.Some? ==> InYearRange(start.value.year)
    requires end.Some? ==> InYearRange(end.value.year)
    ensures start.None? || end.None? ==> r == Err(IllegalArgument("Start and end dates cannot be null"))
    ensures start.Some? && end.Some? && IsAfter(start.value, end.value) ==>
      r == Err(IllegalArgument("Start date cannot be after end date"))
    ensures r.Ok? <==> start.Some? && end.Some? && !IsAfter(start.value, end.value)
    ensures r.Ok? ==> IsNewestFirst(r.value)
    ensures r.Ok? ==> forall e :: e in r.value <==>
      e in m.Values && !IsBefore(e.date, start.value) && !IsAfter(e.date, end.value)
    ensures r.Ok? ==> r.value == Filter(FindAll(m, order), DateWithin(start.value, end.value))
  {
    if start.None? || end.None? then
      Err(IllegalArgument("Start and end dates cannot be null"))
    else if IsAfter(start.value, end.value) then
      Err(IllegalArgument("Start date cannot be after end date"))
    else
      ParseFormatDate(start.value);
      ParseFormatDate(end.value);
      FindByDateRange(m, order, FormatDate(start.value), FormatDate(end.value))
  }

  /** A range of one day lists exactly the records of that day. */
  lemma OneDayRange(m: Store, order: seq<string>, d: Date)
    requires Enumerates(order, m) && InYearRange(d.year)
    ensures var r := GetExpensesByDateRange(m, order, Some(d), Some(d));
      r.Ok? && forall e :: e in r.value <==> e in m.Values && e.date == d
  {
    BeforeIsStrictTotalOrder(d, d, d);
    forall e: Expense ensures !IsBefore(e.date, d) && !IsAfter(e.date, d) <==> e.date == d {
      BeforeIsStrictTotalOrder(e.date, d, e.date);
    }
  }

  /** `findExpenseById`: the record stored under `id`, if any. */
  function FindExpenseById(m: Store, id: string): (r: Option<Expense>)
    ensures r.Some? <==> id in m
    ensures r.Some? ==> r.value in m.Values
    ensures IsKeyedById(m) && r.Some? ==> r.value.id == id
  {
    FindById(m, id)
  }

  // -------------------------------------------------------------- deleting

  /** `deleteExpense`: a missing or blank id is refused; otherwise the record
      under the trimmed id is removed, answering whether there was one. */
  function DeleteExpense(m: Store, id: Option<string>): (r: Result<(bool, Change), Failure>)
    ensures r.Err? <==> id.None? || IsBlank(id.value)
    ensures r.Err? ==> r.error == IllegalArgument("Expense ID cannot be empty")
    ensures r.Ok? ==> var (found, change) := r.value;
      && (found <==> Trim(id.value) in m)
      && change.rewritten == found
      && Trim(id.value) !in change.store
      && (forall k :: k != Trim(id.value) ==> (k in change.store <==> k in m) && (k in m ==> change.store[k] == m[k]))
  {
    if id.None? || Trim(id.value) == [] then
      Err(IllegalArgument("Expense ID cannot be empty"))
    else
      Ok(Delete(m, Trim(id.value)))
  }

  /** Deleting the record just added, by its id, finds it and gives back the
      store as it was before the addition. */
  lemma DeleteUndoesAdd(
    m: Store, amount: Cents, category: Option<string>, description: Option<string>,
    date: Option<Date>, paymentMethod: Option<PaymentMethod>, today: Date, freshId: string)
    requires IsKeyedById(m) && freshId !in m && !IsBlank(freshId) && Trim(freshId) == freshId
    requires AddExpense(m, amount, category, description, date, paymentMethod, today, freshId).Ok?
    ensures var added := AddExpense(m, amount, category, description, date, paymentMethod, today, freshId).value.1.store;
      DeleteExpense(added, Some(freshId)) == Ok((true, Change(m, true)))
  {
    var r := AddExpense(m, amount, category, description, date, paymentMethod, today, freshId);
    SaveUnderFreshId(m, r.value.0);
  }

  // ---------------------------------------------------------------- totals

  /** `getTotalSpent`: the sum of all stored amounts. */
  function GetTotalSpent(m: Store, order: seq<string>): (total: int)
    requires Enumerates(order, m)
    ensures total == SumAmounts(Repository.Values(order, m))
    ensures m == map[] ==> total == 0
    ensures (forall k :: k in m ==> m[k].amount > 0) ==> total >= |m|
  {
    var all := FindAll(m, order);
    SumIgnoresOrder(all, Repository.Values(order, m));
    ListingOfPositives(order, m);
    SumAmounts(all)
  }

  lemma ListingOfPositives(order: seq<string>, m: Store)
    requires Enumerates(order, m)
    ensures (forall k :: k in m ==> m[k].amount > 0) ==> SumAmounts(Repository.Values(order, m)) >= |m|
  {
    EnumerationLength(order, m);
    if forall k :: k in m ==> m[k].amount > 0 {
      SumOfPositives(Repository.Values(order, m));
    }
  }

  /** The total does not depend on the iteration order of the map. */
  lemma TotalIgnoresOrder(m: Store, o1: seq<string>, o2: seq<string>)
    requires IsKeyedById(m) && Enumerates(o1, m) && Enumerates(o2, m)
    ensures GetTotalSpent(m, o1) == GetTotalSpent(m, o2)
  {
    ListingsHoldSameRecords(o1, o2, m);
    SumIgnoresOrder(Repository.Values(o1, m), Repository.Values(o2, m));
  }

  /** Adding a record under a fresh id raises the total by exactly its amount. */
  lemma AddRaisesTotal(
    m: Store, amount: Cents, category: Option<string>, description: Option<string>,
    date: Option<Date>, paymentMethod: Option<PaymentMethod>, today: Date, freshId: string,
    before: seq<string>, after: seq<string>)
    requires IsKeyedById(m) && freshId !in m
    requires AddExpense(m, amount, category, description, date, paymentMethod, today, freshId).Ok?
    requires Enumerates(before, m)
    requires Enumerates(after, AddExpense(m, amount, category, description, date, paymentMethod, today, freshId).value.1.store)
    ensures GetTotalSpent(AddExpense(m, amount, category, description, date, paymentMethod, today, freshId).value.1.store, after)
            == GetTotalSpent(m, before) + amount
  {
    var r := AddExpense(m, amount, category, description, date, paymentMethod, today, freshId);
    SaveRaisesTotal(m, r.value.0, before, after);
  }

  lemma SaveRaisesTotal(m: Store, e: Expense, before: seq<string>, after: seq<string>)
    requires IsKeyedById(m) && e.id !in m
    requires Enumerates(before, m) && Enumerates(after, Save(m, e).store)
    ensures GetTotalSpent(Save(m, e).store, after) == GetTotalSpent(m, before) + e.amount
  {
    var s := Save(m, e).store;
    var extended := before + [e.id];
    ExtendedEnumeration(before, m, s, e.id);
    ValuesOfExtension(before, m, s, e.id);
    SumAppend(Repository.Values(before, m), [e]);
    TotalIgnoresOrder(s, after, extended);
  }

  /** Adding a new key at the end of an enumeration enumerates the grown map. */
  lemma ExtendedEnumeration(order: seq<string>, m: Store, m': Store, k: string)
    requires Enumerates(order, m) && k !in m && k in m'
    requires forall j :: j != k ==> (j in m' <==> j in m)
    ensures Enumerates(order + [k], m')
  {
    var ext := order + [k];
    forall i | 0 <= i < |ext| ensures ext[i] in m' {
      if i < |order| {
        assert ext[i] == order[i];
      }
    }
    forall j | j in m' ensures j in ext {
      if j != k {
        var i :| 0 <= i < |order| && order[i] == j;
        assert ext[i] == j;
      } else {
        assert ext[|order|] == k;
      }
    }
  }

  /** The listing in the extended order is the old listing followed by the new record. */
  lemma ValuesOfExtension(order: seq<string>, m: Store, m': Store, k: string)
    requires forall i :: 0 <= i < |order| ==> order[i] in m
    requires k !in m && k in m'
    requires forall j :: j in m ==> j in m' && m'[j] == m[j]
    ensures forall i :: 0 <= i < |order + [k]| ==> (order + [k])[i] in m'
    ensures Repository.Values(order + [k], m') == Repository.Values(order, m) + [m'[k]]
  {
    var o := order + [k];
    assert forall i :: 0 <= i < |order| ==> o[i] == order[i];
    var l := Repository.Values(o, m');
    var r := Repository.Values(order, m) + [m'[k]];
    forall i | 0 <= i < |l| ensures l[i] == r[i] {
      if i == |order| {
        assert o[i] == k;
      }
    }
  }

  /** `getCategorySummary`: for each category present, the sum of the amounts
      of its records (categories compared exactly, case included). */
  function GetCategorySummary(m: Store, order: seq<string>): (r: map<string, int>)
    requires Enumerates(order, m)
    ensures forall c :: c in r <==> exists e :: e in m.Values && e.category == c
    ensures forall c :: c in r ==> r[c] == CategoryTotal(Repository.Values(order, m), c)
  {
    var all := FindAll(m, order);
    var r := CategorySummary(all);
    CategoriesOfRecords(all);
    forall c | c in r ensures r[c] == CategoryTotal(Repository.Values(order, m), c) {
      SameCategoryTotal(all, Repository.Values(order, m), c);
    }
    r
  }

  /** The category sums add up to the total spent, whatever order the summary's
      keys are taken in, as long as each is taken once. */
  lemma SummaryAddsUpToTotal(m: Store, order: seq<string>, keys: seq<string>)
    requires Enumerates(order, m)
    requires forall i :: 0 <= i < |keys| ==> keys[i] in GetCategorySummary(m, order)
    requires forall c :: c in GetCategorySummary(m, order) ==> c in keys
    requires forall i, j :: 0 <= i < j < |keys| ==> keys[i] != keys[j]
    ensures SumOfValues(GetCategorySummary(m, order), keys) == GetTotalSpent(m, order)
  {
    var r := GetCategorySummary(m, order);
    var xs := Repository.Values(order, m);
    FindAllMembers(m, order);
    forall e | e in xs ensures e.category in keys {
      assert e in m.Values;
      assert e.category in r;
    }
    SumOfValuesIsSumOfTotals(r, xs, keys);
    TotalsAddUpToSum(xs, keys);
  }

  /** The summary does not depend on the iteration order of the map. */
  lemma SummaryIgnoresIterationOrder(m: Store, o1: seq<string>, o2: seq<string>)
    requires IsKeyedById(m) && Enumerates(o1, m) && Enumerates(o2, m)
    ensures GetCategorySummary(m, o1) == GetCategorySummary(m, o2)
  {
    ListingsHoldSameRecords(o1, o2, m);
    SummaryIgnoresOrder(FindAll(m, o1), FindAll(m, o2));
  }

  /** The test for records dated in one month of one year. */
  function InMonth(year: int, month: int): Expense -> bool {
    (e: Expense) => e.date.year == year && e.date.month == month
  }

  /** `getMonthlySummary`: the month must exist (`LocalDate.of` fails
      otherwise); then the category summary of the records from its first
      through its last day, which are exactly the records of that month. */
  function GetMonthlySummary(m: Store, order: seq<string>, year: int, month: int)
    : (r: Result<map<string, int>, Failure>)
    requires Enumerates(order, m)
    ensures r.Ok? <==> InYearRange(year) && 1 <= month <= 12
    ensures r.Err? ==> r == Err(FirstDayOfMonth(year, month).error)
    ensures r.Ok? ==> forall c :: c in r.value <==>
      exists e :: e in m.Values && e.date.year == year && e.date.month == month && e.category == c
    ensures r.Ok? ==> forall c :: c in r.value ==>
      r.value[c] == CategoryTotal(Filter(FindAll(m, order), InMonth(year, month)), c)
  {
    match FirstDayOfMonth(year, month)
    case Err(failure) => Err(failure)
    case Ok(first) =>
      var last := LastDayOfMonth(first);
      match GetExpensesByDateRange(m, order, Some(first), Some(last))
      case Err(failure) => Err(failure)
      case Ok(inMonth) =>
        MonthlySums(m, order, first, inMonth);
        Ok(CategorySummary(inMonth))
  }

  lemma MonthlySums(m: Store, order: seq<string>, first: Date, inMonth: seq<Expense>)
    requires Enumerates(order, m) && first.day == 1
    requires inMonth == Filter(FindAll(m, order), DateWithin(first, LastDayOfMonth(first)))
    ensures forall c :: c in CategorySummary(inMonth) <==>
      exists e :: e in m.Values && e.date.year == first.year && e.date.month == first.month && e.category == c
    ensures inMonth == Filter(FindAll(m, order), InMonth(first.year, first.month))
  {
    var window := DateWithin(first, LastDayOfMonth(first));
    CategoriesOfRecords(inMonth);
    forall e: Expense ensures window(e) <==> InMonth(first.year, first.month)(e) {
      MonthWindow(first, e.date);
    }
    FilterAgreeing(FindAll(m, order), window, InMonth(first.year, first.month));
    forall c ensures c in CategorySummary(inMonth) <==>
      exists e :: e in m.Values && e.date.year == first.year && e.date.month == first.month && e.category == c
    {
      if c in CategorySummary(inMonth) {
        var e :| e in inMonth && e.category == c;
        assert e in m.Values && window(e);
      }
      if exists e :: e in m.Values && e.date.year == first.year && e.date.month == first.month && e.category == c {
        var e :| e in m.Values && e.date.year == first.year && e.date.month == first.month && e.category == c;
        assert e in inMonth;
      }
    }
  }
}
