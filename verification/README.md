# Expense tracker core, modelled in Dafny

This project models the domain layer of a small personal expense tracker
written in Java, and proves what that layer promises. The layer has four parts.

- **Validation.** `ExpenseValidator` turns an amount, category, description and
  date into a `ValidationResult`, which lists the messages of the broken rules
  in check order. It also looks up a `PaymentMethod` by its constant name or its
  display label, ignoring case.
- **Value types.** `Expense` is an immutable record. Its constructor fills in
  defaults, and its `equals`/`hashCode` look at the id only. `PaymentMethod` is a
  closed enum of five constants, each with a display label.
- **Record store.** `FileExpenseRepository` keeps an id → record map and writes
  it to a text file after every change, one `|`-separated line per record. Its
  queries sort newest first, and filter by category (ignoring case) or by an
  inclusive date range. Loading skips blank and malformed lines, and a later
  line with the same id wins.
- **Service.** `ExpenseService` validates, trims and stores new records. It
  guards its query arguments and computes the total spent, the per-category
  sums and the sums of one month.

Modelling choices:

- Every operation is a pure function from the old map to a result and a new map
  (`Repository.Change`).
- A Java exception is an `Err` carrying a `Failure`. `Failure` keeps the
  exception's kind and its message.
- A Java `null` argument is `None`.
- Amounts are whole cents (`Amounts.Cents`), so totals are exact.
- Dates are proleptic Gregorian `Ymd` values (`Dates.Date`). They have the
  `java.time.LocalDate` ordering and the ISO 8601 extended calendar date text
  (section 4.1.2.2 of ISO 8601:2004).

Three things the Java code takes from its environment are parameters of the
model:

- `today` stands for `LocalDate.now()`.
- `freshId` stands for the text of `UUID.randomUUID()`.
- `order` is the order in which the `ConcurrentHashMap`'s `values()` happens to
  iterate. It is any sequence listing every key once (`Repository.Enumerates`).

Because `order` is arbitrary, the newest-first listings are stable only with
respect to that unspecified order. The proofs say which results do *not*
depend on it:
- the set of records listed;
- the total spent;
- the category summary.

The data file is modelled as a list of lines (`Repository.Load`,
`Repository.SaveLines`). `Lines` relates such a list to file text:
`println` writes it, with either line separator, and `readLine` reads it back.

Modules follow the Java classes:
- `Validation` covers `ExpenseValidator` and `ValidationResult`.
- `PaymentMethods` and `Expenses` cover the model classes.
- `LineFormat` and `Repository` cover `FileExpenseRepository`.
- `Queries` and `Summaries` hold the stream pipelines.
- `Service` covers `ExpenseService`.
- `Text`, `Digits`, `Dates`, `Amounts` and `Lines` model the JDK behaviour the
  core relies on: `String.trim`, `equalsIgnoreCase`, `split`, `String.join`,
  `LocalDate` and the amount text.

The code sends a month outside 1..12 to `LocalDate.of`, which throws a
`DateTimeException`, not an `IllegalArgumentException`. The model follows the
code: `Service.GetMonthlySummary` fails with the `DateTime` failure and Java's
message.

## Model

| member | source | states |
|---|---|---|
| `Validation.ValidateExpenseData` | src/main/java/validation/ExpenseValidator.java:13-47 | The result is valid exactly when its error list is empty, and exactly when the input meets every business rule (`IsAcceptable`). |
| `Validation.ErrorsFollowCheckOrder` | src/main/java/validation/ExpenseValidator.java:15-46 | There are at most four messages, each one of the eight known messages, listed strictly in the order the checks run. |
| `Validation.ReportsAmountRules` | src/main/java/validation/ExpenseValidator.java:18-23 | "must be greater than 0" is listed iff amount <= 0; the maximum-limit message iff amount > 1,000,000. |
| `Validation.ReportsCategoryRules` | src/main/java/validation/ExpenseValidator.java:26-30 | "cannot be empty" is listed iff the category is null or blank. "cannot exceed 50" is listed iff it is non-blank and longer than 50 chars, untrimmed. |
| `Validation.ReportsDescriptionRule` | src/main/java/validation/ExpenseValidator.java:33-35 | The description message is listed iff a description is given and is longer than 200 chars; null is accepted. |
| `Validation.ReportsDateRules` | src/main/java/validation/ExpenseValidator.java:38-44 | The null message iff no date is given. The future message iff the date is after tomorrow. The too-old message iff the date is not after tomorrow and is before today minus ten years. |
| `Validation.BoundariesAreInclusive` | src/main/java/validation/ExpenseValidator.java:18-44 | Exactly 1,000,000, tomorrow, and the day ten years back are accepted; one cent more or one day later is rejected. |
| `Validation.ThrowIfInvalid` | src/main/java/validation/ValidationResult.java:19-23 | Succeeds exactly when the result is valid; otherwise fails with a validation failure. |
| `Validation.ThrownMessageListsErrors` | src/main/java/validation/ValidationResult.java:21 | The thrown message, split at ", ", gives back the validator's error list, in order. |
| `Validation.IsValidPaymentMethod` | src/main/java/validation/ExpenseValidator.java:49-59 | True exactly when a string is given and some constant's name or label equals it, ignoring case. |
| `Validation.ParsePaymentMethod` | src/main/java/validation/ExpenseValidator.java:61-69 | Gives `m` exactly when `m`'s name or label equals the string ignoring case; otherwise an IllegalArgument failure with "Invalid payment method: " and the string ("null" for null). |
| `Validation.ParsePaymentMethodFindsEveryConstant` | src/main/java/validation/ExpenseValidator.java:49-69 | Every constant is found from its name and from its label, and `isValidPaymentMethod` holds exactly when `parsePaymentMethod` succeeds. |
| `Validation.ToStringParsesBack` | src/main/java/model/PaymentMethod.java:22-25 | `toString` is the display label, and that text parses back to the same constant. |
| `PaymentMethods.ValuesEnumerateAll` | src/main/java/model/PaymentMethod.java:5-10 | `values()` has five constants, lists every constant, and lists each once. |
| `PaymentMethods.NamesAndLabelsAreUnambiguous` | src/main/java/model/PaymentMethod.java:6-10 | Names are pairwise distinct, labels are pairwise distinct, no label equals another constant's name ignoring case, and no string matches two constants. |
| `PaymentMethods.FirstMatch` | src/main/java/validation/ExpenseValidator.java:52-58 | The loop's answer matches the string; when it finds nothing, no constant matches. |
| `PaymentMethods.ValueOf` | src/main/java/persistence/FileExpenseRepository.java:82 | `valueOf` gives `m` exactly when the text is `m`'s name, case included. |
| `Expenses.NewExpense` | src/main/java/model/Expense.java:17-25 | A null id fails first ("ID cannot be null"), then a null category ("Category cannot be null"). Otherwise the record keeps each argument, with null description → "", null date → today, null payment method → CASH. The amount is not checked. |
| `Expenses.JavaEqualsIsIdEquivalence` | src/main/java/model/Expense.java:35-41 | `equals` is reflexive, symmetric and transitive, and holds iff the ids are equal, whatever the other fields. |
| `Expenses.HashCodeAgreesWithEquals` | src/main/java/model/Expense.java:43-46 | Equal records have equal 32-bit `Objects.hash(id)` codes. |
| `LineFormat.FormatExpense` | src/main/java/persistence/FileExpenseRepository.java:92-101 | For a storable record, the line has no line break, and Java's split at the bar gives back the six fields in order: id, amount, category, description, ISO date, payment name. |
| `LineFormat.ParseExpense` | src/main/java/persistence/FileExpenseRepository.java:69-90 | A record comes back iff the line splits into exactly six parts, the amount and date parse, and the last part is exactly a constant's name. The record then carries the parts as read. |
| `LineFormat.ParseFormatExpense` | src/main/java/persistence/FileExpenseRepository.java:69-101 | Parsing the line of a record whose text fields hold no bar or line break gives the record back. |
| `LineFormat.ParsedIsStorable` | src/main/java/persistence/FileExpenseRepository.java:69-101 | A record parsed from a line is storable, so writing it and parsing again gives it back. |
| `LineFormat.BarInCategoryIsUnreadable` | src/main/java/persistence/FileExpenseRepository.java:69-101 | A category with a bar between two plain texts makes the line split into seven fields, so `parseExpense` returns null for it. |
| `LineFormat.FormatIsNotBlank` | src/main/java/persistence/FileExpenseRepository.java:92-101 | A record's line always holds the bar separator, so loading never skips it as blank. |
| `Lines.ReadWriteLines` | src/main/java/persistence/FileExpenseRepository.java:117-120 | Lines without breaks, printed with `println` using either separator, are read back unchanged by `readLine`. |
| `Repository.LoadIsWellFormed` | src/main/java/persistence/FileExpenseRepository.java:48-60 | After loading, every record is stored under its own id, and every loaded record can be saved again. |
| `Repository.LoadKeepsLastRecord` | src/main/java/persistence/FileExpenseRepository.java:48-60 | An id is loaded iff some line holds a record with that id. The record kept is the one on the last such line. |
| `Repository.LoadSkipsBadLine` | src/main/java/persistence/FileExpenseRepository.java:49-59 | Inserting a blank or unparsable line anywhere leaves the loaded map as it was. |
| `Repository.ReopenRestoresStore` | src/main/java/persistence/FileExpenseRepository.java:103-127 | Loading the file `saveData` wrote restores a map keyed by id whose records are all storable, for any iteration order and either line separator. Storable means no bar or line break in id, category or description, and a year a `LocalDate` can hold. See Findings for a record that is not storable. |
| `Repository.Save` | src/main/java/persistence/FileExpenseRepository.java:129-133 | The record is stored under its id, every other entry is unchanged, and the file is rewritten. Keying by id and storability are preserved. |
| `Repository.FindById` | src/main/java/persistence/FileExpenseRepository.java:135-138 | Present iff the id is stored. The result is a stored record and, in a map keyed by id, has that id. |
| `Repository.SaveThenFind` | src/main/java/persistence/FileExpenseRepository.java:129-138 | After `save(e)`, `findById(e.id)` gives `e`, and every other id gives what it gave before. |
| `Repository.ValuesListEachRecordOnce` | src/main/java/persistence/FileExpenseRepository.java:143 | The values listing holds exactly the stored records, with no repeats. |
| `Repository.ListingsHoldSameRecords` | src/main/java/persistence/FileExpenseRepository.java:143 | Two iteration orders give listings that are permutations of each other. |
| `Repository.FindAll` | src/main/java/persistence/FileExpenseRepository.java:140-146 | The result is a permutation of the stored values, with dates never increasing. |
| `Repository.SortedFilter` | src/main/java/persistence/FileExpenseRepository.java:150-153 | Filter-then-sort is sorted, holds exactly the records that pass, and equals filtering the sorted listing. |
| `Repository.FindByCategory` | src/main/java/persistence/FileExpenseRepository.java:148-154 | Exactly the records whose category equals the argument ignoring case, newest first, in `findAll`'s order. |
| `Repository.FindByDateRange` | src/main/java/persistence/FileExpenseRepository.java:156-165 | An unparsable start or end text fails as `LocalDate.parse` does, start first. Otherwise the result is exactly the records with start <= date <= end, newest first. |
| `Repository.Delete` | src/main/java/persistence/FileExpenseRepository.java:167-174 | True iff the id was present; afterwards it is absent and every other entry is unchanged. The file is rewritten only when true is returned. |
| `Repository.Update` | src/main/java/persistence/FileExpenseRepository.java:176-182 | Replaces the entry only when the id is present, and only then rewrites the file; otherwise the map is unchanged. |
| `Queries.Filter` | src/main/java/persistence/FileExpenseRepository.java:151 | Keeps exactly the records that pass, and never adds or duplicates one. |
| `Queries.SortNewestFirst` | src/main/java/persistence/FileExpenseRepository.java:144 | The sorted list is a permutation of its input with dates never increasing. |
| `Queries.SortIsStable` | src/main/java/persistence/FileExpenseRepository.java:144 | Records of the same date keep their relative order. |
| `Queries.FilterCommutesWithSort` | src/main/java/persistence/FileExpenseRepository.java:150-153 | Filtering the sorted list equals sorting the filtered list. |
| `Summaries.CategorySummary` | src/main/java/service/ExpenseService.java:71-75 | The keys are exactly the categories present. Each value is the sum of that category's amounts. |
| `Summaries.CategoryTotalIsFilteredSum` | src/main/java/service/ExpenseService.java:72-75 | A category's sum equals filtering by exact category and then summing. |
| `Summaries.CategoriesOfRecords` | src/main/java/service/ExpenseService.java:72-73 | A category is a group key iff some record has exactly that category. |
| `Summaries.SumIgnoresOrder` | src/main/java/service/ExpenseService.java:90-92 | Lists holding the same records have the same sum. |
| `Summaries.SummaryIgnoresOrder` | src/main/java/service/ExpenseService.java:71-75 | Lists holding the same records have the same category summary. |
| `Summaries.TotalsAddUpToSum` | src/main/java/service/ExpenseService.java:70-93 | The category sums of all categories present, each taken once, add up to the sum of all amounts. |
| `Service.AddExpense` | src/main/java/service/ExpenseService.java:23-39 | Succeeds iff the input is acceptable. On failure, the failure is the validation message and the store is untouched. On success, the record is built and saved as `CreateAndSave` states. |
| `Service.CreateAndSave` | src/main/java/service/ExpenseService.java:31-38 | The new record has the fresh id, the amount, the trimmed category, the trimmed description ("" when null), the date, and the method (CASH when null). It is saved to the store. |
| `Service.AddedExpensePassesValidation` | src/main/java/service/ExpenseService.java:26-36 | The stored record, trimmed as it is, passes validation again. |
| `Service.RejectedAddListsErrors` | src/main/java/service/ExpenseService.java:26-28 | A rejected add fails with a validation failure whose message, split at ", ", is the error list. |
| `Service.AddedExpenseIsFound` | src/main/java/service/ExpenseService.java:23-39 | With a fresh id, the store grows by exactly the new record, stays keyed by id, and `findExpenseById` returns the record. |
| `Service.AddedRecordWithBarIsLost` | src/main/java/service/ExpenseService.java:23-39 | An add of 5.00 in category "a" + bar + "b", dated today, succeeds and stores the record. Its line does not parse, and reopening the saved file gives an empty store. |
| `Service.AddStorableExpense` | src/main/java/service/ExpenseService.java:23-39 | `addExpense` with one more rule: the trimmed category and description hold no bar and no line break. Otherwise it behaves as `addExpense`, and a record it stores is storable. |
| `Service.StorableAddSurvivesReopen` | src/main/java/persistence/FileExpenseRepository.java:48-60 | After a successful `AddStorableExpense` into a storable store keyed by id, reopening the saved file gives back the whole store, the new record included. |
| `Service.GetAllExpenses` | src/main/java/service/ExpenseService.java:41-43 | Every stored record, once each and newest first. |
| `Service.GetExpensesByCategory` | src/main/java/service/ExpenseService.java:45-50 | A null or blank category fails with "Category cannot be empty". Otherwise the result is the `findAll` listing filtered to the records whose category equals the trimmed argument ignoring case, so each such record appears once, newest first. |
| `Service.CategoryQueryIgnoresPadding` | src/main/java/service/ExpenseService.java:45-50 | Padding around the category does not change the query's result. |
| `Service.GetExpensesByDateRange` | src/main/java/service/ExpenseService.java:52-61 | A null date fails first, then start after end. Otherwise the result is exactly the records from start through end, inclusive, newest first. |
| `Service.OneDayRange` | src/main/java/service/ExpenseService.java:52-61 | start == end is allowed and lists exactly the records of that day. |
| `Service.FindExpenseById` | src/main/java/service/ExpenseService.java:95-97 | Present iff the id is stored, and then it is that id's record. |
| `Service.DeleteExpense` | src/main/java/service/ExpenseService.java:63-68 | A null or blank id fails with "Expense ID cannot be empty". Otherwise the trimmed id is deleted. The answer is whether it was present; every other entry is kept. |
| `Service.DeleteUndoesAdd` | src/main/java/service/ExpenseService.java:63-68 | Deleting the id just added finds it and restores the store as it was before the add. |
| `Service.GetTotalSpent` | src/main/java/service/ExpenseService.java:89-93 | The total is the sum of all stored amounts. It is 0 for an empty store, and at least one cent per record when every amount is positive. |
| `Service.TotalIgnoresOrder` | src/main/java/service/ExpenseService.java:89-93 | The total is the same for every iteration order of the map. |
| `Service.AddRaisesTotal` | src/main/java/service/ExpenseService.java:23-39 | A successful add under a fresh id raises the total by exactly the amount added. |
| `Service.GetCategorySummary` | src/main/java/service/ExpenseService.java:70-76 | The keys are exactly the categories of stored records, compared case-sensitively. Each value is that category's sum. |
| `Service.SummaryIgnoresIterationOrder` | src/main/java/service/ExpenseService.java:70-76 | The summary is the same for every iteration order of the map. |
| `Service.SummaryAddsUpToTotal` | src/main/java/service/ExpenseService.java:70-93 | The summary's values, each key taken once in any order, add up to `getTotalSpent`. |
| `Service.GetMonthlySummary` | src/main/java/service/ExpenseService.java:78-87 | Fails as `LocalDate.of` does when the year or month is out of range. Otherwise the keys are exactly the categories of records dated in that month, and each value is the category's sum over those records. |
| `Dates.PlusOneDay` | src/main/java/validation/ExpenseValidator.java:40 | `plusDays(1)` is the immediate successor: later than the date, and no date lies between. |
| `Dates.MinusYears` | src/main/java/validation/ExpenseValidator.java:42 | The same month and day n years earlier, clamped to the month's last day, which is the latest such day. |
| `Dates.FirstDayOfMonth` | src/main/java/service/ExpenseService.java:79 | `LocalDate.of(y, m, 1)` succeeds iff the year is a LocalDate year and 1 <= m <= 12, with Java's DateTimeException message otherwise. |
| `Dates.LastDayOfMonth` | src/main/java/service/ExpenseService.java:80 | Same month, and no day of that month is later. |
| `Dates.MonthWindow` | src/main/java/service/ExpenseService.java:79-82 | A date lies between the month's first and last day, inclusive, iff it is in that month. |
| `Dates.BeforeIsStrictTotalOrder` | src/main/java/persistence/FileExpenseRepository.java:162 | `isBefore` is irreflexive, asymmetric, transitive and total. |
| `Dates.ParseFormatDate` | src/main/java/persistence/FileExpenseRepository.java:81 | `LocalDate.parse` of a date's `toString` gives the date back, for every LocalDate year. |
| `Amounts.ParseFormatAmount` | src/main/java/persistence/FileExpenseRepository.java:78 | Parsing an amount's written text gives the amount back. |
| `Text.Trim` | src/main/java/service/ExpenseService.java:34 | `trim` gives a slice of its input, and every char it removes, at the front or the back, is <= ' '. The result is empty iff the input is blank, has no char <= ' ' at either end, and leaves trimmed text alone. |
| `Text.TrimIdempotent` | src/main/java/service/ExpenseService.java:46-49 | Trimming twice is trimming once. |
| `Text.JavaSplitJoin` | src/main/java/persistence/FileExpenseRepository.java:71 | `split` undoes `String.join` when no part holds the separator and the last part is not empty. |

## Left out

- File-system work in `loadData` and `saveData` is not modelled. This covers creating the directory, opening readers and writers, `IOException` and its wrapping in `RuntimeException`, and the console messages. The file is a list of lines, and a missing file is an empty list.
- Thread safety is not modelled; operations are sequential. The `ConcurrentHashMap` iteration order is the `order` parameter.
- `LocalDate.now()` and `UUID.randomUUID()` are not modelled. They are the `today` and `freshId` parameters. `freshId` is assumed absent from the map where a property needs that.
- `double` arithmetic is not modelled. Amounts are whole cents and every sum is exact, so the rounding of `summingDouble` and of `DoubleStream.sum` is left out.
- `Amounts.ParseAmount`: does not accept everything `Double.parseDouble` accepts. Exponents, hexadecimal, NaN, Infinity, 'd'/'f' suffixes and more than two fraction digits are refused, because amounts are whole cents. A line Java would load with such an amount is skipped by the model.
- `Amounts.FormatAmount`: writes magnitudes of 10,000,000 and more in plain notation, where `Double.toString` switches to "1.0E7" style. The round trip holds either way.
- `Text.EqualsIgnoreCase`: folds ASCII letters only, not the full Unicode case mapping of `equalsIgnoreCase`.
- `|s|` counts Dafny chars. For text outside the Basic Multilingual Plane, this can differ from Java's UTF-16 `length()`.
- A null id passed to `findById` is not modelled, and neither is a null record passed to `update`. In Java both throw a `NullPointerException`. The service never passes either, except through `findExpenseById(null)`.
- A null category passed to `findByCategory` is not modelled. Java returns an empty list for it, because `equalsIgnoreCase(null)` is false. The service refuses a null category before it calls `findByCategory`.
- `Validation.ThrowIfInvalid`: its own contract says only that the failure is a validation failure. The message, the errors joined by ", ", is stated through `Validation.ThrownMessageListsErrors`, which splits it back into the error list.
- `Service.GetExpensesByDateRange`: requires the given dates to have years a `LocalDate` can hold, which every `LocalDate` does.
- The `ValidationException` class is not modelled. It is a `Validation` failure carrying the message.
- `Expense.toString` is not modelled. It is display text only, at src/main/java/model/Expense.java:48-52, and nothing in the core reads it.
- The ordinary getters of `Expense` and `ValidationResult` are not modelled separately. They are the datatypes' fields.
- The user interfaces are not modelled: `Main.java`, `ExpenseTrackerApp.java` and `ConsoleUI.java`. Nor are the chart rendering of `ChartService.java`, or `ExpenseRepository.java`, an interface with no behaviour of its own.

## Findings

| source | as written | input that shows it | evidently intended | confidence | as-written member | corrected member |
|---|---|---|---|---|---|---|
| src/main/java/validation/ExpenseValidator.java:26-35 | No rule refuses a bar or a line break in the category or description. `formatExpense` writes such text as it is, and `parseExpense` then finds more than six fields and returns null (src/main/java/persistence/FileExpenseRepository.java:71-73). | `addExpense(5.00, c, null, today, null)`, where `c` is the three-char category a, bar, b, succeeds and saves the line id, 5.0, a, b, an empty description, today, CASH joined by bars. The next `loadData` skips that line, so the record is lost without any error. | Every record `addExpense` accepts can be read back from the data file. | not executed | `Service.AddedRecordWithBarIsLost` | `Service.AddStorableExpense` |

`Service.AddExpense` still models the code as written. `Service.AddStorableExpense` is that operation with one added rule: the trimmed category and description must hold no `|` and no line break. The rule also refuses a line break inside a description, which would split the record's line in two. With that rule, `Service.StorableAddSurvivesReopen` proves that the added record survives a reopening of the file.
