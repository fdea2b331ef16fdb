/** The expense record: an immutable value whose constructor fills in defaults
    and whose Java equality looks at the id alone. */
module Expenses {
  import opened Wrappers
  import opened Amounts
  import opened Dates
  import opened PaymentMethods

  datatype Expense = Expense(
    id: string,
    amount: Cents,
    category: string,
    description: string,
    date: Date,
    paymentMethod: PaymentMethod)

  /** The constructor `new Expense(...)`. A null id or category is refused with
      the source's messages (the id is checked first); a null description becomes
      "", a null date becomes `today` (`LocalDate.now()`), a null payment method
      becomes Cash. The amount is not checked. */
  function NewExpense(
    id: Option<string>, amount: Cents, category: Option<string>, description: Option<string>,
    date: Option<Date>, paymentMethod: Option<PaymentMethod>, today: Date): (r: Result<Expense, Failure>)
    ensures id.None? ==> r == Err(NullPointer("ID cannot be null"))
    ensures id.Some? && category.None? ==> r == Err(NullPointer("Category cannot be null"))
    ensures r.Ok? <==> id.Some? && category.Some?
    ensures r.Ok? ==> r.value.id == id.value && r.value.amount == amount && r.value.category == category.value
    ensures r.Ok? ==> r.value.description == (if description.Some? then description.value else "")
    ensures r.Ok? ==> r.value.date == (if date.Some? then date.value else today)
    ensures r.Ok? ==> r.value.paymentMethod == (if paymentMethod.Some? then paymentMethod.value else Cash)
  {
    if id.None? then Err(NullPointer("ID cannot be null"))
    else if category.None? then Err(NullPointer("Category cannot be null"))
    else Ok(Expense(id.value, amount, category.value, description.GetOr(""), date.GetOr(today), paymentMethod.GetOr(Cash)))
  }

  /** `equals`: two expenses are equal when their ids are. */
  predicate JavaEquals(a: Expense, b: Expense) {
    a.id == b.id
  }

  /** `equals` is an equivalence relation that ignores every field but the id. */
  lemma JavaEqualsIsIdEquivalence(a: Expense, b: Expense, c: Expense)
    ensures JavaEquals(a, a)
    ensures JavaEquals(a, b) ==> JavaEquals(b, a)
    ensures JavaEquals(a, b) && JavaEquals(b, c) ==> JavaEquals(a, c)
    ensures JavaEquals(a, b) <==> a.id == b.id
  {
  }

  /** Two's-complement 32-bit wrap-around of Java `int` arithmetic. */
  function Wrap32(x: int): (r: int)
    ensures -0x8000_0000 <= r < 0x8000_0000
    ensures (r - x) % 0x1_0000_0000 == 0
  {
    (x + 0x8000_0000) % 0x1_0000_0000 - 0x8000_0000
  }

  /** `String.hashCode`: h = 31 * h + c over the chars, in `int` arithmetic. */
  function StringHash(s: string): (h: int)
    ensures -0x8000_0000 <= h < 0x8000_0000
  {
    if s == [] then 0 else Wrap32(31 * StringHash(s[..|s| - 1]) + s[|s| - 1] as int)
  }

  /** `hashCode` = `Objects.hash(id)` = 31 * 1 + id.hashCode(). */
  function HashCode(e: Expense): int {
    Wrap32(31 + StringHash(e.id))
  }

  /** Equal expenses have equal hash codes, as `Object.hashCode` requires. */
  lemma HashCodeAgreesWithEquals(a: Expense, b: Expense)
    requires JavaEquals(a, b)
    ensures HashCode(a) == HashCode(b)
  {
  }
}
