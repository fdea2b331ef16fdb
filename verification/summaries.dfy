/** The totals the service reports: the sum of the amounts of a list of records
    and the per-category sums of `groupingBy(getCategory, summingDouble(getAmount))`.
    Amounts are whole cents, so the sums are exact. */
module Summaries {
  import opened Expenses
  import opened Queries

  /** The sum of the amounts, in list order. */
  function SumAmounts(xs: seq<Expense>): int {
    if xs == [] then 0 else xs[0].amount + SumAmounts(xs[1..])
  }

  /** With every amount positive, as validation demands, the sum is at least
      one cent per record. */
  lemma {:induction false} SumOfPositives(xs: seq<Expense>)
    requires forall i :: 0 <= i < |xs| ==> xs[i].amount > 0
    ensures SumAmounts(xs) >= |xs|
  {
    if xs != [] {
      SumOfPositives(xs[1..]);
    }
  }

  lemma {:induction false} SumAppend(a: seq<Expense>, b: seq<Expense>)
    ensures SumAmounts(a + b) == SumAmounts(a) + SumAmounts(b)
  {
    if a == [] {
      assert a + b == b;
    } else {
      SumAppend(a[1..], b);
      assert (a + b)[1..] == a[1..] + b;
    }
  }

  /** The sum does not depend on the order of the records. */
  lemma {:induction false} SumIgnoresOrder(a: seq<Expense>, b: seq<Expense>)
    requires multiset(a) == multiset(b)
    ensures SumAmounts(a) == SumAmounts(b)
  {
    if a == [] {
      assert |multiset(b)| == 0;
    } else {
      var i := Position(b, a[0]);
      SumWithout(b, i);
      RemoveFromBoth(a, b, i);
      SumIgnoresOrder(a[1..], b[..i] + b[i + 1..]);
    }
  }

  /** A position at which the record occurs. */
  lemma Position(b: seq<Expense>, x: Expense) returns (i: int)
    requires x in multiset(b)
    ensures 0 <= i < |b| && b[i] == x
  {
    assert x in b;
    i :| 0 <= i < |b| && b[i] == x;
  }

  lemma RemoveFromBoth(a: seq<Expense>, b: seq<Expense>, i: int)
    requires multiset(a) == multiset(b) && a != []
    requires 0 <= i < |b| && b[i] == a[0]
    ensures multiset(a[1..]) == multiset(b[..i] + b[i + 1..])
  {
    RemoveHead(a);
    RemoveOne(b, i);
    assert multiset{a[0]} == multiset{b[i]};
  }

  lemma RemoveHead(s: seq<Expense>)
    requires s != []
    ensures multiset(s[1..]) == multiset(s) - multiset{s[0]}
  {
    assert s == [s[0]] + s[1..];
  }

  /** The sum is one record's amount plus the sum of the others. */
  lemma SumWithout(b: seq<Expense>, i: int)
    requires 0 <= i < |b|
    ensures SumAmounts(b) == b[i].amount + SumAmounts(b[..i] + b[i + 1..])
  {
    var front, x, back := b[..i], b[i], b[i + 1..];
    assert b == front + [x] + back;
    assert SumAmounts([x]) == x.amount by {
      assert [x][1..] == [];
    }
    SumAppend(front + [x], back);
    SumAppend(front, [x]);
    SumAppend(front, back);
  }

  lemma RemoveOne(s: seq<Expense>, i: int)
    requires 0 <= i < |s|
    ensures multiset(s[..i] + s[i + 1..]) == multiset(s) - multiset{s[i]}
  {
    assert s == s[..i] + [s[i]] + s[i + 1..];
  }

  /** Filtering keeps every copy of a record that passes and none of one that fails. */
  lemma {:induction false} FilterCount(xs: seq<Expense>, p: Expense -> bool, e: Expense)
    ensures multiset(Filter(xs, p))[e] == if p(e) then multiset(xs)[e] else 0
  {
    if xs != [] {
      FilterCount(xs[1..], p, e);
      var rest := Filter(xs[1..], p);
      assert multiset(xs) == multiset{xs[0]} + multiset(xs[1..]) by {
        assert xs == [xs[0]] + xs[1..];
      }
      if p(xs[0]) {
        assert Filter(xs, p) == [xs[0]] + rest;
        assert multiset(Filter(xs, p)) == multiset{xs[0]} + multiset(rest);
      } else {
        assert Filter(xs, p) == rest;
      }
    }
  }

  /** Lists holding the same records have filtered lists holding the same records. */
  lemma FilterIgnoresOrder(a: seq<Expense>, b: seq<Expense>, p: Expense -> bool)
    requires multiset(a) == multiset(b)
    ensures multiset(Filter(a, p)) == multiset(Filter(b, p))
  {
    forall e ensures multiset(Filter(a, p))[e] == multiset(Filter(b, p))[e] {
      FilterCount(a, p, e);
      FilterCount(b, p, e);
    }
  }

  /** Tests that agree on every record filter alike. */
  lemma {:induction false} FilterAgreeing(xs: seq<Expense>, p: Expense -> bool, q: Expense -> bool)
    requires forall e :: p(e) <==> q(e)
    ensures Filter(xs, p) == Filter(xs, q)
  {
    if xs != [] {
      FilterAgreeing(xs[1..], p, q);
    }
  }

  /** The test `groupingBy(getCategory)` groups by: exact category equality. */
  function HasCategory(c: string): Expense -> bool {
    (e: Expense) => e.category == c
  }

  /** The categories of the records. */
  function Categories(xs: seq<Expense>): set<string> {
    if xs == [] then {} else {xs[0].category} + Categories(xs[1..])
  }

  /** A category is listed exactly when some record has it. */
  lemma {:induction false} CategoriesOfRecords(xs: seq<Expense>)
    ensures forall c :: c in Categories(xs) <==> exists e :: e in xs && e.category == c
  {
    if xs != [] {
      CategoriesOfRecords(xs[1..]);
      assert xs == [xs[0]] + xs[1..];
    }
  }

  /** The sum of the amounts of the records of category `c`, in list order. */
  function CategoryTotal(xs: seq<Expense>, c: string): int {
    if xs == [] then 0
    else (if xs[0].category == c then xs[0].amount else 0) + CategoryTotal(xs[1..], c)
  }

  /** The category total is what `filter` by the category followed by a sum gives. */
  lemma {:induction false} CategoryTotalIsFilteredSum(xs: seq<Expense>, c: string)
    ensures CategoryTotal(xs, c) == SumAmounts(Filter(xs, HasCategory(c)))
  {
    if xs != [] {
      CategoryTotalIsFilteredSum(xs[1..], c);
      FilterStep(xs, HasCategory(c));
    }
  }

  /** A category no record has totals zero. */
  lemma {:induction false} AbsentCategory(xs: seq<Expense>, c: string)
    requires c !in Categories(xs)
    ensures CategoryTotal(xs, c) == 0
  {
    if xs != [] {
      AbsentCategory(xs[1..], c);
    }
  }

  /** Filtering a non-empty list: the head is kept exactly when it passes. */
  lemma FilterStep(xs: seq<Expense>, p: Expense -> bool)
    requires xs != []
    ensures SumAmounts(Filter(xs, p)) == (if p(xs[0]) then xs[0].amount else 0) + SumAmounts(Filter(xs[1..], p))
  {
    var f := Filter(xs[1..], p);
    if p(xs[0]) {
      assert Filter(xs, p) == [xs[0]] + f;
      assert ([xs[0]] + f)[1..] == f;
    }
  }

  /** The sum of the amounts of the records whose category is one of `cats`. */
  function AmountsIn(xs: seq<Expense>, cats: seq<string>): int {
    if xs == [] then 0
    else (if xs[0].category in cats then xs[0].amount else 0) + AmountsIn(xs[1..], cats)
  }

  /** The totals of the categories `cats`, added up in that order. */
  function SumOfTotals(xs: seq<Expense>, cats: seq<string>): int {
    if cats == [] then 0 else CategoryTotal(xs, cats[0]) + SumOfTotals(xs, cats[1..])
  }

  /** Adding up the totals of categories listed once each gives the sum of the
      amounts of the records of those categories. */
  lemma {:induction false} SumOfTotalsIsAmountsIn(xs: seq<Expense>, cats: seq<string>)
    requires forall i, j :: 0 <= i < j < |cats| ==> cats[i] != cats[j]
    ensures SumOfTotals(xs, cats) == AmountsIn(xs, cats)
  {
    if cats == [] {
      AmountsInNone(xs);
    } else {
      var c, rest := cats[0], cats[1..];
      assert cats == [c] + rest;
      forall i, j | 0 <= i < j < |rest| ensures rest[i] != rest[j] {
        assert rest[i] == cats[i + 1] && rest[j] == cats[j + 1];
      }
      assert c !in rest by {
        forall k | 0 <= k < |rest| ensures rest[k] != c {
          assert rest[k] == cats[k + 1];
        }
      }
      SumOfTotalsIsAmountsIn(xs, rest);
      AmountsInSplit(xs, c, rest);
    }
  }

  lemma {:induction false} AmountsInNone(xs: seq<Expense>)
    ensures AmountsIn(xs, []) == 0
  {
    if xs != [] {
      AmountsInNone(xs[1..]);
    }
  }

  /** The records of one more category add that category's total. */
  lemma {:induction false} AmountsInSplit(xs: seq<Expense>, c: string, rest: seq<string>)
    requires c !in rest
    ensures AmountsIn(xs, [c] + rest) == CategoryTotal(xs, c) + AmountsIn(xs, rest)
  {
    if xs != [] {
      AmountsInSplit(xs[1..], c, rest);
    }
  }

  /** When `cats` covers every record's category, it selects every amount. */
  lemma {:induction false} AmountsInAll(xs: seq<Expense>, cats: seq<string>)
    requires forall e :: e in xs ==> e.category in cats
    ensures AmountsIn(xs, cats) == SumAmounts(xs)
  {
    if xs != [] {
      assert xs[0] in xs;
      assert forall e :: e in xs[1..] ==> e in xs;
      AmountsInAll(xs[1..], cats);
    }
  }

  /** The totals of all categories present, each taken once, add up to the sum
      of all amounts. */
  lemma TotalsAddUpToSum(xs: seq<Expense>, cats: seq<string>)
    requires forall i, j :: 0 <= i < j < |cats| ==> cats[i] != cats[j]
    requires forall e :: e in xs ==> e.category in cats
    ensures SumOfTotals(xs, cats) == SumAmounts(xs)
  {
    SumOfTotalsIsAmountsIn(xs, cats);
    AmountsInAll(xs, cats);
  }

  /** The values of a summary under `keys`, added up in that order. */
  function SumOfValues(r: map<string, int>, keys: seq<string>): int
    requires forall i :: 0 <= i < |keys| ==> keys[i] in r
  {
    if keys == [] then 0 else r[keys[0]] + SumOfValues(r, keys[1..])
  }

  /** Summing the values of a map of category totals is summing the totals. */
  lemma {:induction false} SumOfValuesIsSumOfTotals(r: map<string, int>, xs: seq<Expense>, keys: seq<string>)
    requires forall i :: 0 <= i < |keys| ==> keys[i] in r
    requires forall c :: c in r ==> r[c] == CategoryTotal(xs, c)
    ensures SumOfValues(r, keys) == SumOfTotals(xs, keys)
  {
    if keys != [] {
      SumOfValuesIsSumOfTotals(r, xs, keys[1..]);
    }
  }

  /** The grouped sums, accumulated record by record: one entry per category
      present, holding the total of that category. */
  function CategorySummary(xs: seq<Expense>): (r: map<string, int>)
    ensures r.Keys == Categories(xs)
    ensures forall c :: c in r ==> r[c] == CategoryTotal(xs, c)
  {
    if xs == [] then map[]
    else
      var rest := CategorySummary(xs[1..]);
      SummaryStep(xs, rest);
      AddAmount(rest, xs[0])
  }

  /** Adds one record's amount to the sum of its category, starting a new
      entry for a category not seen yet. */
  function AddAmount(sums: map<string, int>, e: Expense): map<string, int> {
    sums[e.category := e.amount + (if e.category in sums then sums[e.category] else 0)]
  }

  lemma SummaryStep(xs: seq<Expense>, rest: map<string, int>)
    requires xs != []
    requires rest.Keys == Categories(xs[1..])
    requires forall c :: c in rest ==> rest[c] == CategoryTotal(xs[1..], c)
    ensures AddAmount(rest, xs[0]).Keys == Categories(xs)
    ensures var r := AddAmount(rest, xs[0]);
      forall c :: c in r ==> r[c] == CategoryTotal(xs, c)
  {
    var r := AddAmount(rest, xs[0]);
    forall c | c in r ensures r[c] == CategoryTotal(xs, c) {
      if c == xs[0].category && c !in rest {
        AbsentCategory(xs[1..], c);
      }
    }
  }

  /** The summary depends only on which records are listed, not on their order. */
  lemma SummaryIgnoresOrder(a: seq<Expense>, b: seq<Expense>)
    requires multiset(a) == multiset(b)
    ensures CategorySummary(a) == CategorySummary(b)
  {
    var ra := CategorySummary(a);
    var rb := CategorySummary(b);
    SameCategories(a, b);
    forall c | c in ra ensures ra[c] == rb[c] {
      SameCategoryTotal(a, b, c);
    }
  }

  lemma SameCategories(a: seq<Expense>, b: seq<Expense>)
    requires multiset(a) == multiset(b)
    ensures Categories(a) == Categories(b)
  {
    CategoriesOfRecords(a);
    CategoriesOfRecords(b);
    forall e ensures e in a <==> e in b {
      assert e in a <==> e in multiset(a);
      assert e in b <==> e in multiset(b);
    }
  }

  /** Lists holding the same records have the same category totals. */
  lemma SameCategoryTotal(a: seq<Expense>, b: seq<Expense>, c: string)
    requires multiset(a) == multiset(b)
    ensures CategoryTotal(a, c) == CategoryTotal(b, c)
  {
    CategoryTotalIsFilteredSum(a, c);
    CategoryTotalIsFilteredSum(b, c);
    FilterIgnoresOrder(a, b, HasCategory(c));
    SumIgnoresOrder(Filter(a, HasCategory(c)), Filter(b, HasCategory(c)));
  }
}
