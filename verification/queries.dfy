/** The list operations behind the repository queries: keeping the records that
    satisfy a test, and the stable newest-first sort of
    `sorted((e1, e2) -> e2.getDate().compareTo(e1.getDate()))`. */
module Queries {
  import opened Dates
  import opened Expenses

  /** `filter(p)` on an ordered stream: the records satisfying `p`, in order. */
  function Filter(xs: seq<Expense>, p: Expense -> bool): (r: seq<Expense>)
    ensures |r| <= |xs|
    ensures forall e :: e in r <==> e in xs && p(e)
    ensures multiset(r) <= multiset(xs)
  {
    if xs == [] then []
    else
      var rest := Filter(xs[1..], p);
      assert xs == [xs[0]] + xs[1..];
      if p(xs[0]) then [xs[0]] + rest else rest
  }

  /** No record is dated before a later one: dates never increase along the list. */
  predicate IsNewestFirst(xs: seq<Expense>) {
    forall i, j :: 0 <= i < j < |xs| ==> !IsBefore(xs[i].date, xs[j].date)
  }

  /** Puts `x` in front of the first record not newer than it, so that `x`
      stays ahead of records of the same date. */
  function Insert(x: Expense, s: seq<Expense>): (r: seq<Expense>)
    ensures multiset(r) == multiset(s) + multiset{x}
    ensures IsNewestFirst(s) ==> IsNewestFirst(r)
  {
    if s == [] || !IsBefore(x.date, s[0].date) then
      InsertAtFront(x, s);
      [x] + s
    else
      var rest := Insert(x, s[1..]);
      assert s == [s[0]] + s[1..];
      InsertBehind(s[0], x, s[1..], rest);
      [s[0]] + rest
  }

  lemma InsertAtFront(x: Expense, s: seq<Expense>)
    requires s == [] || !IsBefore(x.date, s[0].date)
    ensures IsNewestFirst(s) ==> IsNewestFirst([x] + s)
  {
    if IsNewestFirst(s) && s != [] {
      var r := [x] + s;
      forall i, j | 0 <= i < j < |r| ensures !IsBefore(r[i].date, r[j].date) {
        if i == 0 {
          BeforeIsStrictTotalOrder(x.date, s[0].date, s[j - 1].date);
          BeforeIsStrictTotalOrder(s[0].date, s[j - 1].date, x.date);
          BeforeIsStrictTotalOrder(x.date, s[j - 1].date, s[0].date);
        }
      }
    }
  }

  lemma InsertBehind(head: Expense, x: Expense, tail: seq<Expense>, rest: seq<Expense>)
    requires IsBefore(x.date, head.date)
    requires multiset(rest) == multiset(tail) + multiset{x}
    requires IsNewestFirst([head] + tail) ==> IsNewestFirst(rest)
    ensures IsNewestFirst([head] + tail) ==> IsNewestFirst([head] + rest)
  {
    if IsNewestFirst([head] + tail) {
      var r := [head] + rest;
      forall i, j | 0 <= i < j < |r| ensures !IsBefore(r[i].date, r[j].date) {
        if i == 0 {
          var y := rest[j - 1];
          assert y in multiset(rest);
          if y == x {
            BeforeIsStrictTotalOrder(head.date, x.date, head.date);
          } else {
            assert y in multiset(tail);
            assert y in tail;
            var k :| 0 <= k < |tail| && tail[k] == y;
            var ht := [head] + tail;
            assert ht[0] == head && ht[k + 1] == y;
            assert !IsBefore(ht[0].date, ht[k + 1].date);
          }
        } else {
          assert r[i] == rest[i - 1] && r[j] == rest[j - 1];
        }
      }
    }
  }

  /** A stable insertion sort, newest first. */
  function SortNewestFirst(xs: seq<Expense>): (r: seq<Expense>)
    ensures IsNewestFirst(r)
    ensures multiset(r) == multiset(xs)
    ensures |r| == |xs|
  {
    if xs == [] then []
    else
      assert xs == [xs[0]] + xs[1..];
      Insert(xs[0], SortNewestFirst(xs[1..]))
  }

  /** Filtering and sorting commute: filtering a sorted list keeps it in the
      order the sort gives the filtered list. */
  lemma {:induction false} FilterCommutesWithSort(xs: seq<Expense>, p: Expense -> bool)
    ensures Filter(SortNewestFirst(xs), p) == SortNewestFirst(Filter(xs, p))
  {
    if xs != [] {
      FilterCommutesWithSort(xs[1..], p);
      FilterInsert(xs[0], SortNewestFirst(xs[1..]), p);
    }
  }

  /** Filtering after an insertion is inserting into the filtered list, or not
      inserting when the record fails the test. */
  lemma {:induction false} FilterInsert(x: Expense, s: seq<Expense>, p: Expense -> bool)
    requires IsNewestFirst(s)
    ensures Filter(Insert(x, s), p) == if p(x) then Insert(x, Filter(s, p)) else Filter(s, p)
  {
    if s == [] || !IsBefore(x.date, s[0].date) {
      assert Insert(x, s) == [x] + s;
      assert ([x] + s)[1..] == s;
      var f := Filter(s, p);
      if p(x) && f != [] {
        FilteredHeadNotNewer(x, s, p);
      }
    } else {
      var rest := Insert(x, s[1..]);
      assert Insert(x, s) == [s[0]] + rest;
      assert ([s[0]] + rest)[1..] == rest;
      SortedTail(s);
      FilterInsert(x, s[1..], p);
    }
  }

  /** A record not older than the head of a sorted list is not older than the
      head of any filtered part of it. */
  lemma FilteredHeadNotNewer(x: Expense, s: seq<Expense>, p: Expense -> bool)
    requires IsNewestFirst(s) && s != [] && !IsBefore(x.date, s[0].date)
    requires Filter(s, p) != []
    ensures !IsBefore(x.date, Filter(s, p)[0].date)
  {
    var f := Filter(s, p);
    assert f[0] in s;
    var k :| 0 <= k < |s| && s[k] == f[0];
    if k > 0 {
      assert !IsBefore(s[0].date, s[k].date);
    }
    BeforeIsStrictTotalOrder(x.date, s[0].date, f[0].date);
    BeforeIsStrictTotalOrder(s[0].date, x.date, f[0].date);
    BeforeIsStrictTotalOrder(x.date, f[0].date, s[0].date);
  }

  /** The sort is stable: records of one date keep the order they had. */
  lemma SortIsStable(xs: seq<Expense>, d: Date)
    ensures Filter(SortNewestFirst(xs), (e: Expense) => e.date == d) == Filter(xs, (e: Expense) => e.date == d)
  {
    var p := (e: Expense) => e.date == d;
    FilterCommutesWithSort(xs, p);
    SortKeepsSameDateList(Filter(xs, p), d);
  }

  /** A list whose records all have one date is already sorted and stays as it is. */
  lemma {:induction false} SortKeepsSameDateList(ys: seq<Expense>, d: Date)
    requires forall e :: e in ys ==> e.date == d
    ensures SortNewestFirst(ys) == ys
  {
    if ys != [] {
      var tail := ys[1..];
      assert forall e :: e in tail ==> e in ys;
      SortKeepsSameDateList(tail, d);
      assert tail != [] ==> tail[0] in ys;
      InsertSameDate(ys[0], tail);
      assert ys == [ys[0]] + tail;
    }
  }

  /** A record dated like the head of the list goes in front of it. */
  lemma InsertSameDate(x: Expense, s: seq<Expense>)
    requires s == [] || s[0].date == x.date
    ensures Insert(x, s) == [x] + s
  {
    BeforeIsStrictTotalOrder(x.date, x.date, x.date);
  }

  lemma SortedTail(s: seq<Expense>)
    requires IsNewestFirst(s) && s != []
    ensures IsNewestFirst(s[1..])
  {
    forall i, j | 0 <= i < j < |s| - 1 ensures !IsBefore(s[1..][i].date, s[1..][j].date) {
      assert s[1..][i] == s[i + 1] && s[1..][j] == s[j + 1];
    }
  }
}
