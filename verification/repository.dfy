/** `FileExpenseRepository`: an id -> record map kept in memory, loaded from the
    lines of the data file and written back as one line per record after every
    change. The file is a list of lines here; `Lines` relates it to file text. */
module Repository {
  import opened Wrappers
  import opened Text
  import opened Lines
  import opened Dates
  import opened Expenses
  import opened LineFormat
  import opened Queries

  /** The `expenses` map. */
  type Store = map<string, Expense>

  /** Every record is stored under its own id, as `save` and `loadData` put it. */
  predicate IsKeyedById(m: Store) {
    forall k :: k in m ==> m[k].id == k
  }

  /** Every record can be written to the data file and read back. */
  predicate AllStorable(m: Store) {
    forall k :: k in m ==> IsStorable(m[k])
  }

  /** `order` lists every key once: the order in which `values()` happens to
      iterate the map. The Java map does not fix this order, so it is a
      parameter of every operation that iterates. */
  predicate Enumerates(order: seq<string>, m: Store) {
    && (forall i :: 0 <= i < |order| ==> order[i] in m)
    && (forall k :: k in m ==> k in order)
    && (forall i, j :: 0 <= i < j < |order| ==> order[i] != order[j])
  }

  /** `expenses.values()` iterated in `order`. */
  function Values(order: seq<string>, m: Store): (r: seq<Expense>)
    requires forall i :: 0 <= i < |order| ==> order[i] in m
    ensures |r| == |order|
    ensures forall i :: 0 <= i < |order| ==> r[i] == m[order[i]]
  {
    if order == [] then [] else [m[order[0]]] + Values(order[1..], m)
  }

  /** The values listing holds every stored record exactly once. */
  lemma ValuesListEachRecordOnce(order: seq<string>, m: Store)
    requires IsKeyedById(m) && Enumerates(order, m)
    ensures forall e :: e in Values(order, m) <==> e in m.Values
    ensures var r := Values(order, m);
      forall i, j :: 0 <= i < j < |r| ==> r[i] != r[j]
  {
    var r := Values(order, m);
    forall e | e in m.Values ensures e in r {
      var k :| k in m && m[k] == e;
      var i :| 0 <= i < |order| && order[i] == k;
      assert r[i] == e;
    }
  }

  /** An enumeration lists as many keys as the map holds. */
  lemma {:induction false} EnumerationLength(order: seq<string>, m: Store)
    requires Enumerates(order, m)
    ensures |order| == |m|
  {
    if order != [] {
      var rest := m - {order[0]};
      EnumerationTail(order, m);
      EnumerationLength(order[1..], rest);
      assert m.Keys == rest.Keys + {order[0]};
    } else {
      assert m.Keys == {};
    }
  }

  /** Without its first key, the rest of an enumeration enumerates the rest of the map. */
  lemma EnumerationTail(order: seq<string>, m: Store)
    requires Enumerates(order, m) && order != []
    ensures Enumerates(order[1..], m - {order[0]})
  {
    var rest := m - {order[0]};
    forall i | 0 <= i < |order| - 1 ensures order[1..][i] in rest {
      assert order[1..][i] == order[i + 1] != order[0];
    }
    forall j | j in rest ensures j in order[1..] {
      var i :| 0 <= i < |order| && order[i] == j;
      assert i != 0 && order[1..][i - 1] == j;
    }
  }

  /** Two enumerations of a map keyed by id list the same records, each once:
      the order of `values()` changes the order of a listing and nothing else. */
  lemma ListingsHoldSameRecords(o1: seq<string>, o2: seq<string>, m: Store)
    requires IsKeyedById(m) && Enumerates(o1, m) && Enumerates(o2, m)
    ensures multiset(Values(o1, m)) == multiset(Values(o2, m))
  {
    var v1 := Values(o1, m);
    var v2 := Values(o2, m);
    ListingCount(o1, m);
    ListingCount(o2, m);
    forall e ensures multiset(v1)[e] == multiset(v2)[e] {
    }
  }

  lemma ListingCount(order: seq<string>, m: Store)
    requires IsKeyedById(m) && Enumerates(order, m)
    ensures forall e :: multiset(Values(order, m))[e] == if e in m.Values then 1 else 0
  {
    ValuesListEachRecordOnce(order, m);
    OnceEach(Values(order, m));
  }

  /** A list without repeats holds each of its records once. */
  lemma {:induction false} OnceEach(s: seq<Expense>)
    requires forall i, j :: 0 <= i < j < |s| ==> s[i] != s[j]
    ensures forall e :: multiset(s)[e] == if e in s then 1 else 0
  {
    if s != [] {
      assert s == [s[0]] + s[1..];
      OnceEach(s[1..]);
      assert s[0] !in s[1..];
    }
  }

  // ---------------------------------------------------------------- loading

  /** What one line of the `loadData` loop contributes: nothing for a blank
      line or one `parseExpense` rejects, the parsed record otherwise. */
  function LineRecord(line: string): Option<Expense> {
    if IsBlank(line) then None else ParseExpense(line)
  }

  /** What `read` makes of each line, line by line. */
  function ReadEach(lines: seq<string>, read: string -> Option<Expense>): (recs: seq<Option<Expense>>)
    ensures |recs| == |lines|
    ensures forall i :: 0 <= i < |lines| ==> recs[i] == read(lines[i])
  {
    seq(|lines|, i requires 0 <= i < |lines| => read(lines[i]))
  }

  /** The records of the lines, line by line. */
  function Records(lines: seq<string>): (recs: seq<Option<Expense>>)
    ensures |recs| == |lines|
  {
    ReadEach(lines, LineRecord)
  }

  /** One iteration of the loop: a record is put under its id. */
  function Put(m: Store, rec: Option<Expense>): (r: Store)
  {
    match rec
    case Some(e) => m[e.id := e]
    case None => m
  }

  /** The loop over records in file order, starting from `m`. */
  function PutAll(m: Store, recs: seq<Option<Expense>>): (r: Store)
  {
    if recs == [] then m else Put(PutAll(m, recs[..|recs| - 1]), recs[|recs| - 1])
  }

  /** The map a new repository holds after reading the data file's lines; a
      missing file is an empty list of lines. */
  function Load(lines: seq<string>): (r: Store)
  {
    PutAll(map[], Records(lines))
  }

  /** Every record the loop puts is stored under its own id. */
  lemma {:induction false} PutAllIsKeyedById(m: Store, recs: seq<Option<Expense>>)
    requires IsKeyedById(m)
    ensures IsKeyedById(PutAll(m, recs))
  {
    if recs != [] {
      PutAllIsKeyedById(m, recs[..|recs| - 1]);
    }
  }

  /** Loading stores every record under its own id, and, since the lines of a
      file have no line breaks, every loaded record can be saved again. */
  lemma LoadIsWellFormed(lines: seq<string>)
    requires forall k :: 0 <= k < |lines| ==> HasNoLineBreak(lines[k])
    ensures IsKeyedById(Load(lines))
    ensures AllStorable(Load(lines))
  {
    PutAllIsKeyedById(map[], Records(lines));
    var recs := Records(lines);
    forall i | 0 <= i < |recs| && recs[i].Some? ensures IsStorable(recs[i].value) {
      ParsedIsStorable(lines[i]);
    }
    PutAllIsStorable(map[], recs);
  }

  lemma {:induction false} PutAllIsStorable(m: Store, recs: seq<Option<Expense>>)
    requires AllStorable(m)
    requires forall i :: 0 <= i < |recs| && recs[i].Some? ==> IsStorable(recs[i].value)
    ensures AllStorable(PutAll(m, recs))
  {
    if recs != [] {
      var n := |recs| - 1;
      PutAllIsStorable(m, recs[..n]);
    }
  }

  /** The record is present and has id `k`. */
  predicate HasId(rec: Option<Expense>, k: string) {
    rec.Some? && rec.value.id == k
  }

  /** An id is loaded exactly when some line holds a record with that id, and
      the record kept is the one on the last such line. */
  lemma LoadKeepsLastRecord(lines: seq<string>, k: string)
    ensures k in Load(lines) <==> exists i :: 0 <= i < |lines| && HasId(LineRecord(lines[i]), k)
    ensures forall i ::
              (0 <= i < |lines| && HasId(LineRecord(lines[i]), k)
               && (forall j :: i < j < |lines| ==> !HasId(LineRecord(lines[j]), k)))
              ==> k in Load(lines) && Some(Load(lines)[k]) == LineRecord(lines[i])
  {
    var recs := Records(lines);
    assert forall i :: 0 <= i < |lines| ==> recs[i] == LineRecord(lines[i]);
    PutAllKeepsLast(recs, k);
  }

  lemma PutAllKeepsLast(recs: seq<Option<Expense>>, k: string)
    ensures k in PutAll(map[], recs) <==> exists i :: 0 <= i < |recs| && HasId(recs[i], k)
    ensures forall i ::
              (0 <= i < |recs| && HasId(recs[i], k)
               && (forall j :: i < j < |recs| ==> !HasId(recs[j], k)))
              ==> k in PutAll(map[], recs) && Some(PutAll(map[], recs)[k]) == recs[i]
  {
    PutAllDomain(recs, k);
    forall i | 0 <= i < |recs| && HasId(recs[i], k)
      && (forall j :: i < j < |recs| ==> !HasId(recs[j], k))
      ensures k in PutAll(map[], recs) && Some(PutAll(map[], recs)[k]) == recs[i]
    {
      PutAllLastValue(recs, k, i);
    }
  }

  /** What putting one record does to the entry of id `k`. */
  lemma PutEffect(m: Store, rec: Option<Expense>, k: string)
    ensures k in Put(m, rec) <==> k in m || HasId(rec, k)
    ensures HasId(rec, k) ==> Put(m, rec)[k] == rec.value
    ensures !HasId(rec, k) && k in m ==> Put(m, rec)[k] == m[k]
  {
  }

  lemma {:induction false} PutAllDomain(recs: seq<Option<Expense>>, k: string)
    ensures k in PutAll(map[], recs) <==> exists i :: 0 <= i < |recs| && HasId(recs[i], k)
  {
    if recs != [] {
      var n := |recs| - 1;
      var prefix := recs[..n];
      PutAllDomain(prefix, k);
      assert PutAll(map[], recs) == Put(PutAll(map[], prefix), recs[n]);
      PutEffect(PutAll(map[], prefix), recs[n], k);
      if (exists i :: 0 <= i < |recs| && HasId(recs[i], k)) && !HasId(recs[n], k) {
        var i :| 0 <= i < |recs| && HasId(recs[i], k);
        assert i < n && prefix[i] == recs[i];
      }
      if exists i :: 0 <= i < n && HasId(prefix[i], k) {
        var i :| 0 <= i < n && HasId(prefix[i], k);
        assert recs[i] == prefix[i];
      }
    }
  }

  lemma {:induction false} PutAllLastValue(recs: seq<Option<Expense>>, k: string, i: int)
    requires 0 <= i < |recs| && HasId(recs[i], k)
    requires forall j :: i < j < |recs| ==> !HasId(recs[j], k)
    ensures k in PutAll(map[], recs) && Some(PutAll(map[], recs)[k]) == recs[i]
  {
    var n := |recs| - 1;
    var prefix := recs[..n];
    assert PutAll(map[], recs) == Put(PutAll(map[], prefix), recs[n]);
    PutEffect(PutAll(map[], prefix), recs[n], k);
    if i < n {
      assert prefix[i] == recs[i];
      forall j | i < j < n ensures !HasId(prefix[j], k) {
        assert prefix[j] == recs[j];
      }
      PutAllLastValue(prefix, k, i);
    }
  }

  /** The loop over `a + b` is the loop over `b` on top of the loop over `a`. */
  lemma {:induction false} PutAllAppend(m: Store, a: seq<Option<Expense>>, b: seq<Option<Expense>>)
    ensures PutAll(m, a + b) == PutAll(PutAll(m, a), b)
  {
    if b != [] {
      var n := |b| - 1;
      var ab := a + b;
      assert ab[..|ab| - 1] == a + b[..n];
      assert ab[|ab| - 1] == b[n];
      PutAllAppend(m, a, b[..n]);
    } else {
      assert a + b == a;
    }
  }

  /** A blank or unparsable line changes nothing: the other lines load as if it
      were not there. */
  lemma LoadSkipsBadLine(a: seq<string>, line: string, b: seq<string>)
    requires IsBlank(line) || ParseExpense(line).None?
    ensures Load(a + [line] + b) == Load(a + b)
  {
    var ra := Records(a);
    var rb := Records(b);
    var skipped: seq<Option<Expense>> := [None];
    assert LineRecord(line) == None;
    ReadEachAppend(a, [line], LineRecord);
    ReadEachAppend(a + [line], b, LineRecord);
    ReadEachAppend(a, b, LineRecord);
    assert Records([line]) == skipped;
    PutAllAppend(map[], ra + skipped, rb);
    PutAllAppend(map[], ra, skipped);
    assert PutAll(PutAll(map[], ra), skipped) == PutAll(map[], ra) by {
      assert skipped[..0] == [];
    }
    PutAllAppend(map[], ra, rb);
  }

  lemma ReadEachAppend(a: seq<string>, b: seq<string>, read: string -> Option<Expense>)
    ensures ReadEach(a + b, read) == ReadEach(a, read) + ReadEach(b, read)
  {
    var l := ReadEach(a + b, read);
    var r := ReadEach(a, read) + ReadEach(b, read);
    forall i | 0 <= i < |l| ensures l[i] == r[i] {
      if i < |a| {
        assert (a + b)[i] == a[i];
      } else {
        assert (a + b)[i] == b[i - |a|];
      }
    }
  }

  // ----------------------------------------------------------------- saving

  /** The lines `saveData` prints: one formatted line per record, in `order`. */
  function SaveLines(order: seq<string>, m: Store): (lines: seq<string>)
    requires forall i :: 0 <= i < |order| ==> order[i] in m
    ensures |lines| == |order|
    ensures forall i :: 0 <= i < |order| ==> lines[i] == FormatExpense(m[order[i]])
  {
    seq(|order|, i requires 0 <= i < |order| => FormatExpense(m[order[i]]))
  }

  /** The data file's text after `saveData`, with the platform's line separator. */
  function FileText(order: seq<string>, m: Store, sep: LineSeparator): string
    requires forall i :: 0 <= i < |order| ==> order[i] in m
  {
    WriteLines(SaveLines(order, m), sep)
  }

  /** Opening the repository again on the file `saveData` wrote restores the
      map, whatever the iteration order and line separator, as long as every
      record is storable and stored under its id. */
  lemma ReopenRestoresStore(order: seq<string>, m: Store, sep: LineSeparator)
    requires IsKeyedById(m) && AllStorable(m) && Enumerates(order, m)
    ensures Load(ReadLines(FileText(order, m, sep))) == m
  {
    SavedLinesReadBack(order, m);
    ReadWriteLines(SaveLines(order, m), sep);
    LoadSavedLines(order, m);
  }

  /** Loading the saved lines gives the map back. */
  lemma LoadSavedLines(order: seq<string>, m: Store)
    requires IsKeyedById(m) && AllStorable(m) && Enumerates(order, m)
    ensures Load(SaveLines(order, m)) == m
  {
    SavedLinesReadBack(order, m);
    var recs := Records(SaveLines(order, m));
    PutAllStoredRecords(order, m, recs);
    AllKeysRestrict(order, m);
  }

  /** The entries of `m` whose keys are among the first `n` of `order`. */
  function Restrict(m: Store, order: seq<string>, n: nat): Store
    requires n <= |order|
  {
    map k | k in m && k in order[..n] :: m[k]
  }

  lemma AllKeysRestrict(order: seq<string>, m: Store)
    requires Enumerates(order, m)
    ensures Restrict(m, order, |order|) == m
  {
    var r := Restrict(m, order, |order|);
    assert order[..|order|] == order;
    assert r.Keys == m.Keys;
    assert forall k :: k in r ==> r[k] == m[k];
  }

  /** Each saved line is free of line breaks and loads as its record. */
  lemma SavedLinesReadBack(order: seq<string>, m: Store)
    requires AllStorable(m)
    requires forall i :: 0 <= i < |order| ==> order[i] in m
    ensures forall i :: 0 <= i < |order| ==> HasNoLineBreak(SaveLines(order, m)[i])
    ensures |Records(SaveLines(order, m))| == |order|
    ensures forall i :: 0 <= i < |order| ==> Records(SaveLines(order, m))[i] == Some(m[order[i]])
  {
    var lines := SaveLines(order, m);
    forall i | 0 <= i < |order|
      ensures HasNoLineBreak(lines[i]) && Records(lines)[i] == Some(m[order[i]])
    {
      SavedLineReadsBack(m[order[i]]);
    }
  }

  /** The line of a storable record has no line break and loads as the record. */
  lemma SavedLineReadsBack(e: Expense)
    requires IsStorable(e)
    ensures HasNoLineBreak(FormatExpense(e)) && LineRecord(FormatExpense(e)) == Some(e)
  {
    ParseFormatExpense(e);
    FormatIsNotBlank(e);
  }

  /** Putting the records of the first keys of an enumeration gives the
      records of those keys. */
  lemma {:induction false} PutAllStoredRecords(order: seq<string>, m: Store, recs: seq<Option<Expense>>)
    requires IsKeyedById(m) && Enumerates(order, m)
    requires |recs| <= |order|
    requires forall i :: 0 <= i < |recs| ==> recs[i] == Some(m[order[i]])
    ensures PutAll(map[], recs) == Restrict(m, order, |recs|)
  {
    if recs != [] {
      var n := |recs| - 1;
      PutAllStoredRecords(order, m, recs[..n]);
      RestrictStep(order, m, n);
      assert m[order[n]].id == order[n];
    }
  }

  /** One more key of the enumeration adds its entry. */
  lemma RestrictStep(order: seq<string>, m: Store, n: nat)
    requires n < |order| && order[n] in m
    ensures Restrict(m, order, n + 1) == Restrict(m, order, n)[order[n] := m[order[n]]]
  {
    assert forall k :: k in order[..n + 1] <==> k in order[..n] || k == order[n];
  }

  // ------------------------------------------------------------- operations

  /** The map after a change, and whether `saveData` rewrote the file. */
  datatype Change = Change(store: Store, rewritten: bool)

  /** `save`: stores the record under its id, replacing any record there, and
      rewrites the file. */
  function Save(m: Store, e: Expense): (r: Change)
    ensures r.rewritten
    ensures e.id in r.store && r.store[e.id] == e
    ensures forall k :: k != e.id ==> (k in r.store <==> k in m) && (k in m ==> r.store[k] == m[k])
    ensures IsKeyedById(m) ==> IsKeyedById(r.store)
    ensures AllStorable(m) && IsStorable(e) ==> AllStorable(r.store)
  {
    Change(m[e.id := e], true)
  }

  /** `findById`: the record stored under `id`, if any. */
  function FindById(m: Store, id: string): (r: Option<Expense>)
    ensures r.Some? <==> id in m
    ensures r.Some? ==> r.value in m.Values
    ensures IsKeyedById(m) && r.Some? ==> r.value.id == id
  {
    if id in m then Some(m[id]) else None
  }

  /** After `save(e)`, `findById` gives `e` for its id and what it gave before
      for every other id. */
  lemma SaveThenFind(m: Store, e: Expense, id: string)
    ensures FindById(Save(m, e).store, e.id) == Some(e)
    ensures id != e.id ==> FindById(Save(m, e).store, id) == FindById(m, id)
  {
  }

  /** `findAll`: every stored record, newest first. */
  function FindAll(m: Store, order: seq<string>): (r: seq<Expense>)
    requires Enumerates(order, m)
    ensures IsNewestFirst(r)
    ensures multiset(r) == multiset(Values(order, m))
    ensures |r| == |order|
    ensures forall e :: e in r <==> e in m.Values
  {
    var r := SortNewestFirst(Values(order, m));
    forall e ensures e in r <==> e in m.Values {
      assert e in r <==> e in multiset(Values(order, m));
      if e in m.Values {
        var k :| k in m && m[k] == e;
        var i :| 0 <= i < |order| && order[i] == k;
        assert Values(order, m)[i] == e;
      }
    }
    r
  }

  /** Filtering before the sort, as the queries do, gives a sorted list of
      exactly the records that pass, in the order the sorted listing has them. */
  lemma SortedFilter(xs: seq<Expense>, p: Expense -> bool)
    ensures var r := SortNewestFirst(Filter(xs, p));
      && IsNewestFirst(r)
      && (forall e :: e in r <==> e in xs && p(e))
      && r == Filter(SortNewestFirst(xs), p)
  {
    var r := SortNewestFirst(Filter(xs, p));
    FilterCommutesWithSort(xs, p);
    forall e ensures e in r <==> e in xs && p(e) {
      assert e in r <==> e in multiset(r);
      assert e in Filter(xs, p) <==> e in multiset(Filter(xs, p));
    }
  }

  /** The test of `findByCategory`. */
  function CategoryIs(category: string): Expense -> bool {
    (e: Expense) => EqualsIgnoreCase(e.category, category)
  }

  /** `findByCategory`: the records whose category equals `category` ignoring
      case, newest first, in the order `findAll` lists them. */
  function FindByCategory(m: Store, order: seq<string>, category: string): (r: seq<Expense>)
    requires Enumerates(order, m)
    ensures IsNewestFirst(r)
    ensures forall e :: e in r <==> e in m.Values && EqualsIgnoreCase(e.category, category)
    ensures r == Filter(FindAll(m, order), CategoryIs(category))
  {
    var p := CategoryIs(category);
    SortedFilter(Values(order, m), p);
    FindAllMembers(m, order);
    assert forall e :: p(e) <==> EqualsIgnoreCase(e.category, category);
    SortNewestFirst(Filter(Values(order, m), p))
  }

  /** The test of `findByDateRange`: `start <= date <= end`. */
  function DateWithin(start: Date, end: Date): Expense -> bool {
    (e: Expense) => !IsBefore(e.date, start) && !IsAfter(e.date, end)
  }

  /** `findByDateRange`: both bounds are parsed first, failing like
      `LocalDate.parse`; then the records dated from `start` through `end`, both
      included, newest first, in the order `findAll` lists them. */
  function FindByDateRange(m: Store, order: seq<string>, startText: string, endText: string)
    : (r: Result<seq<Expense>, Failure>)
    requires Enumerates(order, m)
    ensures r.Ok? <==> ParseDate(startText).Some? && ParseDate(endText).Some?
    ensures ParseDate(startText).None? ==> r == Err(DateTimeParse(startText))
    ensures ParseDate(startText).Some? && ParseDate(endText).None? ==> r == Err(DateTimeParse(endText))
    ensures r.Ok? ==> IsNewestFirst(r.value)
    ensures r.Ok? ==> var start := ParseDate(startText).value; var end := ParseDate(endText).value;
      && (forall e :: e in r.value <==>
            e in m.Values && !IsBefore(e.date, start) && !IsAfter(e.date, end))
      && r.value == Filter(FindAll(m, order), DateWithin(start, end))
  {
    match ParseDate(startText)
    case None => Err(DateTimeParse(startText))
    case Some(start) =>
      match ParseDate(endText)
      case None => Err(DateTimeParse(endText))
      case Some(end) =>
        var p := DateWithin(start, end);
        SortedFilter(Values(order, m), p);
        FindAllMembers(m, order);
        assert forall e :: p(e) <==> !IsBefore(e.date, start) && !IsAfter(e.date, end);
        Ok(SortNewestFirst(Filter(Values(order, m), p)))
  }

  lemma FindAllMembers(m: Store, order: seq<string>)
    requires Enumerates(order, m)
    ensures forall e :: e in Values(order, m) <==> e in m.Values
  {
    var _ := FindAll(m, order);
    forall e | e in m.Values ensures e in Values(order, m) {
      var k :| k in m && m[k] == e;
      var i :| 0 <= i < |order| && order[i] == k;
      assert Values(order, m)[i] == e;
    }
  }

  /** `delete`: removes the record under `id`; true exactly when there was one,
      and only then is the file rewritten. */
  function Delete(m: Store, id: string): (r: (bool, Change))
    ensures r.0 <==> id in m
    ensures r.1.rewritten == r.0
    ensures id !in r.1.store
    ensures forall k :: k != id ==> (k in r.1.store <==> k in m) && (k in m ==> r.1.store[k] == m[k])
    ensures IsKeyedById(m) ==> IsKeyedById(r.1.store)
    ensures AllStorable(m) ==> AllStorable(r.1.store)
  {
    if id in m then (true, Change(m - {id}, true)) else (false, Change(m, false))
  }

  /** `update`: replaces the record under `e`'s id only when one is there, and
      only then rewrites the file; otherwise nothing changes. */
  function Update(m: Store, e: Expense): (r: Change)
    ensures r.rewritten <==> e.id in m
    ensures e.id in m ==> e.id in r.store && r.store[e.id] == e
    ensures e.id !in m ==> r.store == m
    ensures forall k :: k != e.id ==> (k in r.store <==> k in m) && (k in m ==> r.store[k] == m[k])
    ensures IsKeyedById(m) ==> IsKeyedById(r.store)
    ensures AllStorable(m) && IsStorable(e) ==> AllStorable(r.store)
  {
    if e.id in m then Change(m[e.id := e], true) else Change(m, false)
  }
}
