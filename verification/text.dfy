/** The java.lang.String operations the core relies on: trim, blank tests,
    case-insensitive comparison, joining and splitting on a separator. */
module Text {
  import opened Wrappers

  /** `String.trim` removes every leading and trailing char whose code is at most U+0020. */
  predicate IsTrimmable(c: char) {
    c <= ' '
  }

  /** `s.trim().isEmpty()`: nothing but trimmable chars. */
  predicate IsBlank(s: string) {
    forall i :: 0 <= i < |s| ==> IsTrimmable(s[i])
  }

  /** Drops the leading trimmable chars. */
  function TrimStart(s: string): (r: string)
    ensures |r| <= |s| && r == s[|s| - |r|..]
    ensures forall i :: 0 <= i < |s| - |r| ==> IsTrimmable(s[i])
    ensures r == [] || !IsTrimmable(r[0])
  {
    if |s| > 0 && IsTrimmable(s[0]) then TrimStart(s[1..]) else s
  }

  /** Drops the trailing trimmable chars. */
  function TrimEnd(s: string): (r: string)
    ensures |r| <= |s| && r == s[..|r|]
    ensures forall i :: |r| <= i < |s| ==> IsTrimmable(s[i])
    ensures r == [] || !IsTrimmable(r[|r| - 1])
  {
    if |s| > 0 && IsTrimmable(s[|s| - 1]) then TrimEnd(s[..|s| - 1]) else s
  }

  /** `String.trim`. */
  function Trim(s: string): (r: string)
    ensures |r| <= |s|
    ensures r == [] <==> IsBlank(s)
    ensures r != [] ==> !IsTrimmable(r[0]) && !IsTrimmable(r[|r| - 1])
    ensures s == [] || (!IsTrimmable(s[0]) && !IsTrimmable(s[|s| - 1])) ==> r == s
    ensures exists i, j :: IsTrimCut(s, r, i, j)
  {
    TrimFacts(s);
    TrimIsCut(s);
    TrimStart(TrimEnd(s))
  }

  /** `r` is `s[i..j]`, and every char of `s` outside that slice is trimmable. */
  predicate IsTrimCut(s: string, r: string, i: int, j: int) {
    && 0 <= i <= j <= |s|
    && r == s[i..j]
    && (forall k :: 0 <= k < i ==> IsTrimmable(s[k]))
    && (forall k :: j <= k < |s| ==> IsTrimmable(s[k]))
  }

  /** Trimming cuts a slice out of `s`, removing trimmable chars only, from the
      front and from the back. */
  lemma TrimIsCut(s: string)
    ensures IsTrimCut(s, TrimStart(TrimEnd(s)), |TrimEnd(s)| - |TrimStart(TrimEnd(s))|, |TrimEnd(s)|)
  {
    var e := TrimEnd(s);
    var r := TrimStart(e);
    var i, j := |e| - |r|, |e|;
    assert e == s[..j];
    assert r == e[i..] == s[i..j];
    forall k | 0 <= k < i ensures IsTrimmable(s[k]) {
      assert s[k] == e[k];
    }
  }

  lemma TrimFacts(s: string)
    ensures var r := TrimStart(TrimEnd(s));
      && |r| <= |s|
      && (r == [] <==> IsBlank(s))
      && (r != [] ==> !IsTrimmable(r[0]) && !IsTrimmable(r[|r| - 1]))
      && (s == [] || (!IsTrimmable(s[0]) && !IsTrimmable(s[|s| - 1])) ==> r == s)
  {
    TrimEndsAtNonTrimmable(s);
    TrimKeepsTrimmed(s);
  }

  lemma TrimEndsAtNonTrimmable(s: string)
    ensures TrimStart(TrimEnd(s)) == [] <==> IsBlank(s)
    ensures var r := TrimStart(TrimEnd(s)); r != [] ==> !IsTrimmable(r[|r| - 1])
  {
    var e := TrimEnd(s);
    var r := TrimStart(e);
    if r != [] {
      assert r[|r| - 1] == e[|e| - 1];
    } else {
      forall i | 0 <= i < |s| ensures IsTrimmable(s[i]) {
        if i < |e| {
          assert e[i] == s[i];
        }
      }
    }
  }

  /** Text with no trimmable char at either end is its own trim. */
  lemma TrimKeepsTrimmed(s: string)
    ensures s == [] || (!IsTrimmable(s[0]) && !IsTrimmable(s[|s| - 1])) ==> TrimStart(TrimEnd(s)) == s
  {
    if s != [] && !IsTrimmable(s[0]) && !IsTrimmable(s[|s| - 1]) {
      assert TrimEnd(s) == s;
    }
  }

  /** Trimming twice changes nothing further. */
  lemma TrimIdempotent(s: string)
    ensures Trim(Trim(s)) == Trim(s)
  {
  }

  /** ASCII upper-casing; every other char is left as it is. */
  function ToUpper(c: char): (r: char)
    ensures 'a' <= c <= 'z' ==> r as int == c as int - 32
    ensures !('a' <= c <= 'z') ==> r == c
  {
    if 'a' <= c <= 'z' then (c as int - 32) as char else c
  }

  /** `String.equalsIgnoreCase` with ASCII case folding. */
  predicate EqualsIgnoreCase(a: string, b: string) {
    |a| == |b| && forall i :: 0 <= i < |a| ==> ToUpper(a[i]) == ToUpper(b[i])
  }

  /** `sep` occurs in `s` starting at index `i`. */
  predicate OccursAt(s: string, sep: string, i: int) {
    0 <= i && i + |sep| <= |s| && s[i..i + |sep|] == sep
  }

  predicate Contains(s: string, sep: string) {
    exists i :: 0 <= i <= |s| && OccursAt(s, sep, i)
  }

  /** No proper prefix of `sep` is also a suffix of it, so two occurrences never
      overlap and an occurrence never straddles a field and its separator. */
  predicate Unbordered(sep: string) {
    forall k :: 0 < k < |sep| ==> sep[..k] != sep[|sep| - k..]
  }

  /** The first occurrence of `sep` in `s` at or after `from`. */
  function IndexOf(s: string, sep: string, from: nat): (r: Option<nat>)
    requires |sep| > 0
    decreases |s| - from
    ensures r.Some? ==> from <= r.value && OccursAt(s, sep, r.value)
    ensures r.Some? ==> forall j :: from <= j < r.value ==> !OccursAt(s, sep, j)
    ensures r.None? ==> forall j :: from <= j ==> !OccursAt(s, sep, j)
  {
    if from + |sep| > |s| then None
    else if OccursAt(s, sep, from) then Some(from)
    else IndexOf(s, sep, from + 1)
  }

  /** `String.join(sep, parts)`. */
  function Join(parts: seq<string>, sep: string): string
  {
    if |parts| == 0 then ""
    else if |parts| == 1 then parts[0]
    else parts[0] + sep + Join(parts[1..], sep)
  }

  /** Every piece between occurrences of `sep`, empty pieces included; joining
      the pieces back gives `s`. */
  function Split(s: string, sep: string): (parts: seq<string>)
    requires |sep| > 0
    decreases |s|
    ensures |parts| >= 1
    ensures forall i :: 0 <= i < |parts| ==> !Contains(parts[i], sep)
    ensures Join(parts, sep) == s
  {
    match IndexOf(s, sep, 0)
    case None => [s]
    case Some(i) =>
      var head := s[..i];
      var rest := Split(s[i + |sep|..], sep);
      HeadHasNoSeparator(s, sep, i);
      assert s == head + sep + s[i + |sep|..];
      [head] + rest
  }

  /** The text before the first occurrence holds no occurrence. */
  lemma HeadHasNoSeparator(s: string, sep: string, i: nat)
    requires |sep| > 0 && IndexOf(s, sep, 0) == Some(i)
    ensures !Contains(s[..i], sep)
  {
    var head := s[..i];
    forall j | 0 <= j <= |head| ensures !OccursAt(head, sep, j) {
      if OccursAt(head, sep, j) {
        assert head[j..j + |sep|] == s[j..j + |sep|];
        assert OccursAt(s, sep, j) && j < i;
        assert false;
      }
    }
  }

  /** An occurrence in `a + sep + b` cannot begin inside `a` when `a` does not
      contain `sep` and `sep` is unbordered. */
  lemma {:induction false} FirstOccurrenceAfterField(a: string, sep: string, b: string)
    requires |sep| > 0 && Unbordered(sep) && !Contains(a, sep)
    ensures IndexOf(a + sep + b, sep, 0) == Some(|a|)
  {
    var s := a + sep + b;
    assert OccursAt(s, sep, |a|) by {
      assert s[|a|..|a| + |sep|] == sep;
    }
    forall j: int | 0 <= j < |a| ensures !OccursAt(s, sep, j) {
      OccurrenceInsideField(a, sep, b, j);
      OccurrenceAcrossSeparator(a, sep, b, j);
    }
    IndexOfFinds(s, sep, 0, |a|);
  }

  /** An occurrence lying wholly inside the leading field is one of the field. */
  lemma OccurrenceInsideField(a: string, sep: string, b: string, j: int)
    ensures OccursAt(a + sep + b, sep, j) && j + |sep| <= |a| ==> OccursAt(a, sep, j)
  {
    if OccursAt(a + sep + b, sep, j) && j + |sep| <= |a| {
      assert a[j..j + |sep|] == (a + sep + b)[j..j + |sep|];
    }
  }

  /** An occurrence that starts in the leading field and ends in the separator
      makes a proper prefix of `sep` equal to a suffix of it. */
  lemma OccurrenceAcrossSeparator(a: string, sep: string, b: string, j: int)
    ensures OccursAt(a + sep + b, sep, j) && j < |a| < j + |sep| ==>
      sep[..|sep| - (|a| - j)] == sep[|a| - j..]
  {
    var s := a + sep + b;
    if OccursAt(s, sep, j) && j < |a| < j + |sep| {
      var d := |a| - j;
      var k := |sep| - d;
      forall t | 0 <= t < k ensures sep[t] == sep[d + t] {
        assert s[|a| + t] == sep[t];
        assert s[j + d + t] == s[j..j + |sep|][d + t];
      }
    }
  }

  /** `IndexOf` returns an occurrence with no earlier one. */
  lemma {:induction false} IndexOfFinds(s: string, sep: string, from: nat, i: nat)
    requires |sep| > 0 && from <= i && OccursAt(s, sep, i)
    requires forall j :: from <= j < i ==> !OccursAt(s, sep, j)
    ensures IndexOf(s, sep, from) == Some(i)
    decreases i - from
  {
    if from < i {
      IndexOfFinds(s, sep, from + 1, i);
    }
  }

  /** Joining a list in which one part holds the separator gives the same text
      as joining the list with that part cut in two at the separator. */
  lemma {:induction false} JoinSplitsPart(a: seq<string>, x: string, y: string, b: seq<string>, sep: string)
    requires |b| >= 1
    ensures Join(a + [x + sep + y] + b, sep) == Join(a + [x, y] + b, sep)
  {
    var whole, cut := a + [x + sep + y] + b, a + [x, y] + b;
    if a == [] {
      assert whole[1..] == b;
      assert cut[1..] == [y] + b && cut[1..][1..] == b;
    } else {
      assert whole[1..] == a[1..] + [x + sep + y] + b;
      assert cut[1..] == a[1..] + [x, y] + b;
      JoinSplitsPart(a[1..], x, y, b, sep);
    }
  }

  /** `JoinSplitsPart` for a six-part list whose third part holds the separator. */
  lemma JoinCutsSixth(a: string, b: string, x: string, y: string, d: string, e: string, f: string, sep: string)
    ensures Join([a, b, x + sep + y, d, e, f], sep) == Join([a, b, x, y, d, e, f], sep)
  {
    var front, back := [a, b], [d, e, f];
    assert [a, b, x + sep + y, d, e, f] == front + [x + sep + y] + back;
    assert [a, b, x, y, d, e, f] == front + [x, y] + back;
    JoinSplitsPart(front, x, y, back, sep);
  }

  /** Splitting a joined list gives the list back when no part contains an
      unbordered separator. */
  lemma {:induction false} SplitJoin(parts: seq<string>, sep: string)
    requires |parts| >= 1 && |sep| > 0 && Unbordered(sep)
    requires forall i :: 0 <= i < |parts| ==> !Contains(parts[i], sep)
    ensures Split(Join(parts, sep), sep) == parts
  {
    if |parts| == 1 {
      SplitWithoutSeparator(parts[0], sep);
    } else {
      var rest := Join(parts[1..], sep);
      SplitAfterField(parts[0], sep, rest);
      SplitJoin(parts[1..], sep);
      assert parts == [parts[0]] + parts[1..];
    }
  }

  /** Text without the separator splits into itself alone. */
  lemma SplitWithoutSeparator(s: string, sep: string)
    requires |sep| > 0 && !Contains(s, sep)
    ensures Split(s, sep) == [s]
  {
    match IndexOf(s, sep, 0)
    case None =>
    case Some(i) =>
  }

  /** Splitting a field, the separator and more text: the field comes first, then
      the pieces of the rest. */
  lemma SplitAfterField(a: string, sep: string, b: string)
    requires |sep| > 0 && Unbordered(sep) && !Contains(a, sep)
    ensures Split(a + sep + b, sep) == [a] + Split(b, sep)
  {
    FirstOccurrenceAfterField(a, sep, b);
    var s := a + sep + b;
    assert s[..|a|] == a;
    assert s[|a| + |sep|..] == b;
  }

  /** `xs` without its trailing empty strings. */
  function DropTrailingEmpty(xs: seq<string>): (r: seq<string>)
    ensures |r| <= |xs| && r == xs[..|r|]
    ensures r == [] || r[|r| - 1] != ""
    ensures forall i :: |r| <= i < |xs| ==> xs[i] == ""
  {
    if |xs| > 0 && xs[|xs| - 1] == "" then DropTrailingEmpty(xs[..|xs| - 1]) else xs
  }

  /** `String.split` with a literal separator and limit 0: when `sep` occurs,
      trailing empty pieces are discarded; when it does not, the result is `[s]`. */
  function SplitDiscardingTrailingEmpty(s: string, sep: string): (r: seq<string>)
    requires |sep| > 0
  {
    var parts := Split(s, sep);
    if |parts| == 1 then parts else DropTrailingEmpty(parts)
  }

  /** When the last part is not empty and no part contains `sep`, Java's split
      of the joined text gives the parts back. */
  lemma JavaSplitJoin(parts: seq<string>, sep: string)
    requires |parts| >= 1 && |sep| > 0 && Unbordered(sep)
    requires forall i :: 0 <= i < |parts| ==> !Contains(parts[i], sep)
    requires parts[|parts| - 1] != ""
    ensures SplitDiscardingTrailingEmpty(Join(parts, sep), sep) == parts
  {
    SplitJoin(parts, sep);
  }
}
