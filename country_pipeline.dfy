/** The derived view of the country list: the fetched records are filtered by the
    search term, sorted by official name in the chosen direction, and cut into pages of
    25 rows. Everything here is a pure function of (records, searchTerm, sortBy, currentPage). */
module CountryPipeline {
  import opened JsString
  import opened CountryRecord

  datatype SortBy = Asc | Desc

  /** The sort button: switches between the two directions. */
  function ToggleSortBy(d: SortBy): (r: SortBy)
    ensures r != d
  {
    if d == Asc then Desc else Asc
  }

  /** Toggling twice restores the direction. */
  lemma ToggleTwice(d: SortBy)
    ensures ToggleSortBy(ToggleSortBy(d)) == d
  {
  }

  const RowsPerPage: int := 25

  /** The lowered official name: both the search and the sort work on it. */
  function Key(c: Country): string {
    Lower(c.name.official)
  }

  // ---------------------------------------------------------------------------
  // Filter
  // ---------------------------------------------------------------------------

  /** The search predicate: the lowered official name includes the lowered term. */
  predicate Matches(c: Country, term: string) {
    Includes(Key(c), Lower(term))
  }

  /** `countries.filter(...)` with the search predicate. */
  function FilterCountries(cs: seq<Country>, term: string): (r: seq<Country>)
    ensures |r| <= |cs|
    ensures forall c :: c in r ==> c in cs && Matches(c, term)
    ensures forall c :: c in cs && Matches(c, term) ==> c in r
  {
    if cs == [] then []
    else (if Matches(cs[0], term) then [cs[0]] else []) + FilterCountries(cs[1..], term)
  }

  /** `a` is `b` with some elements left out, the rest in their original order. */
  predicate IsSubsequence<T(==)>(a: seq<T>, b: seq<T>)
    decreases |b|
  {
    if a == [] then true
    else if b == [] then false
    else (a[0] == b[0] && IsSubsequence(a[1..], b[1..])) || IsSubsequence(a, b[1..])
  }

  /** Filtering keeps the relative order of the records it keeps. */
  lemma {:induction false} FilterIsSubsequence(cs: seq<Country>, term: string)
    ensures IsSubsequence(FilterCountries(cs, term), cs)
  {
    if cs != [] {
      FilterIsSubsequence(cs[1..], term);
      var r := FilterCountries(cs, term);
      if Matches(cs[0], term) {
        assert r[0] == cs[0] && r[1..] == FilterCountries(cs[1..], term);
      } else {
        assert r == FilterCountries(cs[1..], term);
        if r != [] {
          assert IsSubsequence(r, cs[1..]);
        }
      }
    }
  }

  /** Filtering a concatenation filters each part and keeps them in order. */
  lemma {:induction false} FilterAppend(a: seq<Country>, b: seq<Country>, term: string)
    ensures FilterCountries(a + b, term) == FilterCountries(a, term) + FilterCountries(b, term)
  {
    if a == [] {
      assert a + b == b;
    } else {
      assert (a + b)[1..] == a[1..] + b;
      assert (a + b)[0] == a[0];
      FilterAppend(a[1..], b, term);
      var head := if Matches(a[0], term) then [a[0]] else [];
      assert FilterCountries(a + b, term) == head + (FilterCountries(a[1..], term) + FilterCountries(b, term));
    }
  }

  /** Every matching record keeps all its copies, and every other record has none. */
  lemma {:induction false} FilterMultiplicity(cs: seq<Country>, term: string, c: Country)
    ensures multiset(FilterCountries(cs, term))[c] == if Matches(c, term) then multiset(cs)[c] else 0
  {
    if cs != [] {
      FilterMultiplicity(cs[1..], term, c);
      var head := if Matches(cs[0], term) then [cs[0]] else [];
      assert FilterCountries(cs, term) == head + FilterCountries(cs[1..], term);
      assert multiset(FilterCountries(cs, term)) == multiset(head) + multiset(FilterCountries(cs[1..], term));
      assert cs == [cs[0]] + cs[1..];
      assert multiset(cs) == multiset{cs[0]} + multiset(cs[1..]);
    }
  }

  /** An empty search term keeps every record, in its order. */
  lemma {:induction false} FilterEmptyTermKeepsAll(cs: seq<Country>)
    ensures FilterCountries(cs, "") == cs
  {
    if cs != [] {
      IncludesEmpty(Key(cs[0]));
      assert Lower("") == "";
      FilterEmptyTermKeepsAll(cs[1..]);
      assert cs == [cs[0]] + cs[1..];
    }
  }

  /** The search ignores case: any piece of a record's official name, typed with the
      name's own capitalisation, finds that record. */
  lemma MatchesOwnName(c: Country, i: int, j: int)
    requires 0 <= i <= j <= |c.name.official|
    ensures Matches(c, c.name.official[i..j])
  {
    var n := c.name.official;
    var t := n[i..j];
    var lt, ln := Lower(t), Lower(n);
    assert lt == ln[i..j] by {
      forall k | 0 <= k < |lt| ensures lt[k] == ln[i..j][k] {
        assert t[k] == n[i + k];
      }
    }
    IncludesSubstring(Key(c), i, j);
  }

  // ---------------------------------------------------------------------------
  // Sort
  // ---------------------------------------------------------------------------

  /** The comparator of the sort, as an order: `a` may come before `b`. Ascending compares
      nameA with nameB, descending nameB with nameA. */
  predicate InOrder(dir: SortBy, a: Country, b: Country) {
    match dir
    case Asc => LexLeq(Key(a), Key(b))
    case Desc => LexLeq(Key(b), Key(a))
  }

  lemma InOrderTotal(dir: SortBy, a: Country, b: Country)
    ensures InOrder(dir, a, b) || InOrder(dir, b, a)
  {
    LexLeqTotal(Key(a), Key(b));
  }

  lemma InOrderTransitive(dir: SortBy, a: Country, b: Country, c: Country)
    requires InOrder(dir, a, b) && InOrder(dir, b, c)
    ensures InOrder(dir, a, c)
  {
    if dir == Asc {
      LexLeqTransitive(Key(a), Key(b), Key(c));
    } else {
      LexLeqTransitive(Key(c), Key(b), Key(a));
    }
  }

  ghost predicate Sorted(s: seq<Country>, dir: SortBy) {
    forall i, j :: 0 <= i < j < |s| ==> InOrder(dir, s[i], s[j])
  }

  /** Places `x` before the first element it may precede. */
  function Insert(x: Country, s: seq<Country>, dir: SortBy): (r: seq<Country>)
    ensures |r| == |s| + 1
    ensures multiset(r) == multiset(s) + multiset{x}
  {
    if s == [] || InOrder(dir, x, s[0]) then [x] + s
    else
      assert s == [s[0]] + s[1..];
      [s[0]] + Insert(x, s[1..], dir)
  }

  /** `.sort(comparator)`: a stable sort, as `Array.prototype.sort` is. It inserts one record
      at a time, each before the first later record it may precede, so records with equal
      lowered names keep their fetch order. */
  function SortCountries(cs: seq<Country>, dir: SortBy): (r: seq<Country>)
    ensures |r| == |cs|
    ensures multiset(r) == multiset(cs)
  {
    if cs == [] then []
    else
      assert cs == [cs[0]] + cs[1..];
      Insert(cs[0], SortCountries(cs[1..], dir), dir)
  }

  /** A list is sorted when its head may precede every later element and its tail is sorted. */
  lemma SortedCons(h: Country, t: seq<Country>, dir: SortBy)
    requires Sorted(t, dir)
    requires forall k :: 0 <= k < |t| ==> InOrder(dir, h, t[k])
    ensures Sorted([h] + t, dir)
  {
    var r := [h] + t;
    forall i, j | 0 <= i < j < |r| ensures InOrder(dir, r[i], r[j]) {
      if i == 0 {
        assert r[j] == t[j - 1];
      } else {
        assert r[i] == t[i - 1] && r[j] == t[j - 1];
      }
    }
  }

  /** Inserting keeps a common lower bound of the list and the new element. */
  lemma InsertLowerBound(b: Country, x: Country, s: seq<Country>, dir: SortBy)
    requires InOrder(dir, b, x)
    requires forall k :: 0 <= k < |s| ==> InOrder(dir, b, s[k])
    ensures forall k :: 0 <= k < |Insert(x, s, dir)| ==> InOrder(dir, b, Insert(x, s, dir)[k])
  {
    var t := Insert(x, s, dir);
    forall k | 0 <= k < |t| ensures InOrder(dir, b, t[k]) {
      assert t[k] in multiset(t);
      if t[k] != x {
        assert t[k] in multiset(s);
        var m :| 0 <= m < |s| && s[m] == t[k];
      }
    }
  }

  lemma {:induction false} InsertSorted(x: Country, s: seq<Country>, dir: SortBy)
    requires Sorted(s, dir)
    ensures Sorted(Insert(x, s, dir), dir)
  {
    if s == [] {
    } else if InOrder(dir, x, s[0]) {
      forall k | 0 <= k < |s| ensures InOrder(dir, x, s[k]) {
        if k > 0 {
          InOrderTransitive(dir, x, s[0], s[k]);
        }
      }
      SortedCons(x, s, dir);
    } else {
      InOrderTotal(dir, x, s[0]);
      assert Sorted(s[1..], dir);
      InsertSorted(x, s[1..], dir);
      InsertLowerBound(s[0], x, s[1..], dir);
      SortedCons(s[0], Insert(x, s[1..], dir), dir);
    }
  }

  /** The sorted list is ordered by the comparator: non-decreasing lowered names for
      ascending, non-increasing for descending. */
  lemma {:induction false} SortCountriesSorted(cs: seq<Country>, dir: SortBy)
    ensures Sorted(SortCountries(cs, dir), dir)
  {
    if cs != [] {
      SortCountriesSorted(cs[1..], dir);
      InsertSorted(cs[0], SortCountries(cs[1..], dir), dir);
    }
  }

  /** The lowered names of a list, in order. */
  function Keys(s: seq<Country>): (r: seq<string>)
    ensures |r| == |s|
    ensures forall i :: 0 <= i < |s| ==> r[i] == Key(s[i])
  {
    if s == [] then [] else [Key(s[0])] + Keys(s[1..])
  }

  function Reverse<T>(s: seq<T>): (r: seq<T>)
    ensures |r| == |s|
    ensures forall i :: 0 <= i < |s| ==> r[i] == s[|s| - 1 - i]
  {
    if s == [] then [] else Reverse(s[1..]) + [s[0]]
  }

  lemma {:induction false} ReverseMultiset<T>(s: seq<T>)
    ensures multiset(Reverse(s)) == multiset(s)
  {
    if s != [] {
      ReverseMultiset(s[1..]);
      assert s == [s[0]] + s[1..];
    }
  }

  lemma {:induction false} InsertKeys(x: Country, s: seq<Country>, dir: SortBy)
    ensures multiset(Keys(Insert(x, s, dir))) == multiset(Keys(s)) + multiset{Key(x)}
  {
    if s != [] && !InOrder(dir, x, s[0]) {
      InsertKeys(x, s[1..], dir);
      assert Keys(s) == [Key(s[0])] + Keys(s[1..]);
    }
  }

  lemma {:induction false} SortKeys(cs: seq<Country>, dir: SortBy)
    ensures multiset(Keys(SortCountries(cs, dir))) == multiset(Keys(cs))
  {
    if cs != [] {
      SortKeys(cs[1..], dir);
      InsertKeys(cs[0], SortCountries(cs[1..], dir), dir);
    }
  }

  ghost predicate Ascending(ks: seq<string>) {
    forall i, j :: 0 <= i < j < |ks| ==> LexLeq(ks[i], ks[j])
  }

  /** Two ascending lists of the same names start with the same (least) name. */
  lemma AscendingSameHead(a: seq<string>, b: seq<string>)
    requires Ascending(a) && Ascending(b) && multiset(a) == multiset(b)
    requires a != [] && b != []
    ensures a[0] == b[0]
  {
    assert a[0] in multiset(b) && b[0] in multiset(a);
    var i :| 0 <= i < |b| && b[i] == a[0];
    var j :| 0 <= j < |a| && a[j] == b[0];
    if i == 0 { LexLeqReflexive(a[0]); }
    if j == 0 { LexLeqReflexive(b[0]); }
    LexLeqAntisymmetric(a[0], b[0]);
  }

  lemma SameTails<T>(a: seq<T>, b: seq<T>)
    requires a != [] && b != [] && a[0] == b[0] && multiset(a) == multiset(b)
    ensures multiset(a[1..]) == multiset(b[1..])
  {
    assert a == [a[0]] + a[1..] && b == [b[0]] + b[1..];
    assert multiset(a[1..]) == multiset(a) - multiset{a[0]};
    assert multiset(b[1..]) == multiset(b) - multiset{b[0]};
  }

  /** Two ascending name lists with the same names are the same list. */
  lemma {:induction false} AscendingUnique(a: seq<string>, b: seq<string>)
    requires Ascending(a) && Ascending(b) && multiset(a) == multiset(b)
    ensures a == b
  {
    assert |a| == |multiset(a)| == |multiset(b)| == |b|;
    if a != [] {
      AscendingSameHead(a, b);
      SameTails(a, b);
      assert Ascending(a[1..]) && Ascending(b[1..]);
      AscendingUnique(a[1..], b[1..]);
      assert a == [a[0]] + a[1..] && b == [b[0]] + b[1..];
    }
  }

  lemma AscendingKeys(s: seq<Country>)
    requires Sorted(s, Asc)
    ensures Ascending(Keys(s))
  {
    var ks := Keys(s);
    forall i, j | 0 <= i < j < |ks| ensures LexLeq(ks[i], ks[j]) {
      assert InOrder(Asc, s[i], s[j]);
    }
  }

  lemma DescendingKeysReversed(s: seq<Country>)
    requires Sorted(s, Desc)
    ensures Ascending(Reverse(Keys(s)))
  {
    var ks := Keys(s);
    var rk := Reverse(ks);
    forall i, j | 0 <= i < j < |rk| ensures LexLeq(rk[i], rk[j]) {
      assert InOrder(Desc, s[|ks| - 1 - j], s[|ks| - 1 - i]);
    }
  }

  lemma ReverseTwice<T>(s: seq<T>)
    ensures Reverse(Reverse(s)) == s
  {
  }

  /** The two directions mirror each other: the names in descending order are the names
      in ascending order, reversed. So toggling twice shows the ascending order again. */
  lemma SortDirectionsMirror(cs: seq<Country>)
    ensures Keys(SortCountries(cs, Desc)) == Reverse(Keys(SortCountries(cs, Asc)))
  {
    var up, down := SortCountries(cs, Asc), SortCountries(cs, Desc);
    SortCountriesSorted(cs, Asc);
    SortCountriesSorted(cs, Desc);
    AscendingKeys(up);
    DescendingKeysReversed(down);
    SortKeys(cs, Asc);
    SortKeys(cs, Desc);
    ReverseMultiset(Keys(down));
    AscendingUnique(Reverse(Keys(down)), Keys(up));
    ReverseTwice(Keys(down));
  }

  // ---------------------------------------------------------------------------
  // Page slice
  // ---------------------------------------------------------------------------

  /** An index argument of `Array.prototype.slice`, resolved against the length:
      a negative index counts from the end; the result is clamped to [0, len]. */
  function ResolveIndex(i: int, len: nat): (r: nat)
    ensures r <= len
  {
    if i < 0 then (if len + i < 0 then 0 else len + i)
    else if i > len then len else i
  }

  /** `s.slice(start, end)`. */
  function JsSlice<T>(s: seq<T>, start: int, end: int): seq<T> {
    var from, to := ResolveIndex(start, |s|), ResolveIndex(end, |s|);
    if from < to then s[from..to] else []
  }

  /** `indexOfLastCountry`. */
  function IndexOfLast(page: int): int {
    page * RowsPerPage
  }

  /** `indexOfFirstCountry`. */
  function IndexOfFirst(page: int): int {
    IndexOfLast(page) - RowsPerPage
  }

  /** `currentCountries`. */
  function PageSlice<T>(s: seq<T>, page: int): seq<T> {
    JsSlice(s, IndexOfFirst(page), IndexOfLast(page))
  }

  function Min(a: int, b: int): int { if a <= b then a else b }
  function Max(a: int, b: int): int { if a >= b then a else b }

  /** For a page number of at least 1, the page is the window of at most 25 rows starting
      at `(page - 1) * 25`, clipped to the list; a page past the end is empty. */
  lemma PageSliceWindow<T>(s: seq<T>, page: int)
    requires page >= 1
    ensures var lo := Min((page - 1) * RowsPerPage, |s|);
            var hi := Min(page * RowsPerPage, |s|);
            PageSlice(s, page) == s[lo..hi]
    ensures |PageSlice(s, page)| == Min(RowsPerPage, Max(0, |s| - (page - 1) * RowsPerPage))
  {
  }

  /** A page whose first row lies past the end shows no rows (and no error). */
  lemma PagePastEndIsEmpty<T>(s: seq<T>, page: int)
    requires page >= 1 && (page - 1) * RowsPerPage >= |s|
    ensures PageSlice(s, page) == []
  {
  }

  /** Row `k` of the list appears on page `k / 25 + 1`, at position `k % 25`: the pages
      cover the list, in order, with nothing skipped. */
  lemma PageOfRow<T>(s: seq<T>, k: int)
    requires 0 <= k < |s|
    ensures var p := k / RowsPerPage + 1;
            k % RowsPerPage < |PageSlice(s, p)| && PageSlice(s, p)[k % RowsPerPage] == s[k]
  {
    var p := k / RowsPerPage + 1;
    assert (p - 1) * RowsPerPage + k % RowsPerPage == k;
    PageSliceWindow(s, p);
  }

  /** The number of non-empty pages, `ceil(L / 25)`. */
  function PageCount(len: nat): nat {
    (len + RowsPerPage - 1) / RowsPerPage
  }

  /** The last page holds `L mod 25` rows, or a full 25 when 25 divides `L`. */
  lemma LastPageLength<T>(s: seq<T>)
    requires |s| > 0
    ensures PageCount(|s|) >= 1
    ensures |PageSlice(s, PageCount(|s|))| == if |s| % RowsPerPage == 0 then RowsPerPage else |s| % RowsPerPage
  {
    var n := PageCount(|s|);
    PageSliceWindow(s, n);
    assert (n - 1) * RowsPerPage < |s| <= n * RowsPerPage;
  }

  // ---------------------------------------------------------------------------
  // Buttons
  // ---------------------------------------------------------------------------

  /** `disabled` of Previous. */
  predicate PreviousDisabled(page: int) {
    page == 1
  }

  /** `disabled` of Next, against the length of the filtered list. */
  predicate NextDisabled(page: int, filteredLength: nat) {
    IndexOfLast(page) >= filteredLength
  }

  /** Next is enabled exactly while some row lies past the current page, that is, while the
      current page is before the last non-empty page; Next therefore never moves onto a page
      that starts past the end. */
  lemma NextDisabledIff(page: int, filteredLength: nat)
    requires page >= 1
    ensures NextDisabled(page, filteredLength) <==> page >= PageCount(filteredLength)
    ensures !NextDisabled(page, filteredLength) ==> page * RowsPerPage < filteredLength
  {
    var n := PageCount(filteredLength);
    assert (n - 1) * RowsPerPage < filteredLength <= n * RowsPerPage || filteredLength == 0;
    if page >= n {
      assert page * RowsPerPage >= n * RowsPerPage;
    } else {
      assert page * RowsPerPage <= (n - 1) * RowsPerPage;
    }
  }

  // ---------------------------------------------------------------------------
  // The whole view
  // ---------------------------------------------------------------------------

  /** `filteredCountries`: filter, then sort. */
  function FilteredCountries(records: seq<Country>, term: string, dir: SortBy): (r: seq<Country>)
    ensures multiset(r) == multiset(FilterCountries(records, term))
    ensures |r| == |FilterCountries(records, term)|
  {
    var f := FilterCountries(records, term);
    var sorted := SortCountries(f, dir);
    assert |sorted| == |multiset(sorted)| == |multiset(f)| == |f|;
    sorted
  }

  /** The rows shown: the current page of the filtered, sorted list. */
  function CurrentCountries(records: seq<Country>, term: string, dir: SortBy, page: int): seq<Country> {
    PageSlice(FilteredCountries(records, term, dir), page)
  }

  /** Every shown row is a fetched record that matches the term. */
  lemma CurrentCountriesMatch(records: seq<Country>, term: string, dir: SortBy, page: int)
    ensures forall c :: c in CurrentCountries(records, term, dir, page) ==> c in records && Matches(c, term)
  {
    var f := FilterCountries(records, term);
    var sorted := FilteredCountries(records, term, dir);
    var rows := CurrentCountries(records, term, dir, page);
    forall c | c in rows ensures c in records && Matches(c, term) {
      assert c in sorted;
      assert c in multiset(sorted);
      assert c in multiset(f);
    }
  }

  /** The number of shown rows is `min(25, max(0, L - (page - 1) * 25))` for the filtered length `L`. */
  lemma CurrentCountriesLength(records: seq<Country>, term: string, dir: SortBy, page: int)
    requires page >= 1
    ensures |CurrentCountries(records, term, dir, page)| ==
              Min(RowsPerPage, Max(0, |FilterCountries(records, term)| - (page - 1) * RowsPerPage))
  {
    PageSliceWindow(FilteredCountries(records, term, dir), page);
  }

  /** The shown rows respect the sort direction. */
  lemma CurrentCountriesOrdered(records: seq<Country>, term: string, dir: SortBy, page: int)
    requires page >= 1
    ensures Sorted(CurrentCountries(records, term, dir, page), dir)
  {
    var sorted := FilteredCountries(records, term, dir);
    SortCountriesSorted(FilterCountries(records, term), dir);
    PageSliceWindow(sorted, page);
    var rows := CurrentCountries(records, term, dir, page);
    var lo := Min((page - 1) * RowsPerPage, |sorted|);
    forall i, j | 0 <= i < j < |rows| ensures InOrder(dir, rows[i], rows[j]) {
      assert rows[i] == sorted[lo + i] && rows[j] == sorted[lo + j];
    }
  }

}
