/**
 * The derived view of the paginated table: search filter, optional column sort and
 * page slicing (frontend/src/components/PaginatedTableWrapper.tsx, `filteredUrls`,
 * `sortedUrls`, `totalPages`, `paginatedUrls`). Everything here is a pure function
 * of the record list and the view state.
 */
module ViewPipeline {
  import opened Wrappers
  import opened Text
  import opened Types

  // ================================================================ filter

  /** The search predicate: the lower-cased url or title contains the lower-cased term;
      a missing field never matches. */
  predicate Matches(r: Row, term: string) {
    var lower := Lower(term);
    (r.url.Some? && Contains(Lower(r.url.value), lower))
    || (r.title.Some? && Contains(Lower(r.title.value), lower))
  }

  /** `urls.filter(...)`: the matching rows, in their original order. */
  function Filter(rows: seq<Row>, term: string): (kept: seq<Row>)
    ensures |kept| <= |rows|
    ensures forall r :: r in kept <==> r in rows && Matches(r, term)
  {
    if rows == [] then []
    else (if Matches(rows[0], term) then [rows[0]] else []) + Filter(rows[1..], term)
  }

  /** Filtering distributes over concatenation, so it keeps the rows' relative order. */
  lemma {:induction false} FilterConcat(a: seq<Row>, b: seq<Row>, term: string)
    ensures Filter(a + b, term) == Filter(a, term) + Filter(b, term)
  {
    if a == [] {
      assert a + b == b;
    } else {
      assert (a + b)[0] == a[0] && (a + b)[1..] == a[1..] + b;
      FilterConcat(a[1..], b, term);
    }
  }

  /** A single row is kept exactly when it matches. */
  lemma FilterSingleton(r: Row, term: string)
    ensures Filter([r], term) == if Matches(r, term) then [r] else []
  {
    assert [r][1..] == [];
  }

  /** The search is case-insensitive in the term. */
  lemma {:induction false} FilterIgnoresTermCase(rows: seq<Row>, term: string)
    ensures Filter(rows, term) == Filter(rows, Lower(term))
  {
    LowerIdempotent(term);
    if rows != [] {
      assert Matches(rows[0], term) == Matches(rows[0], Lower(term));
      FilterIgnoresTermCase(rows[1..], term);
    }
  }

  /** The empty term keeps exactly the rows that have a url or a title. */
  lemma EmptyTermMatches(r: Row)
    ensures Matches(r, "") <==> r.url.Some? || r.title.Some?
  {
    assert Lower("") == "";
    if r.url.Some? {
      EverythingContainsEmpty(Lower(r.url.value));
    }
    if r.title.Some? {
      EverythingContainsEmpty(Lower(r.title.value));
    }
  }

  /** With the empty term, a list whose rows all carry a url passes unchanged. */
  lemma {:induction false} EmptyTermKeepsAll(rows: seq<Row>)
    requires forall i :: 0 <= i < |rows| ==> rows[i].url.Some?
    ensures Filter(rows, "") == rows
  {
    if rows != [] {
      EmptyTermMatches(rows[0]);
      EmptyTermKeepsAll(rows[1..]);
    }
  }

  // ================================================================ sort

  /** The columns whose headers call `onSort` (frontend/src/components/ResultsTable.tsx). */
  datatype SortKey =
    | UrlKey | TitleKey | HtmlVersionKey | InternalLinksKey | ExternalLinksKey
    | AccessibleLinksKey | HasLoginFormKey | StatusKey

  datatype Direction = Asc | Desc

  /** A field value as the comparator sees it: a number, or the text `String(value)` gives. */
  datatype Value = Number(n: int) | Str(s: string)

  function TextOrUndefined(o: Option<string>): string {
    if o.Some? then o.value else "undefined"
  }

  /** `a[sortKey]`; only the features the comparator observes are kept. */
  function FieldValue(r: Row, key: SortKey): Value {
    match key
    case UrlKey => Str(TextOrUndefined(r.url))
    case TitleKey => Str(TextOrUndefined(r.title))
    case HtmlVersionKey => Str(TextOrUndefined(r.htmlVersion))
    case InternalLinksKey => Number(r.internalLinks)
    case ExternalLinksKey => Number(r.externalLinks)
    case AccessibleLinksKey =>
      if r.accessibleLinks.Some? then Number(r.accessibleLinks.value) else Str("undefined")
    case HasLoginFormKey => Str(if r.hasLoginForm then "true" else "false")
    case StatusKey => Str(r.status)
  }

  /** `String(v)`. */
  function AsText(v: Value): string {
    match v
    case Number(n) => IntToString(n)
    case Str(s) => s
  }

  /** The ascending comparator: numeric when both values are numbers, textual otherwise. */
  function CompareValues(a: Value, b: Value): int {
    if a.Number? && b.Number? then a.n - b.n else LexCompare(AsText(a), AsText(b))
  }

  /** The comparator passed to `sort`; `Desc` swaps the operands. */
  function Compare(key: SortKey, dir: Direction, a: Row, b: Row): int {
    if dir == Asc then CompareValues(FieldValue(a, key), FieldValue(b, key))
    else CompareValues(FieldValue(b, key), FieldValue(a, key))
  }

  /** Values of a numeric column that may be missing: a number or the text "undefined". */
  predicate NumberOrUndefined(v: Value) {
    v.Number? || v == Str("undefined")
  }

  /** For every key, the values of all rows are either all text, or all numbers-or-undefined. */
  lemma FieldKinds(key: SortKey, r: Row)
    ensures if key in {InternalLinksKey, ExternalLinksKey, AccessibleLinksKey}
            then NumberOrUndefined(FieldValue(r, key))
            else FieldValue(r, key).Str?
  {
  }

  lemma CompareValuesAntisymmetric(a: Value, b: Value)
    ensures CompareValues(a, b) == -CompareValues(b, a)
  {
    if !(a.Number? && b.Number?) {
      LexCompareAntisymmetric(AsText(a), AsText(b));
    }
  }

  lemma CompareValuesTransitive(a: Value, b: Value, c: Value)
    requires (a.Str? && b.Str? && c.Str?)
             || (NumberOrUndefined(a) && NumberOrUndefined(b) && NumberOrUndefined(c))
    requires CompareValues(a, b) <= 0 && CompareValues(b, c) <= 0
    ensures CompareValues(a, c) <= 0
  {
    if a.Str? && b.Str? && c.Str? {
      LexCompareTransitive(a.s, b.s, c.s);
    } else {
      // a number sorts before "undefined"; two "undefined" values are tied
      forall v: Value | v.Number?
        ensures CompareValues(v, Str("undefined")) == -1
        ensures CompareValues(Str("undefined"), v) == 1
      {
        NumberTextBeforeUndefined(v.n);
        LexCompareAntisymmetric(AsText(v), "undefined");
      }
      assert CompareValues(Str("undefined"), Str("undefined")) == 0 by {
        LexCompareZeroIffEqual("undefined", "undefined");
      }
    }
  }

  /** The comparator is antisymmetric for every key and direction. */
  lemma CompareAntisymmetric(key: SortKey, dir: Direction, a: Row, b: Row)
    ensures Compare(key, dir, a, b) == -Compare(key, dir, b, a)
  {
    CompareValuesAntisymmetric(FieldValue(a, key), FieldValue(b, key));
  }

  /** The comparator is transitive for every key and direction, so `sort` is well defined. */
  lemma CompareTransitive(key: SortKey, dir: Direction, a: Row, b: Row, c: Row)
    requires Compare(key, dir, a, b) <= 0 && Compare(key, dir, b, c) <= 0
    ensures Compare(key, dir, a, c) <= 0
  {
    FieldKinds(key, a);
    FieldKinds(key, b);
    FieldKinds(key, c);
    var va, vb, vc := FieldValue(a, key), FieldValue(b, key), FieldValue(c, key);
    if dir == Asc {
      CompareValuesTransitive(va, vb, vc);
    } else {
      CompareValuesTransitive(vc, vb, va);
    }
  }

  /** `desc` reverses the sign of the ascending comparator, so it reverses every pair
      whose keys differ and keeps ties tied. */
  lemma DescReversesAsc(key: SortKey, a: Row, b: Row)
    ensures Compare(key, Desc, a, b) == -Compare(key, Asc, a, b)
  {
    CompareValuesAntisymmetric(FieldValue(a, key), FieldValue(b, key));
  }

  /** The comparator `sort` receives for a key and a direction. */
  function Order(key: SortKey, dir: Direction): (cmp: (Row, Row) -> int)
    ensures forall a, b :: cmp(a, b) == Compare(key, dir, a, b)
  {
    (a: Row, b: Row) => Compare(key, dir, a, b)
  }

  /** Names a triple at which a proof uses transitivity; it keeps the transitivity
      quantifier below from firing on every pair of comparisons in scope. */
  predicate Chain(a: Row, b: Row, c: Row) {
    true
  }

  /** What `sort` needs of a comparator: antisymmetric and transitive. */
  ghost predicate Consistent(cmp: (Row, Row) -> int) {
    && (forall a, b :: cmp(a, b) == -cmp(b, a))
    && (forall a, b, c {:trigger Chain(a, b, c)} :: cmp(a, b) <= 0 && cmp(b, c) <= 0 ==> cmp(a, c) <= 0)
  }

  /** Every column's comparator, in either direction, is one `sort` can rely on. */
  lemma OrderConsistent(key: SortKey, dir: Direction)
    ensures Consistent(Order(key, dir))
  {
    var cmp := Order(key, dir);
    forall a, b ensures cmp(a, b) == -cmp(b, a) {
      CompareAntisymmetric(key, dir, a, b);
    }
    forall a, b, c | cmp(a, b) <= 0 && cmp(b, c) <= 0 ensures cmp(a, c) <= 0 {
      CompareTransitive(key, dir, a, b, c);
    }
  }

  predicate Sorted(s: seq<Row>, cmp: (Row, Row) -> int) {
    forall i, j :: 0 <= i < j < |s| ==> cmp(s[i], s[j]) <= 0
  }

  /** Inserts `x` after every element that does not compare greater than it. */
  function Insert(x: Row, s: seq<Row>, cmp: (Row, Row) -> int): (r: seq<Row>)
    ensures |r| == |s| + 1
    ensures multiset(r) == multiset(s) + multiset{x}
  {
    if s == [] then [x]
    else if cmp(x, s[0]) < 0 then [x] + s
    else
      assert s == [s[0]] + s[1..];
      [s[0]] + Insert(x, s[1..], cmp)
  }

  /** A stable insertion sort: the permutation `Array.prototype.sort` produces. */
  function Sort(s: seq<Row>, cmp: (Row, Row) -> int): (r: seq<Row>)
    ensures |r| == |s|
    ensures multiset(r) == multiset(s)
  {
    if s == [] then []
    else
      assert s == s[..|s| - 1] + [s[|s| - 1]];
      Insert(s[|s| - 1], Sort(s[..|s| - 1], cmp), cmp)
  }

  /** In a sorted list, a row below the head is below every element. */
  lemma BelowHeadBelowAll(x: Row, s: seq<Row>, cmp: (Row, Row) -> int)
    requires Consistent(cmp) && Sorted(s, cmp) && s != []
    requires cmp(x, s[0]) < 0
    ensures forall j :: 0 <= j < |s| ==> cmp(x, s[j]) < 0
  {
    forall j | 0 < j < |s| ensures cmp(x, s[j]) < 0 {
      assert cmp(s[0], s[j]) <= 0;
      assert Chain(x, s[0], s[j]) && Chain(s[0], s[j], x);
    }
  }

  lemma SortedTail(s: seq<Row>, cmp: (Row, Row) -> int)
    requires Sorted(s, cmp) && s != []
    ensures Sorted(s[1..], cmp)
  {
    forall i, j | 0 <= i < j < |s[1..]| ensures cmp(s[1..][i], s[1..][j]) <= 0 {
      assert s[1..][i] == s[i + 1] && s[1..][j] == s[j + 1];
    }
  }

  /** A row at most every element of a sorted list can go in front of it. */
  lemma SortedCons(y: Row, t: seq<Row>, cmp: (Row, Row) -> int)
    requires Sorted(t, cmp)
    requires forall j :: 0 <= j < |t| ==> cmp(y, t[j]) <= 0
    ensures Sorted([y] + t, cmp)
  {
    var r := [y] + t;
    forall i, j | 0 <= i < j < |r| ensures cmp(r[i], r[j]) <= 0 {
      assert r[j] == t[j - 1];
      if i > 0 {
        assert r[i] == t[i - 1];
      }
    }
  }

  /** Every row `Insert` places after the head of a sorted list is one the head does
      not exceed. */
  lemma HeadBelowInserted(x: Row, s: seq<Row>, cmp: (Row, Row) -> int)
    requires Consistent(cmp) && Sorted(s, cmp) && s != []
    requires cmp(x, s[0]) >= 0
    ensures forall j :: 0 <= j < |Insert(x, s[1..], cmp)| ==> cmp(s[0], Insert(x, s[1..], cmp)[j]) <= 0
  {
    var tail := Insert(x, s[1..], cmp);
    forall j | 0 <= j < |tail| ensures cmp(s[0], tail[j]) <= 0 {
      assert tail[j] in multiset(tail);
      if tail[j] != x {
        assert tail[j] in s[1..];
        var k :| 0 <= k < |s[1..]| && s[1..][k] == tail[j];
        assert s[k + 1] == tail[j];
      }
    }
  }

  lemma {:induction false} InsertSorted(x: Row, s: seq<Row>, cmp: (Row, Row) -> int)
    requires Consistent(cmp) && Sorted(s, cmp)
    ensures Sorted(Insert(x, s, cmp), cmp)
  {
    if s == [] {
    } else if cmp(x, s[0]) < 0 {
      BelowHeadBelowAll(x, s, cmp);
      SortedCons(x, s, cmp);
    } else {
      SortedTail(s, cmp);
      InsertSorted(x, s[1..], cmp);
      HeadBelowInserted(x, s, cmp);
      SortedCons(s[0], Insert(x, s[1..], cmp), cmp);
    }
  }

  /** The sorted list is ordered by the comparator. */
  lemma {:induction false} SortSorted(s: seq<Row>, cmp: (Row, Row) -> int)
    requires Consistent(cmp)
    ensures Sorted(Sort(s, cmp), cmp)
  {
    if s != [] {
      SortSorted(s[..|s| - 1], cmp);
      InsertSorted(s[|s| - 1], Sort(s[..|s| - 1], cmp), cmp);
    }
  }

  /** The rows of `s` that the comparator ties with `e`, in order. */
  function Ties(s: seq<Row>, cmp: (Row, Row) -> int, e: Row): seq<Row> {
    if s == [] then []
    else (if cmp(s[0], e) == 0 then [s[0]] else []) + Ties(s[1..], cmp, e)
  }

  lemma {:induction false} TiesConcat(a: seq<Row>, b: seq<Row>, cmp: (Row, Row) -> int, e: Row)
    ensures Ties(a + b, cmp, e) == Ties(a, cmp, e) + Ties(b, cmp, e)
  {
    if a == [] {
      assert a + b == b;
    } else {
      assert (a + b)[0] == a[0] && (a + b)[1..] == a[1..] + b;
      TiesConcat(a[1..], b, cmp, e);
    }
  }

  lemma TiesCons(y: Row, t: seq<Row>, cmp: (Row, Row) -> int, e: Row)
    ensures Ties([y] + t, cmp, e) == (if cmp(y, e) == 0 then [y] else []) + Ties(t, cmp, e)
  {
    assert ([y] + t)[0] == y && ([y] + t)[1..] == t;
  }

  /** No row of a list that lies strictly above a row tied with `e` ties with `e`. */
  lemma {:induction false} NoTiesAbove(x: Row, s: seq<Row>, cmp: (Row, Row) -> int, e: Row)
    requires Consistent(cmp) && cmp(x, e) == 0
    requires forall j :: 0 <= j < |s| ==> cmp(x, s[j]) < 0
    ensures Ties(s, cmp, e) == []
  {
    if s != [] {
      assert Chain(s[0], e, x);
      NoTiesAbove(x, s[1..], cmp, e);
    }
  }

  lemma InsertTiesBelowHead(x: Row, s: seq<Row>, cmp: (Row, Row) -> int, e: Row)
    requires Consistent(cmp) && Sorted(s, cmp) && s != []
    requires cmp(x, s[0]) < 0
    ensures Ties([x] + s, cmp, e) == Ties(s, cmp, e) + (if cmp(x, e) == 0 then [x] else [])
  {
    TiesCons(x, s, cmp, e);
    if cmp(x, e) == 0 {
      BelowHeadBelowAll(x, s, cmp);
      NoTiesAbove(x, s, cmp, e);
    }
  }

  lemma TiesUnderCommonHead(y: Row, t: seq<Row>, u: seq<Row>, cmp: (Row, Row) -> int, e: Row, extra: seq<Row>)
    requires Ties(t, cmp, e) == Ties(u, cmp, e) + extra
    ensures Ties([y] + t, cmp, e) == Ties([y] + u, cmp, e) + extra
  {
    TiesCons(y, t, cmp, e);
    TiesCons(y, u, cmp, e);
  }

  /** Past a head that `x` does not precede, `Insert` keeps the head in front. */
  lemma InsertAfterHead(x: Row, s: seq<Row>, cmp: (Row, Row) -> int)
    requires s != [] && cmp(x, s[0]) >= 0
    ensures Insert(x, s, cmp) == [s[0]] + Insert(x, s[1..], cmp)
  {
  }

  lemma TiesBehindHead(s: seq<Row>, t: seq<Row>, cmp: (Row, Row) -> int, e: Row, extra: seq<Row>)
    requires s != []
    requires Ties(t, cmp, e) == Ties(s[1..], cmp, e) + extra
    ensures Ties([s[0]] + t, cmp, e) == Ties(s, cmp, e) + extra
  {
    assert [s[0]] + s[1..] == s;
    TiesUnderCommonHead(s[0], t, s[1..], cmp, e, extra);
  }

  lemma {:induction false} InsertTies(x: Row, s: seq<Row>, cmp: (Row, Row) -> int, e: Row)
    requires Consistent(cmp) && Sorted(s, cmp)
    ensures Ties(Insert(x, s, cmp), cmp, e) == Ties(s, cmp, e) + (if cmp(x, e) == 0 then [x] else [])
  {
    if s == [] {
      TiesCons(x, [], cmp, e);
    } else if cmp(x, s[0]) < 0 {
      assert Insert(x, s, cmp) == [x] + s;
      InsertTiesBelowHead(x, s, cmp, e);
    } else {
      SortedTail(s, cmp);
      InsertTies(x, s[1..], cmp, e);
      InsertAfterHead(x, s, cmp);
      TiesBehindHead(s, Insert(x, s[1..], cmp), cmp, e, if cmp(x, e) == 0 then [x] else []);
    }
  }

  /** Stability: for every row `e`, the rows tied with `e` keep their relative order. */
  lemma {:induction false} SortStable(s: seq<Row>, cmp: (Row, Row) -> int, e: Row)
    requires Consistent(cmp)
    ensures Ties(Sort(s, cmp), cmp, e) == Ties(s, cmp, e)
  {
    if s != [] {
      var init, last := s[..|s| - 1], s[|s| - 1];
      var sortedInit := Sort(init, cmp);
      var mark := if cmp(last, e) == 0 then [last] else [];
      SortSorted(init, cmp);
      calc {
        Ties(Sort(s, cmp), cmp, e);
        Ties(Insert(last, sortedInit, cmp), cmp, e);
        { InsertTies(last, sortedInit, cmp, e); }
        Ties(sortedInit, cmp, e) + mark;
        { SortStable(init, cmp, e); }
        Ties(init, cmp, e) + mark;
        { TiesCons(last, [], cmp, e); assert [last] + [] == [last]; }
        Ties(init, cmp, e) + Ties([last], cmp, e);
        { TiesConcat(init, [last], cmp, e); }
        Ties(init + [last], cmp, e);
        { assert init + [last] == s; }
        Ties(s, cmp, e);
      }
    }
  }

  /** `sortedUrls`: the filtered list itself with no sort key; otherwise its sorted
      permutation, in which rows with equal keys keep their filtered order. */
  function SortedRows(filtered: seq<Row>, key: Option<SortKey>, dir: Direction): (r: seq<Row>)
    ensures key.None? ==> r == filtered
    ensures |r| == |filtered| && multiset(r) == multiset(filtered)
    ensures key.Some? ==> Sorted(r, Order(key.value, dir))
    ensures key.Some? ==> forall e :: Ties(r, Order(key.value, dir), e) == Ties(filtered, Order(key.value, dir), e)
  {
    if key.None? then filtered
    else
      var cmp := Order(key.value, dir);
      OrderConsistent(key.value, dir);
      SortSorted(filtered, cmp);
      assert forall e :: Ties(Sort(filtered, cmp), cmp, e) == Ties(filtered, cmp, e) by {
        forall e ensures Ties(Sort(filtered, cmp), cmp, e) == Ties(filtered, cmp, e) {
          SortStable(filtered, cmp, e);
        }
      }
      Sort(filtered, cmp)
  }

  // ================================================================ paginate

  function Min(a: int, b: int): int { if a <= b then a else b }
  function Max(a: int, b: int): int { if a >= b then a else b }

  /** `Array.prototype.slice(start, end)`, negative indices counting from the end. */
  function JsSlice(s: seq<Row>, start: int, end: int): (r: seq<Row>)
    ensures |r| <= |s|
    ensures 0 <= start <= |s| && start <= end ==> r == s[start..Min(end, |s|)]
    ensures 0 <= end <= start ==> r == []
    ensures 0 <= start <= end ==> r == s[Min(start, |s|)..Min(end, |s|)]
    ensures start <= end ==> |r| <= end - start
    ensures forall x :: x in r ==> x in s
  {
    var from := if start < 0 then Max(|s| + start, 0) else Min(start, |s|);
    var to := if end < 0 then Max(|s| + end, 0) else Min(end, |s|);
    if from < to then s[from..to] else []
  }

  /** `Math.ceil(n / rowsPerPage)`. */
  function TotalPages(n: nat, rowsPerPage: int): (pages: nat)
    requires rowsPerPage >= 1
    ensures n <= pages * rowsPerPage
    ensures pages == 0 || (pages - 1) * rowsPerPage < n
    ensures pages == 0 <==> n == 0
  {
    (n + rowsPerPage - 1) / rowsPerPage
  }

  /** `paginatedUrls`: the slice of page `page` (counted from 1). */
  function PageSlice(sorted: seq<Row>, page: int, rowsPerPage: int): (r: seq<Row>)
    requires rowsPerPage >= 1
    ensures |r| <= rowsPerPage
    ensures page >= 1 ==>
      r == sorted[Min((page - 1) * rowsPerPage, |sorted|)..Min(page * rowsPerPage, |sorted|)]
    ensures forall x :: x in r ==> x in sorted
  {
    var start := (page - 1) * rowsPerPage;
    PageBounds(page, rowsPerPage);
    var end := start + rowsPerPage;
    assert page >= 1 ==> 0 <= start && end == page * rowsPerPage;
    JsSlice(sorted, start, end)
  }

  lemma PageBounds(page: int, rowsPerPage: int)
    requires rowsPerPage >= 1
    ensures page >= 1 ==> (page - 1) * rowsPerPage >= 0
    ensures page * rowsPerPage == (page - 1) * rowsPerPage + rowsPerPage
  {
    if page >= 1 {
      MulMonotone(0, page - 1, rowsPerPage);
    }
  }

  /** Page 0 (reachable only through the unclamped Next button) is always empty. */
  lemma PageZeroIsEmpty(sorted: seq<Row>, rowsPerPage: int)
    requires rowsPerPage >= 1
    ensures PageSlice(sorted, 0, rowsPerPage) == []
  {
  }

  /** Pages 1..k laid end to end. */
  function Pages(sorted: seq<Row>, rowsPerPage: int, k: nat): seq<Row>
    requires rowsPerPage >= 1
  {
    if k == 0 then [] else Pages(sorted, rowsPerPage, k - 1) + PageSlice(sorted, k, rowsPerPage)
  }

  lemma {:induction false} PagesArePrefix(sorted: seq<Row>, rowsPerPage: int, k: nat)
    requires rowsPerPage >= 1
    ensures Pages(sorted, rowsPerPage, k) == sorted[..Min(k * rowsPerPage, |sorted|)]
  {
    if k > 0 {
      PagesArePrefix(sorted, rowsPerPage, k - 1);
      PageBounds(k, rowsPerPage);
      var a := Min((k - 1) * rowsPerPage, |sorted|);
      var b := Min(k * rowsPerPage, |sorted|);
      assert a <= b;
      assert Pages(sorted, rowsPerPage, k) == sorted[..a] + sorted[a..b];
      assert sorted[..a] + sorted[a..b] == sorted[..b];
    }
  }

  /** Concatenating pages 1..totalPages yields the sorted list, each row exactly once. */
  lemma PagesCoverSorted(sorted: seq<Row>, rowsPerPage: int)
    requires rowsPerPage >= 1
    ensures Pages(sorted, rowsPerPage, TotalPages(|sorted|, rowsPerPage)) == sorted
  {
    PagesArePrefix(sorted, rowsPerPage, TotalPages(|sorted|, rowsPerPage));
  }

  lemma MulMonotone(a: int, b: int, c: int)
    requires a <= b && c >= 0
    ensures a * c <= b * c
  {
  }

  /** Page `page` of `n` rows starts inside the list. */
  lemma PageStartInRange(n: nat, page: int, rowsPerPage: int)
    requires rowsPerPage >= 1
    requires 1 <= page <= TotalPages(n, rowsPerPage)
    ensures 0 <= (page - 1) * rowsPerPage < n
  {
    var pages := TotalPages(n, rowsPerPage);
    MulMonotone(page - 1, pages - 1, rowsPerPage);
    MulMonotone(0, page - 1, rowsPerPage);
  }

  /** Every page in range is non-empty and holds min(rowsPerPage, remaining) rows. */
  lemma PageLength(sorted: seq<Row>, page: int, rowsPerPage: int)
    requires rowsPerPage >= 1
    requires 1 <= page <= TotalPages(|sorted|, rowsPerPage)
    ensures |PageSlice(sorted, page, rowsPerPage)|
            == Min(rowsPerPage, |sorted| - (page - 1) * rowsPerPage)
    ensures |PageSlice(sorted, page, rowsPerPage)| > 0
  {
    PageStartInRange(|sorted|, page, rowsPerPage);
    PageBounds(page, rowsPerPage);
    var start := (page - 1) * rowsPerPage;
    var end := Min(page * rowsPerPage, |sorted|);
    assert PageSlice(sorted, page, rowsPerPage) == sorted[start..end];
  }

  /** The whole derivation: the rows of page `page` for the given view state. */
  function View(urls: seq<Row>, term: string, key: Option<SortKey>, dir: Direction,
                page: int, rowsPerPage: int): (r: seq<Row>)
    requires rowsPerPage >= 1
    ensures |r| <= rowsPerPage
    ensures forall x :: x in r ==> x in urls && Matches(x, term)
  {
    var filtered := Filter(urls, term);
    SortedRowsMembers(filtered, key, dir);
    PageSlice(SortedRows(filtered, key, dir), page, rowsPerPage)
  }

  lemma SortedRowsMembers(filtered: seq<Row>, key: Option<SortKey>, dir: Direction)
    ensures forall x :: x in SortedRows(filtered, key, dir) ==> x in filtered
  {
    var sorted := SortedRows(filtered, key, dir);
    forall x | x in sorted
      ensures x in filtered
    {
      assert x in multiset(sorted);
    }
  }
}
