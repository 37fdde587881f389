/**
 * The query steps both `/api/data/:id` handlers apply to a stored table
 * (packages/backend/src/index.ts and packages/backend/app/main.py): keep the
 * rows that contain a search term, order them stably by one column, and cut
 * out one page.
 */
module QueryCore {
  import opened Text
  import opened Seqs
  import opened Responses

  /** `row[i] ?? ""`: the cell, or the empty string past the end of the row. */
  function CellOr(row: seq<string>, i: int): string {
    if 0 <= i < |row| then row[i] else ""
  }

  // ---------------------------------------------------------------------
  // Filtering
  // ---------------------------------------------------------------------

  /** Case-insensitive substring test; `term` is already lower-cased. */
  predicate CellMatches(cell: string, term: string) {
    Contains(Lower(cell), term)
  }

  predicate AnyCellMatches(row: seq<string>, term: string) {
    exists k :: 0 <= k < |row| && CellMatches(row[k], term)
  }

  /** A row is kept when the chosen cell matches; a negative index means any cell of the row. */
  predicate RowMatches(row: seq<string>, columnIndex: int, term: string) {
    if columnIndex >= 0 then CellMatches(CellOr(row, columnIndex), term) else AnyCellMatches(row, term)
  }

  /** The rows that match, in their original order. */
  function FilterRows(rows: seq<seq<string>>, columnIndex: int, term: string): (r: seq<seq<string>>)
    ensures |r| <= |rows|
  {
    if rows == [] then []
    else
      var last := rows[|rows| - 1];
      FilterRows(rows[..|rows| - 1], columnIndex, term) + (if RowMatches(last, columnIndex, term) then [last] else [])
  }

  /**
   * Every kept row matches, every matching row is kept as often as it occurs,
   * and the kept rows keep their order.
   */
  lemma {:induction false} FilterExact(rows: seq<seq<string>>, columnIndex: int, term: string)
    ensures forall x :: x in FilterRows(rows, columnIndex, term) <==> x in rows && RowMatches(x, columnIndex, term)
    ensures forall x :: multiset(FilterRows(rows, columnIndex, term))[x] == if RowMatches(x, columnIndex, term) then multiset(rows)[x] else 0
    ensures IsSubsequence(FilterRows(rows, columnIndex, term), rows)
  {
    if rows != [] {
      var init, last := rows[..|rows| - 1], rows[|rows| - 1];
      FilterExact(init, columnIndex, term);
      assert rows == init + [last];
      FilterCountStep(init, last, columnIndex, term);
      SubsequenceExtend(FilterRows(init, columnIndex, term), init, last, RowMatches(last, columnIndex, term));
    }
  }

  /** Filtering one more row adds one copy of it exactly when it matches. */
  lemma FilterCountStep(init: seq<seq<string>>, last: seq<string>, columnIndex: int, term: string)
    requires forall x :: multiset(FilterRows(init, columnIndex, term))[x] == if RowMatches(x, columnIndex, term) then multiset(init)[x] else 0
    ensures forall x :: multiset(FilterRows(init + [last], columnIndex, term))[x] == if RowMatches(x, columnIndex, term) then multiset(init + [last])[x] else 0
  {
    var rows := init + [last];
    assert rows[..|rows| - 1] == init;
    var f := FilterRows(init, columnIndex, term);
    var added: seq<seq<string>> := if RowMatches(last, columnIndex, term) then [last] else [];
    assert FilterRows(rows, columnIndex, term) == f + added;
    assert multiset(rows) == multiset(init) + multiset{last};
    assert multiset(f + added) == multiset(f) + multiset(added);
  }

  /** When every row matches, filtering changes nothing. */
  lemma {:induction false} FilterAllMatch(rows: seq<seq<string>>, columnIndex: int, term: string)
    requires forall k :: 0 <= k < |rows| ==> RowMatches(rows[k], columnIndex, term)
    ensures FilterRows(rows, columnIndex, term) == rows
  {
    if rows != [] {
      var init := rows[..|rows| - 1];
      forall k | 0 <= k < |init| ensures RowMatches(init[k], columnIndex, term) {
        assert init[k] == rows[k];
      }
      FilterAllMatch(init, columnIndex, term);
      assert RowMatches(rows[|rows| - 1], columnIndex, term);
      assert rows == init + [rows[|rows| - 1]];
    }
  }

  // ---------------------------------------------------------------------
  // Sorting
  // ---------------------------------------------------------------------

  /** The sort key of a cell: an integer literal sorts by its value, anything else as text. */
  datatype SortKey = Numeric(value: int) | Textual(s: string)

  /** An optional sign followed by at least one decimal digit. */
  predicate IsIntLiteral(s: string) {
    || (s != [] && AllDigits(s))
    || (|s| >= 2 && (s[0] == '-' || s[0] == '+') && AllDigits(s[1..]))
  }

  /** The sort key of a cell: an integer literal by its exact value (the sources round it to a double), anything else as text. */
  function KeyOf(cell: string): (k: SortKey)
    ensures k.Numeric? <==> IsIntLiteral(cell)
  {
    if cell != [] && AllDigits(cell) then Numeric(DigitsValue(cell))
    else if |cell| >= 2 && cell[0] == '-' && AllDigits(cell[1..]) then Numeric(-(DigitsValue(cell[1..]) as int))
    else if |cell| >= 2 && cell[0] == '+' && AllDigits(cell[1..]) then Numeric(DigitsValue(cell[1..]))
    else Textual(cell)
  }

  /** Lexicographic order by character code. */
  predicate StrLeq(a: string, b: string) {
    a == [] || (b != [] && (a[0] < b[0] || (a[0] == b[0] && StrLeq(a[1..], b[1..]))))
  }

  lemma {:induction false} StrLeqTotal(a: string, b: string)
    ensures StrLeq(a, b) || StrLeq(b, a)
  {
    if a != [] && b != [] && a[0] == b[0] {
      StrLeqTotal(a[1..], b[1..]);
    }
  }

  lemma {:induction false} StrLeqTrans(a: string, b: string, c: string)
    requires StrLeq(a, b) && StrLeq(b, c)
    ensures StrLeq(a, c)
  {
    if a != [] && b != [] && c != [] && a[0] == b[0] && b[0] == c[0] {
      StrLeqTrans(a[1..], b[1..], c[1..]);
    }
  }

  lemma {:induction false} StrLeqAntisym(a: string, b: string)
    requires StrLeq(a, b) && StrLeq(b, a)
    ensures a == b
  {
    if a != [] && b != [] {
      StrLeqAntisym(a[1..], b[1..]);
      assert a == [a[0]] + a[1..] && b == [b[0]] + b[1..];
    }
  }

  /** Numbers in numeric order before texts in character-code order. */
  predicate KeyLeq(a: SortKey, b: SortKey) {
    match (a, b)
    case (Numeric(x), Numeric(y)) => x <= y
    case (Numeric(_), Textual(_)) => true
    case (Textual(_), Numeric(_)) => false
    case (Textual(x), Textual(y)) => StrLeq(x, y)
  }

  /** KeyLeq is a total order on keys. */
  lemma KeyLeqTotalOrder(a: SortKey, b: SortKey, c: SortKey)
    ensures KeyLeq(a, b) || KeyLeq(b, a)
    ensures KeyLeq(a, b) && KeyLeq(b, c) ==> KeyLeq(a, c)
    ensures KeyLeq(a, b) && KeyLeq(b, a) ==> a == b
  {
    if a.Textual? && b.Textual? {
      StrLeqTotal(a.s, b.s);
      if StrLeq(a.s, b.s) && StrLeq(b.s, a.s) {
        StrLeqAntisym(a.s, b.s);
      }
      if c.Textual? && StrLeq(a.s, b.s) && StrLeq(b.s, c.s) {
        StrLeqTrans(a.s, b.s, c.s);
      }
    }
  }

  /** `a` may come before `b`: ascending, or descending when `desc`. */
  predicate InOrder(a: SortKey, b: SortKey, desc: bool) {
    if desc then KeyLeq(b, a) else KeyLeq(a, b)
  }

  lemma InOrderTotalOrder(a: SortKey, b: SortKey, c: SortKey, desc: bool)
    ensures InOrder(a, b, desc) || InOrder(b, a, desc)
    ensures InOrder(a, b, desc) && InOrder(b, c, desc) ==> InOrder(a, c, desc)
    ensures InOrder(a, b, desc) && InOrder(b, a, desc) <==> a == b
  {
    KeyLeqTotalOrder(a, b, c);
    KeyLeqTotalOrder(c, b, a);
    KeyLeqTotalOrder(b, a, a);
    KeyLeqTotalOrder(a, a, a);
  }

  /** Places `x` before the first element it may precede: ahead of every element with an equal key. */
  function Insert<T>(x: T, s: seq<T>, key: T -> SortKey, desc: bool): seq<T> {
    if s == [] then [x]
    else if InOrder(key(x), key(s[0]), desc) then [x] + s
    else [s[0]] + Insert(x, s[1..], key, desc)
  }

  /** Stable sort by key (insertion sort). */
  function SortBy<T>(xs: seq<T>, key: T -> SortKey, desc: bool): seq<T> {
    if xs == [] then [] else Insert(xs[0], SortBy(xs[1..], key, desc), key, desc)
  }

  predicate Sorted<T>(s: seq<T>, key: T -> SortKey, desc: bool) {
    forall i, j :: 0 <= i < j < |s| ==> InOrder(key(s[i]), key(s[j]), desc)
  }

  /** The elements of `s` whose key is `k`, in order. */
  function WithKey<T>(s: seq<T>, key: T -> SortKey, k: SortKey): seq<T> {
    if s == [] then [] else (if key(s[0]) == k then [s[0]] else []) + WithKey(s[1..], key, k)
  }

  lemma {:induction false} InsertPermutes<T>(x: T, s: seq<T>, key: T -> SortKey, desc: bool)
    ensures multiset(Insert(x, s, key, desc)) == multiset(s) + multiset{x}
  {
    if s != [] && !InOrder(key(x), key(s[0]), desc) {
      InsertPermutes(x, s[1..], key, desc);
      assert s == [s[0]] + s[1..];
    }
  }

  /** Every element of `Insert(x, s)` is `x` or an element of `s`. */
  lemma InsertElements<T>(x: T, s: seq<T>, key: T -> SortKey, desc: bool, y: T)
    requires y in Insert(x, s, key, desc)
    ensures y == x || y in s
  {
    InsertPermutes(x, s, key, desc);
    assert y in multiset(Insert(x, s, key, desc));
  }

  lemma {:induction false} InsertSorted<T>(x: T, s: seq<T>, key: T -> SortKey, desc: bool)
    requires Sorted(s, key, desc)
    ensures Sorted(Insert(x, s, key, desc), key, desc)
  {
    var r := Insert(x, s, key, desc);
    if s == [] {
    } else if InOrder(key(x), key(s[0]), desc) {
      forall i, j | 0 <= i < j < |r| ensures InOrder(key(r[i]), key(r[j]), desc) {
        if i == 0 && j > 1 {
          InOrderTotalOrder(key(x), key(s[0]), key(s[j - 1]), desc);
        }
      }
    } else {
      var t := Insert(x, s[1..], key, desc);
      InsertSorted(x, s[1..], key, desc);
      InOrderTotalOrder(key(x), key(s[0]), key(x), desc);
      forall j | 0 <= j < |t| ensures InOrder(key(s[0]), key(t[j]), desc) {
        InsertElements(x, s[1..], key, desc, t[j]);
      }
      forall i, j | 0 <= i < j < |r| ensures InOrder(key(r[i]), key(r[j]), desc) {
        assert r[j] == t[j - 1];
        if i > 0 {
          assert r[i] == t[i - 1];
        }
      }
    }
  }

  /** Inserting `x` puts it ahead of the elements with its key and leaves them in order. */
  lemma {:induction false} InsertStable<T>(x: T, s: seq<T>, key: T -> SortKey, desc: bool, k: SortKey)
    ensures WithKey(Insert(x, s, key, desc), key, k) == (if key(x) == k then [x] else []) + WithKey(s, key, k)
  {
    if s == [] {
    } else if InOrder(key(x), key(s[0]), desc) {
      assert Insert(x, s, key, desc)[1..] == s;
    } else {
      InOrderTotalOrder(key(x), key(s[0]), key(x), desc);
      InsertStable(x, s[1..], key, desc, k);
      var r := Insert(x, s, key, desc);
      assert r[0] == s[0] && r[1..] == Insert(x, s[1..], key, desc);
    }
  }

  /** The sort rearranges: same elements, same multiplicities, nothing else. */
  lemma {:induction false} SortPermutes<T>(xs: seq<T>, key: T -> SortKey, desc: bool)
    ensures multiset(SortBy(xs, key, desc)) == multiset(xs)
  {
    if xs != [] {
      SortPermutes(xs[1..], key, desc);
      InsertPermutes(xs[0], SortBy(xs[1..], key, desc), key, desc);
      assert xs == [xs[0]] + xs[1..];
    }
  }

  /** The result is in key order (reversed when `desc`). */
  lemma {:induction false} SortSorts<T>(xs: seq<T>, key: T -> SortKey, desc: bool)
    ensures Sorted(SortBy(xs, key, desc), key, desc)
  {
    if xs != [] {
      SortSorts(xs[1..], key, desc);
      InsertSorted(xs[0], SortBy(xs[1..], key, desc), key, desc);
    }
  }

  /** The sort is stable: elements with equal keys keep their original order, ascending or descending. */
  lemma {:induction false} SortStable<T>(xs: seq<T>, key: T -> SortKey, desc: bool, k: SortKey)
    ensures WithKey(SortBy(xs, key, desc), key, k) == WithKey(xs, key, k)
  {
    if xs != [] {
      SortStable(xs[1..], key, desc, k);
      InsertStable(xs[0], SortBy(xs[1..], key, desc), key, desc, k);
    }
  }

  /** The sort key of a row: the key of its cell in `column`. */
  function ColumnKey(column: int): seq<string> -> SortKey {
    row => KeyOf(CellOr(row, column))
  }

  /** Sorting rows by one column, as both handlers do. */
  function SortRows(rows: seq<seq<string>>, column: int, desc: bool): seq<seq<string>> {
    SortBy(rows, ColumnKey(column), desc)
  }

  /** What the handlers promise of the row sort: a stable, ordered permutation. */
  lemma SortRowsSpec(rows: seq<seq<string>>, column: int, desc: bool)
    ensures multiset(SortRows(rows, column, desc)) == multiset(rows)
    ensures Sorted(SortRows(rows, column, desc), ColumnKey(column), desc)
    ensures forall k :: WithKey(SortRows(rows, column, desc), ColumnKey(column), k) == WithKey(rows, ColumnKey(column), k)
  {
    SortPermutes(rows, ColumnKey(column), desc);
    SortSorts(rows, ColumnKey(column), desc);
    forall k {
      SortStable(rows, ColumnKey(column), desc, k);
    }
  }

  // ---------------------------------------------------------------------
  // Paging
  // ---------------------------------------------------------------------

  /** `xs.slice(start, end)` / `xs[start:end]` for bounds that are not negative. */
  function Slice<T>(xs: seq<T>, start: nat, end: nat): (r: seq<T>)
    requires start <= end
    ensures |r| <= end - start
    ensures forall i :: 0 <= i < |r| ==> start + i < |xs| && r[i] == xs[start + i]
    ensures |r| == if start >= |xs| then 0 else (if end <= |xs| then end - start else |xs| - start)
  {
    var s := if start < |xs| then start else |xs|;
    var e := if end < |xs| then end else |xs|;
    xs[s..e]
  }

  /** The rows of page `page` (counted from 1) of `pageSize` rows. */
  function PageRows<T>(rows: seq<T>, page: int, pageSize: int): seq<T>
    requires page >= 1 && pageSize >= 1
  {
    Slice(rows, (page - 1) * pageSize, page * pageSize)
  }

  /** The response for page `page` of `rows`: `start = (page - 1) * pageSize`, `end = start + pageSize`, more rows exist past `end`. */
  function Paged(columns: seq<string>, rows: seq<seq<string>>, page: int, pageSize: int, totalPages: int): (r: DataResponse)
    requires page >= 1 && pageSize >= 1
    ensures r.rows == PageRows(rows, page, pageSize) && |r.rows| <= pageSize
    ensures r.hasMore <==> page * pageSize < |rows|
    ensures r.columns == columns && r.page == page && r.pageSize == pageSize && r.totalRows == |rows| && r.totalPages == totalPages
  {
    var start := (page - 1) * pageSize;
    var end := start + pageSize;
    DataResponse(columns, Slice(rows, start, end), page, pageSize, |rows|, totalPages, end < |rows|)
  }

  /** Row `i` is on page `i / pageSize + 1`, at position `i % pageSize`, and a page holds at most `pageSize` rows. */
  lemma RowOnPage<T>(rows: seq<T>, pageSize: int, i: nat)
    requires pageSize >= 1 && i < |rows|
    ensures var page := i / pageSize + 1;
      && |PageRows(rows, page, pageSize)| <= pageSize
      && i % pageSize < |PageRows(rows, page, pageSize)|
      && PageRows(rows, page, pageSize)[i % pageSize] == rows[i]
  {
    var page := i / pageSize + 1;
    assert (page - 1) * pageSize + i % pageSize == i;
    assert (page - 1) * pageSize <= i < page * pageSize;
  }

  /** Integer cells sort by value, not as text: `10, 2, 1` ascending is `1, 2, 10`. */
  lemma NumericSortExample()
    ensures SortRows([["10"], ["2"], ["1"]], 0, false) == [["1"], ["2"], ["10"]]
  {
    assert DigitsValue("1") == 1 by {
      assert "1"[..0] == [];
    }
    assert DigitsValue("2") == 2 by {
      assert "2"[..0] == [];
    }
    assert DigitsValue("10") == 10 by {
      assert "10"[..1] == "1";
      assert "1"[..0] == [];
    }
    var key := ColumnKey(0);
    assert key(["10"]) == Numeric(10) && key(["2"]) == Numeric(2) && key(["1"]) == Numeric(1);
    assert SortBy([["1"]], key, false) == [["1"]];
    assert Insert(["2"], [["1"]], key, false) == [["1"], ["2"]];
    assert Insert(["10"], [["2"]], key, false) == [["2"], ["10"]];
    assert Insert(["10"], [["1"], ["2"]], key, false) == [["1"], ["2"], ["10"]];
  }

  /** Page 2 of size 1 of three rows is the second row, and more rows follow. */
  lemma SecondPageExample(columns: seq<string>, a: seq<string>, b: seq<string>, c: seq<string>)
    ensures var r := Paged(columns, [a, b, c], 2, 1, PageCount(3, 1));
      r.rows == [b] && r.hasMore
  {
    assert [a, b, c][1..2] == [b];
  }

  /** The number of pages of `pageSize` rows needed for `n` rows: `(n + pageSize - 1) // pageSize`. */
  function PageCount(n: nat, pageSize: int): (pages: nat)
    requires pageSize >= 1
    ensures (pages - 1) * pageSize < n <= pages * pageSize || (n == 0 && pages == 0)
  {
    PageCountBounds(n, pageSize);
    (n + pageSize - 1) / pageSize
  }

  lemma PageCountBounds(n: nat, pageSize: int)
    requires pageSize >= 1
    ensures var pages := (n + pageSize - 1) / pageSize;
      (pages - 1) * pageSize < n <= pages * pageSize || (n == 0 && pages == 0)
  {
    var pages := (n + pageSize - 1) / pageSize;
    var rem := (n + pageSize - 1) % pageSize;
    assert pages * pageSize + rem == n + pageSize - 1;
    if n == 0 {
      assert pages == 0;
    }
  }

  /** There is a next page exactly when this page is not the last: `page * pageSize < n` iff `page < pages`. */
  lemma MoreIffBeforeLastPage(n: nat, page: int, pageSize: int)
    requires page >= 1 && pageSize >= 1
    ensures page * pageSize < n <==> page < PageCount(n, pageSize)
  {
    var pages := PageCount(n, pageSize);
    if page < pages {
      assert page * pageSize <= (pages - 1) * pageSize;
    }
    if pages <= page {
      assert pages * pageSize <= page * pageSize;
    }
  }

  /** `Math.ceil`: the least integer not below `x`. */
  function Ceil(x: real): (c: int)
    ensures (c - 1) as real < x <= c as real
  {
    if x == x.Floor as real then x.Floor else x.Floor + 1
  }

  lemma CeilUnique(x: real, c: int)
    requires (c - 1) as real < x <= c as real
    ensures Ceil(x) == c
  {
  }

  /** Dividing by a positive real keeps a strict lower bound. */
  lemma QuotientAbove(a: real, b: real, d: real)
    requires d > 0.0 && b * d < a
    ensures b < a / d
  {
  }

  /** Dividing by a positive real keeps an upper bound. */
  lemma QuotientAtMost(a: real, b: real, d: real)
    requires d > 0.0 && a <= b * d
    ensures a / d <= b
  {
  }

  /** `Math.ceil(n / pageSize)` over the reals is the integer page count. */
  lemma CeilOfQuotient(n: nat, pageSize: int)
    requires pageSize >= 1
    ensures Ceil(n as real / pageSize as real) == PageCount(n, pageSize)
  {
    var c := PageCount(n, pageSize);
    var d := pageSize as real;
    var q := n as real / d;
    if n == 0 {
      assert q == 0.0;
      if c != 0 {
        assert (c - 1) * pageSize < 0;
      }
      CeilUnique(q, 0);
    } else {
      assert (c - 1) * pageSize < n <= c * pageSize;
      assert (c - 1) as real * d == ((c - 1) * pageSize) as real;
      assert c as real * d == (c * pageSize) as real;
      QuotientAbove(n as real, (c - 1) as real, d);
      QuotientAtMost(n as real, c as real, d);
      CeilUnique(q, c);
    }
  }
}
