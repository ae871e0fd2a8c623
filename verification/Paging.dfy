/** Pagination of store/where/where.go as a window on an ordered result. The
    database may put rows that its ORDER BY does not tell apart in any order,
    and in a different one for every query. */
module Paging {
  import opened Arithmetic

  /** A row: its primary key and the rest of it. */
  datatype Row = Row(key: int, data: int)

  /** One ORDER BY expression, ascending; a later one decides among equals. */
  type Rank = Row -> int

  predicate Le(orders: seq<Rank>, a: Row, b: Row) {
    orders == [] || orders[0](a) < orders[0](b) || (orders[0](a) == orders[0](b) && Le(orders[1..], a, b))
  }

  lemma {:induction false} LeTotal(orders: seq<Rank>, a: Row, b: Row)
    ensures Le(orders, a, b) || Le(orders, b, a)
  {
    if orders != [] {
      LeTotal(orders[1..], a, b);
    }
  }

  lemma {:induction false} LeTransitive(orders: seq<Rank>, a: Row, b: Row, c: Row)
    requires Le(orders, a, b) && Le(orders, b, c)
    ensures Le(orders, a, c)
  {
    if orders != [] && orders[0](a) == orders[0](b) == orders[0](c) {
      LeTransitive(orders[1..], a, b, c);
    }
  }

  /** The first k expressions agree, and the next one, if any, puts a first. */
  predicate FirstAt(orders: seq<Rank>, a: Row, b: Row, k: int) {
    && 0 <= k <= |orders| && (forall j | 0 <= j < k :: orders[j](a) == orders[j](b))
    && (k == |orders| || orders[k](a) < orders[k](b))
  }

  predicate InOrder(orders: seq<Rank>, a: Row, b: Row) {
    exists k | 0 <= k <= |orders| :: FirstAt(orders, a, b, k)
  }

  /** The order is lexicographic and ascending. */
  lemma {:induction false} LeExact(orders: seq<Rank>, a: Row, b: Row)
    ensures Le(orders, a, b) <==> InOrder(orders, a, b)
  {
    if orders == [] {
      assert FirstAt(orders, a, b, 0);
    } else {
      var rest := orders[1..];
      LeExact(rest, a, b);
      if k :| 0 <= k <= |orders| && FirstAt(orders, a, b, k) {
        if k > 0 {
          assert FirstAt(rest, a, b, k - 1);
        }
      }
      if orders[0](a) < orders[0](b) {
        assert FirstAt(orders, a, b, 0);
      } else if orders[0](a) == orders[0](b) && Le(rest, a, b) {
        var k :| 0 <= k <= |rest| && FirstAt(rest, a, b, k);
        assert forall j | 1 <= j <= k :: orders[j] == rest[j - 1];
        assert FirstAt(orders, a, b, k + 1);
      }
    }
  }

  predicate Sorted(orders: seq<Rank>, rows: seq<Row>) {
    forall i, j | 0 <= i < j < |rows| :: Le(orders, rows[i], rows[j])
  }

  /** An order in which the database may return these rows. */
  ghost predicate Arranges(orders: seq<Rank>, rows: multiset<Row>, arr: seq<Row>) {
    multiset(arr) == rows && Sorted(orders, arr)
  }

  // ------------------------------------------------------------------ windows

  const MAX_INT: int := 0x7FFF_FFFF_FFFF_FFFF

  lemma WrapCongruent(x: int)
    ensures var n := 2 * MAX_INT + 2; (x % n - x) % n == 0 && (x % n - n - x) % n == 0
  {
    var n := 2 * MAX_INT + 2;
    MultipleModZero(-(x / n), n);
    MultipleModZero(-(x / n) - 1, n);
  }

  /** A 64-bit signed integer after overflow. */
  function Wrap(x: int): (w: int)
    ensures -MAX_INT - 1 <= w <= MAX_INT
    ensures -MAX_INT - 1 <= x <= MAX_INT ==> w == x
    ensures (w - x) % (2 * MAX_INT + 2) == 0
  {
    var m := x % (2 * MAX_INT + 2);
    WrapCongruent(x);
    if m > MAX_INT then m - (2 * MAX_INT + 2) else m
  }

  function Min(a: int, b: int): int { if a < b then a else b }

  /** OFFSET only if positive; LIMIT only if positive. */
  function Window(rows: seq<Row>, offset: int, limit: int): (w: seq<Row>)
    ensures limit > 0 ==> |w| <= limit
  {
    var rest := if offset <= 0 then rows else if offset >= |rows| then [] else rows[offset..];
    if 0 < limit < |rest| then rest[..limit] else rest
  }

  function PageOffset(page: int, pageSize: int): int {
    var p := if page < 1 then 1 else page;
    var s := if pageSize <= 0 then -1 else pageSize;
    Wrap((p - 1) * s)
  }

  function PageLimit(pageSize: int): int {
    if pageSize <= 0 then -1 else pageSize
  }

  /** Rows from ..< to, as far as there are any. */
  function Slice(rows: seq<Row>, from: nat, to: nat): (s: seq<Row>)
    requires from <= to
    ensures |s| == Min(to, |rows|) - Min(from, |rows|)
  {
    rows[Min(from, |rows|)..Min(to, |rows|)]
  }

  lemma WindowIsSlice(rows: seq<Row>, from: nat, size: nat)
    requires size > 0
    ensures Window(rows, from, size) == Slice(rows, from, from + size)
  {
  }

  /** An offset that overflowed shows rows where there should be none. */
  lemma OverflowShows(x: nat, size: nat) returns (rows: seq<Row>)
    requires size > 0 && x > MAX_INT
    ensures Window(rows, Wrap(x), size) != Slice(rows, x, x + size)
  {
    var w := Wrap(x);
    rows := Copies(if w <= 0 then 1 else w + 1);
    assert Slice(rows, x, x + size) == [];
    assert Window(rows, w, size) != [];
  }

  lemma FirstRow(page: int, size: int)
    requires page >= 1 && size >= 1
    ensures (page - 1) * size >= 0
    ensures PageOffset(page, size) == Wrap((page - 1) * size) && PageLimit(size) == size
  {
  }

  ghost predicate ShowsPage(offset: int, limit: int, from: nat, to: nat)
    requires from <= to
  {
    forall rows :: Window(rows, offset, limit) == Slice(rows, from, to)
  }

  /** Page number page is rows (page-1)*size onwards, for every result, exactly as
      long as that product does not overflow; a page below 1 is the first one. */
  lemma PageExact(page: int, size: int)
    requires size >= 1
    ensures var x := if page < 1 then 0 else (page - 1) * size;
            x >= 0 && (ShowsPage(PageOffset(page, size), PageLimit(size), x, x + size) <==> x <= MAX_INT)
  {
    var p := if page < 1 then 1 else page;
    FirstRow(p, size);
    ShowsExact((p - 1) * size, size);
  }

  lemma PageShown(rows: seq<Row>, page: int, size: int)
    requires page >= 1 && size >= 1 && (page - 1) * size <= MAX_INT
    ensures var x := (page - 1) * size;
            x >= 0 && Window(rows, PageOffset(page, size), PageLimit(size)) == Slice(rows, x, x + size)
  {
    PageExact(page, size);
  }

  lemma ShowsExact(x: nat, size: nat)
    requires size > 0
    ensures ShowsPage(Wrap(x), size, x, x + size) <==> x <= MAX_INT
  {
    if x <= MAX_INT {
      forall rows ensures Window(rows, Wrap(x), size) == Slice(rows, x, x + size) {
        WindowIsSlice(rows, x, size);
      }
    } else {
      var rows := OverflowShows(x, size);
    }
  }

  function Copies(n: nat): (rows: seq<Row>)
    ensures |rows| == n
  {
    seq(n, _ => Row(0, 0))
  }

  /** A page size of zero or less asks for everything, whatever the page. */
  lemma NoPageSize(rows: seq<Row>, page: int, size: int)
    requires page <= MAX_INT && size <= 0
    ensures Window(rows, PageOffset(page, size), PageLimit(size)) == rows
  {
  }

  // ----------------------------------------------- prefixes that never change

  function Keep(rows: seq<Row>, p: Row -> bool): seq<Row> {
    if rows == [] then []
    else (if p(rows[0]) then [rows[0]] else []) + Keep(rows[1..], p)
  }

  lemma {:induction false} KeepCount(rows: seq<Row>, p: Row -> bool, x: Row)
    ensures multiset(Keep(rows, p))[x] == if p(x) then multiset(rows)[x] else 0
  {
    if rows != [] {
      KeepCount(rows[1..], p, x);
      assert rows == [rows[0]] + rows[1..];
    }
  }

  lemma KeepDetermined(a: seq<Row>, b: seq<Row>, p: Row -> bool)
    requires multiset(a) == multiset(b)
    ensures multiset(Keep(a, p)) == multiset(Keep(b, p))
  {
    forall x ensures multiset(Keep(a, p))[x] == multiset(Keep(b, p))[x] {
      KeepCount(a, p, x);
      KeepCount(b, p, x);
    }
  }

  /** If p holds of a prefix and of nothing after it, keeping p keeps the prefix. */
  lemma {:induction false} KeepPrefix(rows: seq<Row>, p: Row -> bool, n: nat)
    requires n <= |rows| && forall i | 0 <= i < |rows| :: p(rows[i]) <==> i < n
    ensures Keep(rows, p) == rows[..n]
  {
    if rows != [] {
      KeepPrefix(rows[1..], p, if n == 0 then 0 else n - 1);
      if n > 0 {
        assert rows[..n] == [rows[0]] + rows[1..][..n - 1];
      }
    }
  }

  /** No two neighbours across position b rank equal. */
  predicate Strict(orders: seq<Rank>, rows: seq<Row>, b: int) {
    0 < b < |rows| ==> !Le(orders, rows[b], rows[b - 1])
  }

  /** How many rows from the front satisfy a predicate that sorted rows lose once. */
  function PrefixLen(rows: seq<Row>, p: Row -> bool): (n: nat)
    ensures n <= |rows| && forall i | 0 <= i < n :: p(rows[i])
    ensures n < |rows| ==> !p(rows[n])
  {
    if rows == [] || !p(rows[0]) then 0 else 1 + PrefixLen(rows[1..], p)
  }

  /** Across a strict boundary, every arrangement has the same rows before it. */
  lemma SamePrefix(orders: seq<Rank>, a: seq<Row>, c: seq<Row>, b: nat)
    requires Sorted(orders, a) && Sorted(orders, c) && multiset(a) == multiset(c)
    requires 0 < b < |a| && Strict(orders, a, b)
    ensures |c| == |a| && multiset(c[..b]) == multiset(a[..b])
  {
    assert |a| == |multiset(a)| == |multiset(c)| == |c|;
    var p := x => Le(orders, x, a[b - 1]);
    LeTotal(orders, a[b - 1], a[b - 1]);
    forall i | 0 <= i < |a| ensures p(a[i]) <==> i < b {
      if i >= b && p(a[i]) {
        LeTotal(orders, a[b], a[b]);
        LeTransitive(orders, a[b], a[i], a[b - 1]);
      }
    }
    KeepPrefix(a, p, b);
    var n := PrefixLen(c, p);
    forall i | 0 <= i < |c| ensures p(c[i]) <==> i < n {
      if i > n && p(c[i]) {
        LeTransitive(orders, c[n], c[i], a[b - 1]);
      }
    }
    KeepPrefix(c, p, n);
    KeepDetermined(a, c, p);
    assert |multiset(c[..n])| == n && |multiset(a[..b])| == b;
  }

  // ------------------------------------------------------------------- tiling

  /** The first k pages of size rows, page i cut from the i-th arrangement. */
  function Pages(choices: seq<seq<Row>>, size: nat, k: nat): seq<Row>
    requires k <= |choices|
  {
    if k == 0 then []
    else Pages(choices, size, k - 1) + Slice(choices[k - 1], (k - 1) * size, (k - 1) * size + size)
  }

  lemma NextStart(k: nat, size: nat)
    requires k > 0
    ensures 0 <= (k - 1) * size && (k - 1) * size + size == k * size
  {
  }

  /** Pages cut from one and the same result join up. */
  lemma {:induction false} PagesOfOne(choices: seq<seq<Row>>, size: nat, k: nat, rows: seq<Row>)
    requires k <= |choices|
    requires forall i | 0 <= i < k ::
      var from: nat := i * size; Slice(choices[i], from, from + size) == Slice(rows, from, from + size)
    ensures Pages(choices, size, k) == rows[..Min(k * size, |rows|)]
  {
    if k > 0 {
      PagesOfOne(choices, size, k - 1, rows);
      NextStart(k, size);
      SliceAfter(rows, (k - 1) * size, k * size);
    }
  }

  lemma SliceAfter(rows: seq<Row>, from: nat, to: nat)
    requires from <= to
    ensures rows[..Min(from, |rows|)] + Slice(rows, from, to) == rows[..Min(to, |rows|)]
  {
  }

  lemma PrefixMultiset(rows: seq<Row>, from: nat, to: nat)
    requires from <= to
    ensures multiset(rows[..Min(from, |rows|)]) + multiset(Slice(rows, from, to)) == multiset(rows[..Min(to, |rows|)])
  {
    SliceAfter(rows, from, to);
  }

  /** Every page ends where neighbouring rows rank differently. */
  ghost predicate CleanCuts(orders: seq<Rank>, rows: seq<Row>, size: nat) {
    forall k: nat :: CleanCut(orders, rows, size, k)
  }

  predicate CleanCut(orders: seq<Rank>, rows: seq<Row>, size: nat, k: nat) {
    Strict(orders, rows, k * size)
  }

  lemma CutPrefix(orders: seq<Rank>, a: seq<Row>, c: seq<Row>, size: nat, k: nat)
    requires Sorted(orders, a) && Sorted(orders, c) && multiset(a) == multiset(c)
    requires CleanCut(orders, a, size, k)
    ensures k * size >= 0 && |c| == |a|
    ensures multiset(c[..Min(k * size, |a|)]) == multiset(a[..Min(k * size, |a|)])
  {
    assert |a| == |multiset(a)| == |multiset(c)| == |c|;
    var b := k * size;
    if 0 < b < |a| {
      SamePrefix(orders, a, c, b);
    } else if b >= |a| {
      assert a[..|a|] == a && c[..|c|] == c;
    }
  }

  /** x holds the first n of the rows, in some order. */
  predicate HoldsFirst(rows: seq<Row>, x: seq<Row>, n: nat) {
    multiset(x) == multiset(rows[..Min(n, |rows|)])
  }

  /** With clean cuts it does not matter how each query arranges its rows. */
  lemma {:induction false} PagesTogether(orders: seq<Rank>, rows: seq<Row>, choices: seq<seq<Row>>, size: nat, k: nat, n: nat)
    requires k <= |choices| && Sorted(orders, rows) && CleanCuts(orders, rows, size)
    requires forall c | c in choices :: Arranges(orders, multiset(rows), c)
    requires n == k * size
    ensures HoldsFirst(rows, Pages(choices, size, k), n)
  {
    if k == 0 {
      assert n == 0 && rows[..0] == [] == Pages(choices, size, 0);
    } else {
      var c, from: nat := choices[k - 1], (k - 1) * size;
      assert n == from + size;
      PagesTogether(orders, rows, choices, size, k - 1, from);
      assert c in choices && Arranges(orders, multiset(rows), c);
      SliceTogether(orders, rows, c, size, k - 1, Pages(choices, size, k - 1), Pages(choices, size, k), n);
    }
  }

  lemma SliceTogether(orders: seq<Rank>, rows: seq<Row>, c: seq<Row>, size: nat, k: nat, before: seq<Row>, x: seq<Row>, n: nat)
    requires Sorted(orders, rows) && CleanCuts(orders, rows, size) && Arranges(orders, multiset(rows), c)
    requires k * size >= 0 && HoldsFirst(rows, before, k * size)
    requires n == k * size + size && x == before + Slice(c, k * size, n)
    ensures HoldsFirst(rows, x, n)
  {
    assert (k + 1) * size == n;
    assert CleanCut(orders, rows, size, k) && CleanCut(orders, rows, size, k + 1);
    CutPrefix(orders, rows, c, size, k);
    CutPrefix(orders, rows, c, size, k + 1);
    PrefixMultiset(c, k * size, n);
  }

  /** However the database arranges the rows for each of the queries, the pages
      together are the whole result, every row once. */
  ghost predicate AlwaysTiles(orders: seq<Rank>, rows: seq<Row>, size: nat, pages: nat) {
    forall choices: seq<seq<Row>> |
      |choices| == pages && (forall c | c in choices :: Arranges(orders, multiset(rows), c)) ::
      multiset(Pages(choices, size, pages)) == multiset(rows)
  }

  lemma ClearCutsTile(orders: seq<Rank>, rows: seq<Row>, size: nat, pages: nat)
    requires Sorted(orders, rows) && pages * size >= |rows| && CleanCuts(orders, rows, size)
    ensures AlwaysTiles(orders, rows, size, pages)
  {
    forall choices: seq<seq<Row>> | |choices| == pages && (forall c | c in choices :: Arranges(orders, multiset(rows), c))
      ensures multiset(Pages(choices, size, pages)) == multiset(rows)
    {
      PagesTogether(orders, rows, choices, size, pages, pages * size);
      assert rows[..|rows|] == rows;
    }
  }

  /** Neighbours of equal rank may be exchanged. */
  function Swapped(rows: seq<Row>, b: nat): (s: seq<Row>)
    requires 0 < b < |rows|
    ensures |s| == |rows| && multiset(s) == multiset(rows)
  {
    assert rows == rows[..b - 1] + [rows[b - 1], rows[b]] + rows[b + 1..];
    rows[..b - 1] + [rows[b], rows[b - 1]] + rows[b + 1..]
  }

  lemma SwappedSorted(orders: seq<Rank>, rows: seq<Row>, b: nat)
    requires 0 < b < |rows| && Sorted(orders, rows) && Le(orders, rows[b], rows[b - 1])
    ensures Sorted(orders, Swapped(rows, b))
  {
    var s := Swapped(rows, b);
    forall i, j | 0 <= i < j < |s| ensures Le(orders, s[i], s[j]) {
      var m := if i == b - 1 then b else if i == b then b - 1 else i;
      var n := if j == b - 1 then b else if j == b then b - 1 else j;
      assert s[i] == rows[m] && s[j] == rows[n];
    }
  }

  /** A tie across the cut before page k: that page may repeat the row before it. */
  lemma TieRepeats(orders: seq<Rank>, rows: seq<Row>, size: nat, pages: nat, k: nat)
    requires Sorted(orders, rows) && pages * size >= |rows| && size > 0
    requires forall i, j | 0 <= i < j < |rows| :: rows[i] != rows[j]
    requires !CleanCut(orders, rows, size, k)
    ensures !AlwaysTiles(orders, rows, size, pages)
  {
    var b := k * size;
    BelowPages(k, pages, size, |rows|);
    var other := Swapped(rows, b);
    SwappedSorted(orders, rows, b);
    var choices := ChoicesWith(rows, other, pages, k);
    DoubledPages(rows, size, pages, k);
    DoubledDiffers(rows, b);
    assert forall c | c in choices :: Arranges(orders, multiset(rows), c);
  }

  function ChoicesWith(rows: seq<Row>, other: seq<Row>, pages: nat, k: nat): (cs: seq<seq<Row>>)
    ensures |cs| == pages && forall i | 0 <= i < pages :: cs[i] == if i == k then other else rows
  {
    seq(pages, i => if i == k then other else rows)
  }

  lemma DoubledPages(rows: seq<Row>, size: nat, pages: nat, k: nat)
    requires 0 < k * size < |rows| && pages * size >= |rows| && size > 0 && k < pages
    ensures Pages(ChoicesWith(rows, Swapped(rows, k * size), pages, k), size, pages) ==
            rows[k * size := rows[k * size - 1]]
  {
    var b := k * size;
    var choices, doubled := ChoicesWith(rows, Swapped(rows, b), pages, k), rows[b := rows[b - 1]];
    forall i | 0 <= i < pages
      ensures var from: nat := i * size; Slice(choices[i], from, from + size) == Slice(doubled, from, from + size)
    {
      PageBeside(i, k, size);
      DoubledSlice(rows, b, i * size, i * size + size, i == k);
    }
    PagesOfOne(choices, size, pages, doubled);
    assert doubled[..|doubled|] == doubled;
  }

  lemma BelowPages(k: nat, pages: nat, size: nat, n: nat)
    requires 0 < k * size < n && pages * size >= n
    ensures k < pages
  {
    assert k >= pages ==> k * size >= pages * size;
  }

  lemma PageBeside(i: nat, k: nat, size: nat)
    ensures i < k ==> i * size + size <= k * size
    ensures i > k ==> i * size >= k * size + size
    ensures i * size >= 0
  {
    if i < k {
      assert (i + 1) * size <= k * size;
    } else if i > k {
      assert (k + 1) * size <= i * size;
    }
  }

  lemma DoubledSlice(rows: seq<Row>, b: nat, from: nat, to: nat, here: bool)
    requires 0 < b < |rows| && from <= to
    requires if here then from == b < to else to <= b || from > b
    ensures Slice(if here then Swapped(rows, b) else rows, from, to) == Slice(rows[b := rows[b - 1]], from, to)
  {
  }

  lemma DoubledDiffers(rows: seq<Row>, b: nat)
    requires 0 < b < |rows| && forall i, j | 0 <= i < j < |rows| :: rows[i] != rows[j]
    ensures multiset(rows[b := rows[b - 1]]) != multiset(rows)
  {
    var d := rows[b := rows[b - 1]];
    assert rows[b] in multiset(rows);
    forall i | 0 <= i < |d| ensures d[i] != rows[b] {
    }
  }

  /** Pages tile the result whatever the database does with ties exactly when no
      page boundary falls between rows that its ORDER BY ranks equal. */
  lemma TilesExact(orders: seq<Rank>, rows: seq<Row>, size: nat, pages: nat)
    requires Sorted(orders, rows) && pages * size >= |rows| && size > 0
    requires forall i, j | 0 <= i < j < |rows| :: rows[i] != rows[j]
    ensures AlwaysTiles(orders, rows, size, pages) <==> CleanCuts(orders, rows, size)
  {
    if CleanCuts(orders, rows, size) {
      ClearCutsTile(orders, rows, size, pages);
    } else {
      var k: nat :| !CleanCut(orders, rows, size, k);
      TieRepeats(orders, rows, size, pages, k);
    }
  }

  // -------------------------------------------------------- the default order

  /** Descending by primary key. */
  const BY_KEY_DESC: Rank := (r: Row) => -r.key

  /** No two rows have the same key, and no row comes twice. */
  ghost predicate UniqueKeys(rows: multiset<Row>) {
    && (forall x | x in rows :: rows[x] == 1)
    && (forall x, y | x in rows && y in rows && x.key == y.key :: x == y)
  }

  predicate Descending(rows: seq<Row>) {
    forall i, j | 0 <= i < j < |rows| :: rows[i].key > rows[j].key
  }

  /** The default order is by descending key. */
  lemma KeyDescExact(rows: seq<Row>)
    ensures Sorted([BY_KEY_DESC], rows) <==> forall i, j | 0 <= i < j < |rows| :: rows[i].key >= rows[j].key
  {
    assert [BY_KEY_DESC][1..] == [];
    forall a, b ensures Le([BY_KEY_DESC], a, b) <==> a.key >= b.key {
      assert Le([BY_KEY_DESC][1..], a, b);
    }
  }

  lemma CountedTwice(rows: seq<Row>, i: nat, j: nat)
    requires i < j < |rows| && rows[i] == rows[j]
    ensures multiset(rows)[rows[i]] >= 2
  {
    assert rows == rows[..i] + [rows[i]] + rows[i + 1..j] + [rows[j]] + rows[j + 1..];
  }

  /** With unique keys it descends strictly. */
  lemma DefaultDescends(rows: seq<Row>)
    requires UniqueKeys(multiset(rows)) && Sorted([BY_KEY_DESC], rows)
    ensures Descending(rows)
  {
    KeyDescExact(rows);
    forall i, j | 0 <= i < j < |rows| ensures rows[i].key > rows[j].key {
      if rows[i] == rows[j] {
        CountedTwice(rows, i, j);
      }
      assert rows[i] in multiset(rows) && rows[j] in multiset(rows);
    }
  }

  lemma KeepUnique(rows: seq<Row>, p: Row -> bool)
    requires UniqueKeys(multiset(rows))
    ensures UniqueKeys(multiset(Keep(rows, p)))
  {
    forall x ensures multiset(Keep(rows, p))[x] == if p(x) then multiset(rows)[x] else 0 {
      KeepCount(rows, p, x);
    }
  }

  /** The default order leaves the database no choice. */
  lemma DefaultArrangement(rows: multiset<Row>, a: seq<Row>, c: seq<Row>)
    requires UniqueKeys(rows) && Arranges([BY_KEY_DESC], rows, a) && Arranges([BY_KEY_DESC], rows, c)
    ensures a == c
  {
    assert |a| == |multiset(a)| == |multiset(c)| == |c|;
    forall b: nat | b <= |a| ensures multiset(c[..b]) == multiset(a[..b]) {
      DefaultPrefix(a, c, b);
    }
    forall i: nat | i < |a| ensures a[i] == c[i] {
      assert a[..i + 1] == a[..i] + [a[i]] && c[..i + 1] == c[..i] + [c[i]];
      CancelOne(multiset(a[..i]), a[i], c[i]);
    }
  }

  lemma DefaultPrefix(a: seq<Row>, c: seq<Row>, b: nat)
    requires UniqueKeys(multiset(a)) && Sorted([BY_KEY_DESC], a) && Arranges([BY_KEY_DESC], multiset(a), c)
    requires b <= |a| == |c|
    ensures multiset(c[..b]) == multiset(a[..b])
  {
    if 0 < b < |a| {
      DefaultStrict(a, b);
      SamePrefix([BY_KEY_DESC], a, c, b);
    } else if b == |a| {
      assert a[..b] == a && c[..b] == c;
    }
  }

  lemma CancelOne(m: multiset<Row>, x: Row, y: Row)
    requires m + multiset{x} == m + multiset{y}
    ensures x == y
  {
    assert (m + multiset{x})[x] == m[x] + 1;
  }

  lemma DefaultStrict(a: seq<Row>, b: nat)
    requires UniqueKeys(multiset(a)) && Sorted([BY_KEY_DESC], a)
    ensures Strict([BY_KEY_DESC], a, b)
  {
    if 0 < b < |a| {
      assert Le([BY_KEY_DESC], a[b - 1], a[b]);
      assert [BY_KEY_DESC][1..] == [];
      assert a[b - 1] in multiset(a) && a[b] in multiset(a);
      RepeatedRow(a, b);
    }
  }

  lemma RepeatedRow(a: seq<Row>, b: nat)
    requires 0 < b < |a|
    ensures a[b - 1] == a[b] ==> multiset(a)[a[b]] >= 2
  {
    assert a == a[..b - 1] + [a[b - 1], a[b]] + a[b + 1..];
  }

  /** With unique keys and the default order, the pages of every series of queries
      are the whole result in order. */
  lemma DefaultPages(rows: multiset<Row>, choices: seq<seq<Row>>, size: nat, whole: seq<Row>)
    requires UniqueKeys(rows) && |choices| * size >= |rows|
    requires forall c | c in choices :: Arranges([BY_KEY_DESC], rows, c)
    requires Arranges([BY_KEY_DESC], rows, whole)
    ensures Pages(choices, size, |choices|) == whole
  {
    forall i | 0 <= i < |choices| ensures choices[i] == whole {
      assert choices[i] in choices;
      DefaultArrangement(rows, whole, choices[i]);
    }
    PagesOfOne(choices, size, |choices|, whole);
    assert |whole| == |rows| && whole[..|whole|] == whole;
  }
}
