/** Options of store/where/where.go, whose chained methods update them in place,
    and List and Count of store/store.go over a table. */
module StoreList {
  import opened Paging

  type Filter = Row -> bool

  /** A query under construction: what GORM's handle accumulates. A limit of -1
      and an offset of 0 mean none. */
  datatype Query = Query(filters: seq<Filter>, orders: seq<Rank>, offset: int, limit: int)

  const RAW := Query([], [], 0, -1)

  predicate Passes(filters: seq<Filter>, r: Row) {
    forall i | 0 <= i < |filters| :: filters[i](r)
  }

  /** The rows that a query's conditions let through, in table order. */
  function Matching(table: seq<Row>, filters: seq<Filter>): seq<Row> {
    Keep(table, r => Passes(filters, r))
  }

  /** A row is matched as often as it is in the table if it meets every condition. */
  lemma MatchingExact(table: seq<Row>, filters: seq<Filter>, x: Row)
    ensures multiset(Matching(table, filters))[x] ==
            if forall i | 0 <= i < |filters| :: filters[i](x) then multiset(table)[x] else 0
  {
    KeepCount(table, r => Passes(filters, r), x);
  }

  predicate Ordered(orders: seq<Rank>, rows: seq<Row>) {
    forall i, j | 0 <= i < j < |rows| :: InOrder(orders, rows[i], rows[j])
  }

  predicate KeysFall(rows: seq<Row>) {
    forall i, j | 0 <= i < j < |rows| :: rows[i].key >= rows[j].key
  }

  lemma OneOrder(o: Rank, rows: seq<Row>)
    requires Ordered([o], rows)
    ensures forall i, j | 0 <= i < j < |rows| :: o(rows[i]) <= o(rows[j])
  {
    forall i, j | 0 <= i < j < |rows| ensures o(rows[i]) <= o(rows[j]) {
      assert InOrder([o], rows[i], rows[j]);
      var k :| 0 <= k <= 1 && FirstAt([o], rows[i], rows[j], k);
      assert k == 1 ==> [o][0](rows[i]) == [o][0](rows[j]);
    }
  }

  lemma SortedOrdered(orders: seq<Rank>, rows: seq<Row>)
    requires Sorted(orders, rows)
    ensures Ordered(orders, rows)
  {
    forall i, j | 0 <= i < j < |rows| ensures InOrder(orders, rows[i], rows[j]) {
      LeExact(orders, rows[i], rows[j]);
    }
  }

  lemma DefaultOrdered(table: seq<Row>, filters: seq<Filter>, rows: seq<Row>)
    requires Arranges([BY_KEY_DESC], multiset(Matching(table, filters)), rows)
    ensures KeysFall(rows) && (UniqueKeys(multiset(table)) ==> Descending(rows))
  {
    KeyDescExact(rows);
    if UniqueKeys(multiset(table)) {
      KeepUnique(table, r => Passes(filters, r));
      DefaultDescends(rows);
    }
  }

  /** A window of ordered rows is ordered. */
  lemma WindowOrdered(orders: seq<Rank>, rows: seq<Row>, offset: int, limit: int)
    ensures var w := Window(rows, offset, limit);
            && (Ordered(orders, rows) ==> Ordered(orders, w))
            && (KeysFall(rows) ==> KeysFall(w)) && (Descending(rows) ==> Descending(w))
  {
    var w := Window(rows, offset, limit);
    var from := if offset <= 0 then 0 else Min(offset, |rows|);
    assert forall i | 0 <= i < |w| :: w[i] == rows[from + i];
  }

  class Options {
    var offset: int
    var limit: int
    var queries: seq<Filter>
    var orders: seq<Rank>

    /** NewWhere */
    constructor ()
      ensures offset == 0 && limit == -1 && queries == [] && orders == []
    {
      offset, limit, queries, orders := 0, -1, [], [];
    }

    /** O and L, which replace what cannot be meant by the neutral value. */
    method O(n: int) returns (whr: Options)
      modifies this`offset
      ensures whr == this && offset == if n < 0 then 0 else n
    {
      offset := if n < 0 then 0 else n;
      return this;
    }

    method L(n: int) returns (whr: Options)
      modifies this`limit
      ensures whr == this && limit == if n <= 0 then -1 else n
    {
      limit := if n <= 0 then -1 else n;
      return this;
    }

    /** Page, in 64-bit arithmetic. */
    method Page(page: int, pageSize: int) returns (whr: Options)
      modifies this`offset, this`limit
      ensures whr == this && offset == PageOffset(page, pageSize) && limit == PageLimit(pageSize)
    {
      var p := if page < 1 then 1 else page;
      var s := if pageSize <= 0 then -1 else pageSize;
      offset := Wrap((p - 1) * s);
      limit := s;
      return this;
    }

    method AddQuery(q: Filter) returns (whr: Options)
      modifies this`queries
      ensures whr == this && queries == old(queries) + [q]
    {
      queries := queries + [q];
      return this;
    }

    method Order(o: Rank) returns (whr: Options)
      modifies this`orders
      ensures whr == this && orders == old(orders) + [o]
    {
      orders := orders + [o];
      return this;
    }

    /** CountOptions: a copy that keeps the conditions and drops the window and order. */
    method CountOptions() returns (whr: Options)
      ensures fresh(whr) && whr.queries == queries
      ensures whr.offset == 0 && whr.limit == -1 && whr.orders == []
    {
      whr := new Options();
      whr.queries := queries;
    }

    /** Where: push everything that is set onto the query. It writes nothing of its
        own, so the same options can be applied again and again. */
    method Where(db: Query) returns (q: Query)
      ensures q.filters == db.filters + queries && q.orders == db.orders + orders
      ensures q.offset == if offset > 0 then offset else db.offset
      ensures q.limit == if limit > 0 || limit == -1 then limit else db.limit
    {
      q := db;
      var i := 0;
      while i < |queries|
        invariant 0 <= i <= |queries|
        invariant q == db.(filters := db.filters + queries[..i])
      {
        q := q.(filters := q.filters + [queries[i]]);
        i := i + 1;
      }
      i := 0;
      while i < |orders|
        invariant 0 <= i <= |orders|
        invariant q == db.(filters := db.filters + queries, orders := db.orders + orders[..i])
      {
        q := q.(orders := q.orders + [orders[i]]);
        i := i + 1;
      }
      if offset > 0 {
        q := q.(offset := offset);
      }
      if limit > 0 || limit == -1 {
        q := q.(limit := limit);
      }
    }
  }

  class Store {
    var table: seq<Row>

    constructor (table: seq<Row>)
      ensures this.table == table
    {
      this.table := table;
    }

    ghost function OrdersOf(opts: Options?): seq<Rank>
      reads opts
    {
      if opts == null || opts.orders == [] then [BY_KEY_DESC] else opts.orders
    }

    ghost function MatchesOf(opts: Options?): seq<Row>
      reads this, opts
    {
      Matching(table, if opts == null then [] else opts.queries)
    }

    /** Count: the conditions only. */
    method Count(opts: Options?) returns (count: nat)
      ensures count == |MatchesOf(opts)|
    {
      var q := RAW;
      if opts != null {
        var c := opts.CountOptions();
        q := c.Where(q);
        assert q.filters == opts.queries;
      }
      count := |Matching(table, q.filters)|;
    }

    lemma ArrangementOrdered(opts: Options?, arrangement: seq<Row>)
      requires Arranges(OrdersOf(opts), multiset(MatchesOf(opts)), arrangement)
      ensures var ret := if opts == null then arrangement else Window(arrangement, opts.offset, opts.limit);
              if opts == null || opts.orders == [] then
                KeysFall(ret) && (UniqueKeys(multiset(table)) ==> Descending(ret))
              else Ordered(opts.orders, ret)
    {
      SortedOrdered(OrdersOf(opts), arrangement);
      if opts == null || opts.orders == [] {
        DefaultOrdered(table, if opts == null then [] else opts.queries, arrangement);
      }
      if opts != null {
        WindowOrdered(OrdersOf(opts), arrangement, opts.offset, opts.limit);
      }
    }

    /** Find: the rows that the query's own conditions let through, in an arrangement
        by the query's own orders that is the database's choice, and of it the
        query's own window. */
    method Find(q: Query, arrangement: seq<Row>) returns (ret: seq<Row>)
      requires Arranges(q.orders, multiset(Matching(table, q.filters)), arrangement)
      ensures ret == Window(arrangement, q.offset, q.limit)
    {
      ret := Window(arrangement, q.offset, q.limit);
    }

    /** List: the count of all matching rows, then the window of them. */
    method List(opts: Options?, arrangement: seq<Row>) returns (count: nat, ret: seq<Row>)
      requires Arranges(OrdersOf(opts), multiset(MatchesOf(opts)), arrangement)
      ensures count == |MatchesOf(opts)|
      ensures ret == if opts == null then arrangement
                     else Window(arrangement, opts.offset, opts.limit)
      ensures opts == null || opts.orders == [] ==> KeysFall(ret) && (UniqueKeys(multiset(table)) ==> Descending(ret))
      ensures opts != null && opts.orders != [] ==> Ordered(opts.orders, ret)
    {
      ArrangementOrdered(opts, arrangement);
      count := Count(opts);
      var listDB := RAW;
      if opts != null {
        listDB := opts.Where(listDB);
      }
      if opts == null || |opts.orders| == 0 {
        listDB := listDB.(orders := listDB.orders + [BY_KEY_DESC]);
      }
      assert listDB.filters == if opts == null then [] else opts.queries;
      assert listDB.orders == OrdersOf(opts);
      ret := Find(listDB, arrangement);
    }

    /** The chain NewWhere().Q(q).Order(o).Page(page, size) and its List. */
    method ListChain(q: Filter, o: Rank, page: int, size: int, arrangement: seq<Row>)
        returns (count: nat, rows: seq<Row>)
      requires size >= 1 && (page >= 1 ==> (page - 1) * size <= MAX_INT)
      requires Arranges([o], multiset(Matching(table, [q])), arrangement)
      ensures count == |Matching(table, [q])|
      ensures var from := if page < 1 then 0 else (page - 1) * size;
              from >= 0 && rows == Slice(arrangement, from, from + size)
      ensures forall i, j | 0 <= i < j < |rows| :: o(rows[i]) <= o(rows[j])
    {
      var whr := new Options();
      whr := whr.AddQuery(q);
      whr := whr.Order(o);
      whr := whr.Page(page, size);
      assert whr.queries == [q] && whr.orders == [o];
      PageExact(page, size);
      count, rows := List(whr, arrangement);
      OneOrder(o, rows);
    }

    /** One page, on options that set no order of their own. */
    method ReadPage(opts: Options, page: int, size: int, arrangement: seq<Row>) returns (count: nat, rows: seq<Row>)
      requires page >= 1 && size >= 1 && (page - 1) * size <= MAX_INT && opts.orders == []
      requires Arranges([BY_KEY_DESC], multiset(MatchesOf(opts)), arrangement)
      modifies opts`offset, opts`limit
      ensures MatchesOf(opts) == old(MatchesOf(opts)) && count == |MatchesOf(opts)|
      ensures (page - 1) * size >= 0
      ensures rows == Slice(arrangement, (page - 1) * size, (page - 1) * size + size)
    {
      PageShown(arrangement, page, size);
      var whr := opts.Page(page, size);
      count, rows := List(whr, arrangement);
    }

    /** Page 1, page 2 and so on, one after the other. */
    method ReadEach(opts: Options, size: nat, arrangements: seq<seq<Row>>) returns (all: seq<Row>)
      requires size >= 1 && |arrangements| * size <= MAX_INT && opts.orders == []
      requires forall a | a in arrangements :: Arranges([BY_KEY_DESC], multiset(MatchesOf(opts)), a)
      modifies opts`offset, opts`limit
      ensures MatchesOf(opts) == old(MatchesOf(opts))
      ensures all == Pages(arrangements, size, |arrangements|)
    {
      ghost var matches := MatchesOf(opts);
      all := [];
      var p := 0;
      while p < |arrangements|
        invariant 0 <= p <= |arrangements| && MatchesOf(opts) == matches
        invariant all == Pages(arrangements, size, p)
      {
        PageInRange(p, |arrangements|, size);
        assert arrangements[p] in arrangements;
        var count, rows := ReadPage(opts, p + 1, size, arrangements[p]);
        all := all + rows;
        p := p + 1;
      }
    }

    /** Reading page after page. With unique keys, the default order and no overflow,
        the pages are the matching rows, each once, by descending key, however the
        database arranges the result of each query. */
    method ReadPages(opts: Options, size: nat, arrangements: seq<seq<Row>>) returns (all: seq<Row>)
      requires size >= 1 && |MatchesOf(opts)| <= |arrangements| * size <= MAX_INT
      requires opts.orders == [] && UniqueKeys(multiset(table))
      requires forall a | a in arrangements :: Arranges([BY_KEY_DESC], multiset(MatchesOf(opts)), a)
      modifies opts`offset, opts`limit
      ensures Arranges([BY_KEY_DESC], multiset(MatchesOf(opts)), all)
      ensures multiset(all) == multiset(MatchesOf(opts)) && Descending(all)
    {
      AllPages(table, opts.queries, arrangements, size);
      all := ReadEach(opts, size, arrangements);
    }
  }

  lemma PageInRange(p: nat, pages: nat, size: nat)
    requires p < pages && 1 <= size && pages * size <= MAX_INT
    ensures 0 <= p * size <= MAX_INT
  {
    assert 0 <= p * size <= pages * size;
  }

  lemma AllPages(table: seq<Row>, queries: seq<Filter>, arrangements: seq<seq<Row>>, size: nat)
    requires UniqueKeys(multiset(table)) && |arrangements| * size >= |Matching(table, queries)|
    requires forall a | a in arrangements :: Arranges([BY_KEY_DESC], multiset(Matching(table, queries)), a)
    ensures Arranges([BY_KEY_DESC], multiset(Matching(table, queries)), Pages(arrangements, size, |arrangements|))
    ensures Descending(Pages(arrangements, size, |arrangements|))
  {
    var matches := Matching(table, queries);
    KeepUnique(table, r => Passes(queries, r));
    if arrangements == [] {
      assert matches == [];
    } else {
      assert arrangements[0] in arrangements;
      DefaultPages(multiset(matches), arrangements, size, arrangements[0]);
      DefaultDescends(arrangements[0]);
    }
  }
}
