/** The dashboard's series logic (app/page.tsx): the newest observation per
    symbol, and the per-date chart records sorted by date. Dates are compared
    as strings, with JavaScript's `<`. */
module Series {
  import opened LexOrder

  datatype Symbol = VIX | NIKKEI_VI

  datatype Option<T> = None | Some(value: T)

  /** One row of volatility_prices; the closing value is opaque. */
  datatype Row<V> = Row(date: string, symbol: Symbol, close: V)

  /** One chart record: a date and the closing value of each symbol that has
      a row on that date. */
  datatype ChartRow<V> = ChartRow(date: string, values: map<Symbol, V>)

  // ---------------------------------------------------------------------
  // latestBySymbol

  /** data[k] is the row latestBySymbol keeps for symbol s among the first n
      rows: of symbol s, no later row has a greater date, and every earlier
      row has a smaller one (so on ties the first is kept). */
  ghost predicate LatestAmong<V>(data: seq<Row<V>>, n: nat, s: Symbol, k: nat)
    requires n <= |data|
  {
    k < n && data[k].symbol == s
    && (forall j :: 0 <= j < k && data[j].symbol == s ==> Less(data[j].date, data[k].date))
    && (forall j :: k < j < n && data[j].symbol == s ==> !Less(data[k].date, data[j].date))
  }

  function SymbolsOf<V>(data: seq<Row<V>>, n: nat): (r: set<Symbol>)
    requires n <= |data|
  {
    set j | 0 <= j < n :: data[j].symbol
  }

  /** Row i does not displace the kept row k of symbol s when it has another
      symbol or a date that is not greater. */
  lemma LatestKeep<V>(data: seq<Row<V>>, i: nat, s: Symbol, k: nat)
    requires i < |data| && LatestAmong(data, i, s, k)
    requires data[i].symbol != s || !Less(data[k].date, data[i].date)
    ensures LatestAmong(data, i + 1, s, k)
  {
  }

  /** Row i, of symbol s and with a date greater than the kept row's,
      becomes the kept row. */
  lemma LatestTake<V>(data: seq<Row<V>>, i: nat, s: Symbol, k: nat)
    requires i < |data| && LatestAmong(data, i, s, k)
    requires data[i].symbol == s && Less(data[k].date, data[i].date)
    ensures LatestAmong(data, i + 1, s, i)
  {
    forall j | 0 <= j < i && data[j].symbol == s
      ensures Less(data[j].date, data[i].date)
    {
      if j < k {
        LessTransitive(data[j].date, data[k].date, data[i].date);
      } else if k < j {
        NotLessThenLess(data[j].date, data[k].date, data[i].date);
      }
    }
  }

  /** The first row of a symbol is kept for it. */
  lemma LatestFirst<V>(data: seq<Row<V>>, i: nat)
    requires i < |data| && data[i].symbol !in SymbolsOf(data, i)
    ensures LatestAmong(data, i + 1, data[i].symbol, i)
  {
    forall j | 0 <= j < i
      ensures data[j].symbol != data[i].symbol
    {
      assert data[j].symbol in SymbolsOf(data, i);
    }
  }

  /** The map latestBySymbol holds after the first n rows: a row replaces
      the kept row of its symbol when there is none or when its date is
      strictly greater. */
  function LatestFold<V>(data: seq<Row<V>>, n: nat): (r: map<Symbol, Row<V>>)
    requires n <= |data|
  {
    if n == 0 then map[]
    else
      var m := LatestFold(data, n - 1);
      var row := data[n - 1];
      if row.symbol !in m || Less(m[row.symbol].date, row.date) then m[row.symbol := row] else m
  }

  /** After n rows the map has exactly the symbols seen, each mapped to its
      newest row, the first of equal newest dates. */
  lemma {:induction false} LatestFoldMeaning<V>(data: seq<Row<V>>, n: nat)
    requires n <= |data|
    ensures LatestFold(data, n).Keys == SymbolsOf(data, n)
    ensures forall s :: s in LatestFold(data, n) ==>
              exists k :: 0 <= k < n && LatestAmong(data, n, s, k) && LatestFold(data, n)[s] == data[k]
  {
    if n > 0 {
      var i := n - 1;
      var m := LatestFold(data, i);
      var row := data[i];
      LatestFoldMeaning(data, i);
      assert SymbolsOf(data, n) == SymbolsOf(data, i) + {row.symbol};
      forall s | s in LatestFold(data, n)
        ensures exists k :: 0 <= k < n && LatestAmong(data, n, s, k) && LatestFold(data, n)[s] == data[k]
      {
        if s !in m {
          LatestFirst(data, i);
          assert LatestAmong(data, n, s, i);
        } else {
          var k :| 0 <= k < i && LatestAmong(data, i, s, k) && m[s] == data[k];
          if s == row.symbol && Less(m[s].date, row.date) {
            LatestTake(data, i, s, k);
            assert LatestAmong(data, n, s, i);
          } else {
            LatestKeep(data, i, s, k);
            assert LatestAmong(data, n, s, k);
          }
        }
      }
    }
  }

  /** The latestBySymbol reduction: a map with exactly the symbols present,
      each mapped to its newest row, the first one of equal newest dates. */
  method LatestBySymbol<V>(data: seq<Row<V>>) returns (latest: map<Symbol, Row<V>>)
    ensures latest.Keys == SymbolsOf(data, |data|)
    ensures forall s :: s in latest ==>
              exists k :: 0 <= k < |data| && LatestAmong(data, |data|, s, k) && latest[s] == data[k]
  {
    latest := map[];
    for i := 0 to |data|
      invariant latest == LatestFold(data, i)
    {
      var row := data[i];
      var existing := if row.symbol in latest then Some(latest[row.symbol]) else None;
      if existing.None? || Less(existing.value.date, row.date) {
        latest := latest[row.symbol := row];
      }
    }
    LatestFoldMeaning(data, |data|);
  }

  /** The row latestBySymbol keeps is determined by the rows alone. */
  lemma LatestUnique<V>(data: seq<Row<V>>, s: Symbol, k: nat, k': nat)
    requires LatestAmong(data, |data|, s, k) && LatestAmong(data, |data|, s, k')
    ensures k == k'
  {
    LessAsymmetric(data[k].date, data[k'].date);
  }

  // ---------------------------------------------------------------------
  // chartData

  function DatesOf<V>(data: seq<Row<V>>): (r: set<string>)
  {
    set j | 0 <= j < |data| :: data[j].date
  }

  /** The dates of data in the order a JavaScript Map first receives them
      as keys: a date already present keeps its place. */
  function FirstSeen<V>(data: seq<Row<V>>): (r: seq<string>)
    ensures forall d :: d in r <==> d in DatesOf(data)
    ensures forall p, q :: 0 <= p < q < |r| ==> r[p] != r[q]
  {
    if data == [] then []
    else
      var init := data[..|data| - 1];
      var f := FirstSeen(init);
      var d := data[|data| - 1].date;
      assert DatesOf(data) == DatesOf(init) + {d} by {
        forall e | e in DatesOf(data) ensures e in DatesOf(init) + {d} {
          var j :| 0 <= j < |data| && data[j].date == e;
          if j < |data| - 1 {
            assert init[j].date == e;
          }
        }
      }
      if d in f then f else f + [d]
  }

  /** FirstSeen lists the dates by their first row: the first row of an
      earlier date comes before every row of a later one. */
  lemma {:induction false} FirstSeenOrder<V>(data: seq<Row<V>>, p: nat, q: nat)
    requires p < q < |FirstSeen(data)|
    ensures exists i :: 0 <= i < |data| && data[i].date == FirstSeen(data)[p]
                        && forall j :: 0 <= j <= i ==> data[j].date != FirstSeen(data)[q]
  {
    var init := data[..|data| - 1];
    var f := FirstSeen(init);
    var r := FirstSeen(data);
    if q < |f| {
      FirstSeenOrder(init, p, q);
      var i :| 0 <= i < |init| && init[i].date == f[p] && forall j :: 0 <= j <= i ==> init[j].date != f[q];
      assert data[i].date == r[p];
      forall j | 0 <= j <= i
        ensures data[j].date != r[q]
      {
        assert data[j] == init[j];
      }
    } else {
      assert r[p] in DatesOf(init);
      var i :| 0 <= i < |init| && init[i].date == r[p];
      assert data[i].date == r[p];
      forall j | 0 <= j <= i
        ensures data[j].date != r[q]
      {
        assert init[j].date in DatesOf(init);
      }
    }
  }

  /** The byDate map after the rows of data have been written in order:
      each row creates its date's entry if missing, then sets its symbol. */
  function Group<V>(data: seq<Row<V>>): (r: map<string, map<Symbol, V>>)
  {
    if data == [] then map[]
    else
      var byDate := Group(data[..|data| - 1]);
      var row := data[|data| - 1];
      var entry := if row.date in byDate then byDate[row.date] else map[];
      byDate[row.date := entry[row.symbol := row.close]]
  }

  /** data[k] is the last row with date d and symbol s. */
  ghost predicate LastWrite<V>(data: seq<Row<V>>, d: string, s: Symbol, k: int)
  {
    0 <= k < |data| && data[k].date == d && data[k].symbol == s
    && forall j :: k < j < |data| ==> !(data[j].date == d && data[j].symbol == s)
  }

  /** One entry per distinct date. */
  lemma {:induction false} GroupKeys<V>(data: seq<Row<V>>)
    ensures Group(data).Keys == DatesOf(data)
  {
    if data != [] {
      var init := data[..|data| - 1];
      GroupKeys(init);
      assert DatesOf(data) == DatesOf(init) + {data[|data| - 1].date} by {
        forall d | d in DatesOf(data) ensures d in DatesOf(init) + {data[|data| - 1].date} {
          var j :| 0 <= j < |data| && data[j].date == d;
          if j < |data| - 1 {
            assert init[j].date == d;
          }
        }
      }
    }
  }

  /** How the last row changes the map. */
  lemma GroupLast<V>(data: seq<Row<V>>)
    requires data != []
    ensures var byDate := Group(data[..|data| - 1]);
            var row := data[|data| - 1];
            var entry := if row.date in byDate then byDate[row.date] else map[];
            Group(data) == byDate[row.date := entry[row.symbol := row.close]]
  {
  }

  /** The entry for date d has field s exactly when some row has (d, s). */
  lemma {:induction false} GroupFieldPresent<V>(data: seq<Row<V>>, d: string, s: Symbol)
    requires d in Group(data)
    ensures s in Group(data)[d] <==> exists k :: 0 <= k < |data| && data[k].date == d && data[k].symbol == s
  {
    var n := |data|;
    var init := data[..n - 1];
    var row := data[n - 1];
    GroupLast(data);
    if row.date == d && row.symbol == s {
      assert data[n - 1].date == d && data[n - 1].symbol == s;
    } else if d in Group(init) {
      GroupFieldPresent(init, d, s);
      assert s in Group(data)[d] <==> s in Group(init)[d];
      if exists k :: 0 <= k < n && data[k].date == d && data[k].symbol == s {
        var k :| 0 <= k < n && data[k].date == d && data[k].symbol == s;
        assert init[k].date == d && init[k].symbol == s;
      }
    } else {
      // d is first seen in the last row, which has another symbol
      GroupKeys(init);
      forall k | 0 <= k < n - 1
        ensures data[k].date != d
      {
        assert init[k].date in DatesOf(init);
      }
    }
  }

  /** The value of field s for date d is the close of the last row with
      (d, s): later rows overwrite earlier ones. */
  lemma {:induction false} GroupFieldValue<V>(data: seq<Row<V>>, d: string, s: Symbol)
    requires d in Group(data) && s in Group(data)[d]
    ensures exists k :: LastWrite(data, d, s, k) && Group(data)[d][s] == data[k].close
  {
    var n := |data|;
    var init := data[..n - 1];
    var row := data[n - 1];
    GroupLast(data);
    if row.date == d && row.symbol == s {
      assert LastWrite(data, d, s, n - 1);
    } else {
      assert d in Group(init) && s in Group(init)[d] && Group(data)[d][s] == Group(init)[d][s];
      GroupFieldValue(init, d, s);
      var k :| LastWrite(init, d, s, k) && Group(init)[d][s] == init[k].close;
      assert LastWrite(data, d, s, k);
    }
  }

  predicate StrictlyAscending<V>(rows: seq<ChartRow<V>>)
  {
    forall i, j :: 0 <= i < j < |rows| ==> Less(rows[i].date, rows[j].date)
  }

  predicate DistinctDates<V>(rows: seq<ChartRow<V>>)
  {
    forall i, j :: 0 <= i < j < |rows| ==> rows[i].date != rows[j].date
  }

  /** Inserting x where the dates before it are smaller and the one after it
      is greater keeps a sequence strictly ascending. */
  lemma InsertAscending<V>(sorted: seq<ChartRow<V>>, p: nat, x: ChartRow<V>)
    requires StrictlyAscending(sorted) && p <= |sorted|
    requires forall q :: 0 <= q < p ==> Less(sorted[q].date, x.date)
    requires p < |sorted| ==> Less(x.date, sorted[p].date)
    ensures StrictlyAscending(sorted[..p] + [x] + sorted[p..])
  {
    forall q | p < q < |sorted|
      ensures Less(x.date, sorted[q].date)
    {
      LessTransitive(x.date, sorted[p].date, sorted[q].date);
    }
    var r := sorted[..p] + [x] + sorted[p..];
    forall i, j | 0 <= i < j < |r|
      ensures Less(r[i].date, r[j].date)
    {
      if j < p {
        assert r[i] == sorted[i] && r[j] == sorted[j];
      } else if j == p {
        assert r[i] == sorted[i] && r[j] == x;
      } else if i < p {
        assert r[i] == sorted[i] && r[j] == sorted[j - 1];
        LessTransitive(sorted[i].date, x.date, sorted[j - 1].date);
      } else if i == p {
        assert r[i] == x && r[j] == sorted[j - 1];
      } else {
        assert r[i] == sorted[i - 1] && r[j] == sorted[j - 1];
      }
    }
  }

  /** One step of the sort: x goes after every record with a smaller date. */
  method InsertByDate<V>(sorted: seq<ChartRow<V>>, x: ChartRow<V>) returns (r: seq<ChartRow<V>>)
    requires StrictlyAscending(sorted)
    requires forall y :: y in sorted ==> y.date != x.date
    ensures multiset(r) == multiset(sorted) + multiset{x}
    ensures StrictlyAscending(r)
  {
    var p := 0;
    while p < |sorted| && Less(sorted[p].date, x.date)
      invariant 0 <= p <= |sorted|
      invariant forall q :: 0 <= q < p ==> Less(sorted[q].date, x.date)
    {
      p := p + 1;
    }
    if p < |sorted| {
      assert sorted[p] in sorted;
      LessTotal(sorted[p].date, x.date);
    }
    InsertAscending(sorted, p, x);
    assert sorted == sorted[..p] + sorted[p..];
    r := sorted[..p] + [x] + sorted[p..];
  }

  /** Array.prototype.sort with the comparator a.date < b.date ? -1 : ... on
      records of distinct dates: the same records, strictly ascending. */
  method SortByDate<V>(rows: seq<ChartRow<V>>) returns (sorted: seq<ChartRow<V>>)
    requires DistinctDates(rows)
    ensures multiset(sorted) == multiset(rows)
    ensures StrictlyAscending(sorted)
  {
    sorted := [];
    for i := 0 to |rows|
      invariant multiset(sorted) == multiset(rows[..i])
      invariant StrictlyAscending(sorted)
    {
      forall y | y in sorted
        ensures y.date != rows[i].date
      {
        assert y in multiset(rows[..i]);
      }
      assert rows[..i + 1] == rows[..i] + [rows[i]];
      sorted := InsertByDate(sorted, rows[i]);
    }
    assert rows[..|rows|] == rows;
  }

  /** One more row extends the grouping of a prefix as the loop body does. */
  lemma GroupStep<V>(data: seq<Row<V>>, i: nat)
    requires i < |data|
    ensures var byDate := Group(data[..i]);
            var entry := if data[i].date in byDate then byDate[data[i].date] else map[];
            Group(data[..i + 1]) == byDate[data[i].date := entry[data[i].symbol := data[i].close]]
  {
    assert data[..i + 1][..i] == data[..i];
    GroupLast(data[..i + 1]);
  }

  /** One more row extends FirstSeen of a prefix as the loop body does. */
  lemma FirstSeenStep<V>(data: seq<Row<V>>, i: nat)
    requires i < |data|
    ensures FirstSeen(data[..i + 1])
            == if data[i].date in FirstSeen(data[..i]) then FirstSeen(data[..i]) else FirstSeen(data[..i]) + [data[i].date]
  {
    assert data[..i + 1][..i] == data[..i];
  }

  /** Setting a key adds at most that key to a map's domain. */
  lemma KeysAfterUpdate<K, W>(m: map<K, W>, k: K, w: W)
    ensures |m[k := w].Keys| == if k in m then |m.Keys| else |m.Keys| + 1
  {
    if k in m {
      assert m[k := w].Keys == m.Keys;
    } else {
      assert m[k := w].Keys == m.Keys + {k};
    }
  }

  /** The grouping loop of chartData: byDate as a JavaScript Map, and its
      keys in insertion order (the order Array.from(byDate.values()) sees). */
  method GroupByDate<V>(data: seq<Row<V>>) returns (byDate: map<string, map<Symbol, V>>, order: seq<string>)
    ensures byDate == Group(data)
    ensures order == FirstSeen(data)
    ensures forall d :: d in order <==> d in byDate
    ensures forall p, q :: 0 <= p < q < |order| ==> order[p] != order[q]
    ensures |order| == |byDate.Keys|
  {
    byDate := map[];
    order := [];
    for i := 0 to |data|
      invariant byDate == Group(data[..i])
      invariant order == FirstSeen(data[..i])
      invariant forall d :: d in order <==> d in byDate
      invariant |order| == |byDate.Keys|
    {
      var row := data[i];
      GroupStep(data, i);
      FirstSeenStep(data, i);
      var entry := if row.date in byDate then byDate[row.date] else map[];
      KeysAfterUpdate(byDate, row.date, entry[row.symbol := row.close]);
      if row.date !in byDate {
        order := order + [row.date];
      }
      byDate := byDate[row.date := entry[row.symbol := row.close]];
    }
    assert data[..|data|] == data;
  }

  /** chartData: one record per distinct date, strictly ascending by date,
      each holding the grouped values of its date. */
  method ChartData<V>(data: seq<Row<V>>) returns (chart: seq<ChartRow<V>>)
    ensures |chart| == |DatesOf(data)|
    ensures StrictlyAscending(chart)
    ensures forall i :: 0 <= i < |chart| ==>
              chart[i].date in Group(data) && chart[i].values == Group(data)[chart[i].date]
    ensures forall d :: d in DatesOf(data) ==> exists i :: 0 <= i < |chart| && chart[i].date == d
  {
    var byDate, order := GroupByDate(data);
    GroupKeys(data);
    var records := seq(|order|, k requires 0 <= k < |order| => ChartRow(order[k], byDate[order[k]]));
    chart := SortByDate(records);
    assert |chart| == |multiset(chart)| == |multiset(records)| == |records|;
    forall i | 0 <= i < |chart|
      ensures chart[i].date in Group(data) && chart[i].values == Group(data)[chart[i].date]
    {
      assert chart[i] in multiset(records);
    }
    forall d | d in DatesOf(data)
      ensures exists i :: 0 <= i < |chart| && chart[i].date == d
    {
      var k :| 0 <= k < |order| && order[k] == d;
      assert records[k] in multiset(chart);
    }
  }
}
