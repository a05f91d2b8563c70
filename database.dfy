/**
 * The reading store of database.py: the append-only sensor_data table and its
 * two read queries. The table is a sequence of rows in insertion order; each
 * SQL query is restated as a function over that sequence.
 */
module Database {
  import opened Telemetry
  import opened Sequences

  /** One row of sensor_data (received_at, a wall-clock default, is not modelled). */
  datatype Row = Row(id: int, groupId: string, timestamp: real, payload: Reading)

  /** A row as the queries hand it back: the id is dropped, the payload decoded. */
  datatype Record = Record(groupId: string, timestamp: real, sensorData: Reading)

  /** The default LIMIT of get_group_history. */
  const DEFAULT_HISTORY_LIMIT: int := 10

  // ---------------------------------------------------------------------------
  // Ordering of TEXT under SQLite's BINARY collation: UTF-8 byte order, which
  // is code-point order, a proper prefix first.
  // ---------------------------------------------------------------------------

  predicate TextLe(a: string, b: string)
  {
    if a == [] then true
    else if b == [] then false
    else if a[0] != b[0] then a[0] < b[0]
    else TextLe(a[1..], b[1..])
  }

  lemma {:induction false} TextLeTotal(a: string, b: string)
    ensures TextLe(a, b) || TextLe(b, a)
  {
    if a != [] && b != [] && a[0] == b[0] {
      TextLeTotal(a[1..], b[1..]);
    }
  }

  lemma {:induction false} TextLeTransitive(a: string, b: string, c: string)
    requires TextLe(a, b) && TextLe(b, c)
    ensures TextLe(a, c)
  {
    if a != [] && b != [] && c != [] && a[0] == b[0] && b[0] == c[0] {
      TextLeTransitive(a[1..], b[1..], c[1..]);
    }
  }

  /** ORDER BY group_id. */
  predicate ByGroup(a: Row, b: Row)
  {
    TextLe(a.groupId, b.groupId)
  }

  /** ORDER BY timestamp DESC. */
  predicate NewerFirst(a: Row, b: Row)
  {
    a.timestamp >= b.timestamp
  }

  lemma ByGroupIsTotalPreorder()
    ensures TotalPreorder(ByGroup)
  {
    forall a: Row, b: Row
      ensures ByGroup(a, b) || ByGroup(b, a)
    {
      TextLeTotal(a.groupId, b.groupId);
    }
    forall a: Row, b: Row, c: Row | ByGroup(a, b) && ByGroup(b, c)
      ensures ByGroup(a, c)
    {
      TextLeTransitive(a.groupId, b.groupId, c.groupId);
    }
  }

  lemma NewerFirstIsTotalPreorder()
    ensures TotalPreorder(NewerFirst)
  {
  }

  // ---------------------------------------------------------------------------
  // get_latest_data_all_groups: the rows whose timestamp equals their group's
  // MAX(timestamp), ordered by group_id.
  // ---------------------------------------------------------------------------

  /** `r` has the largest timestamp among the rows of its group in `table`. */
  predicate IsGroupMax(table: seq<Row>, r: Row)
  {
    forall i :: 0 <= i < |table| && table[i].groupId == r.groupId ==> table[i].timestamp <= r.timestamp
  }

  /** The rows of `s` that the join with the per-group MAX(timestamp) of `table` keeps. */
  function JoinMax(table: seq<Row>, s: seq<Row>): (r: seq<Row>)
    ensures forall x :: x in r <==> x in s && IsGroupMax(table, x)
    ensures multiset(r) <= multiset(s)
  {
    if s == [] then []
    else
      var init, last := s[..|s| - 1], s[|s| - 1];
      assert s == init + [last];
      JoinMax(table, init) + (if IsGroupMax(table, last) then [last] else [])
  }

  /**
   * The latest-per-group query. Where ORDER BY group_id leaves the order of
   * rows of one group open, the model keeps table order.
   */
  function LatestRows(rows: seq<Row>): (r: seq<Row>)
    ensures forall x :: x in r <==> x in rows && IsGroupMax(rows, x)
    ensures multiset(r) <= multiset(rows)
  {
    var maxima := JoinMax(rows, rows);
    var sorted := SortBy(maxima, ByGroup);
    assert forall x :: x in sorted <==> x in multiset(sorted);
    assert forall x :: x in maxima <==> x in multiset(maxima);
    sorted
  }

  // ---------------------------------------------------------------------------
  // get_group_history: WHERE group_id = ? ORDER BY timestamp DESC LIMIT ?
  // ---------------------------------------------------------------------------

  /** The rows of `s` whose group is `g`, in table order. */
  function WhereGroup(s: seq<Row>, g: string): (r: seq<Row>)
    ensures forall x :: x in r <==> x in s && x.groupId == g
    ensures multiset(r) <= multiset(s)
  {
    if s == [] then []
    else
      var init, last := s[..|s| - 1], s[|s| - 1];
      assert s == init + [last];
      WhereGroup(init, g) + (if last.groupId == g then [last] else [])
  }

  /** LIMIT n as SQLite applies it: a negative n means no limit. */
  function Limit<T>(s: seq<T>, n: int): (r: seq<T>)
    ensures r <= s
    ensures 0 <= n ==> |r| <= n
    ensures |r| < |s| ==> |r| == n
  {
    if 0 <= n < |s| then s[..n] else s
  }

  /** The history query. Rows of equal timestamp keep table order. */
  function HistoryRows(rows: seq<Row>, g: string, limit: int): (r: seq<Row>)
    ensures forall x :: x in r ==> x in rows && x.groupId == g
    ensures 0 <= limit ==> |r| <= limit
  {
    var selected := WhereGroup(rows, g);
    var sorted := SortBy(selected, NewerFirst);
    var r := Limit(sorted, limit);
    assert forall x :: x in r ==> x in sorted;
    assert forall x :: x in sorted ==> x in multiset(selected);
    r
  }

  // ---------------------------------------------------------------------------
  // The table and the three operations of database.py.
  // ---------------------------------------------------------------------------

  /** The dictionary a query builds from a row: the id (and received_at) dropped, the payload decoded. */
  function ToRecord(r: Row): (rec: Record)
    ensures rec.groupId == r.groupId && rec.timestamp == r.timestamp && rec.sensorData == r.payload
  {
    Record(r.groupId, r.timestamp, r.payload)
  }

  function ToRecords(rows: seq<Row>): (r: seq<Record>)
    ensures |r| == |rows|
    ensures forall i :: 0 <= i < |rows| ==> r[i] == ToRecord(rows[i])
  {
    seq(|rows|, i requires 0 <= i < |rows| => ToRecord(rows[i]))
  }

  /** The sensor_data table. */
  class SensorTable {
    /** The rows, in insertion order. */
    var rows: seq<Row>
    /** The AUTOINCREMENT counter: the largest id ever handed out (0 before any insert). */
    var lastId: int

    /** Ids are positive, strictly increasing in insertion order, and never above the counter. */
    ghost predicate Valid()
      reads this
    {
      && 0 <= lastId
      && (forall i :: 0 <= i < |rows| ==> 1 <= rows[i].id <= lastId)
      && (forall i, j :: 0 <= i < j < |rows| ==> rows[i].id < rows[j].id)
    }

    /** A freshly created, empty table. */
    constructor ()
      ensures Valid()
      ensures rows == [] && lastId == 0
    {
      rows := [];
      lastId := 0;
    }

    /** save_sensor_data: one INSERT; the new row gets the next AUTOINCREMENT id. */
    method SaveSensorData(groupId: string, timestamp: real, sensorData: Reading)
      requires Valid()
      modifies this
      ensures Valid()
      ensures lastId == old(lastId) + 1
      ensures rows == old(rows) + [Row(lastId, groupId, timestamp, sensorData)]
      ensures forall r :: r in old(rows) ==> r.id < lastId
    {
      lastId := lastId + 1;
      rows := rows + [Row(lastId, groupId, timestamp, sensorData)];
    }

    /** get_latest_data_all_groups. */
    function GetLatestDataAllGroups(): (result: seq<Record>)
      reads this
      ensures |result| <= |rows|
      ensures forall i :: 0 <= i < |result| ==> IsMaxRecord(rows, result[i])
      ensures forall x :: x in rows && IsGroupMax(rows, x) ==> ToRecord(x) in result
      ensures forall x :: x in rows ==> exists i :: 0 <= i < |result| && result[i].groupId == x.groupId
      ensures forall i, j :: 0 <= i < j < |result| ==> TextLe(result[i].groupId, result[j].groupId)
      ensures DistinctTimestampsPerGroup(rows) ==>
        forall i, j :: 0 <= i < j < |result| ==> result[i].groupId != result[j].groupId
      ensures result == ToRecords(LatestRows(rows))
    {
      LatestRecords(rows);
      assert DistinctTimestampsPerGroup(rows) ==>
        var result := ToRecords(LatestRows(rows));
        forall i, j :: 0 <= i < j < |result| ==> result[i].groupId != result[j].groupId
      by {
        if DistinctTimestampsPerGroup(rows) {
          LatestRecordsOnePerGroup(rows);
        }
      }
      ToRecords(LatestRows(rows))
    }

    /** get_group_history. */
    function GetGroupHistory(groupId: string, limit: int): (result: seq<Record>)
      reads this
      ensures 0 <= limit ==> |result| <= limit
      ensures limit < 0 || |result| < limit ==> |result| == |WhereGroup(rows, groupId)|
      ensures forall i :: 0 <= i < |result| ==> IsGroupRecord(rows, groupId, result[i])
      ensures forall x, i :: (x in rows && x.groupId == groupId && 0 <= i < |result|
                              && x.timestamp > result[i].timestamp) ==> ToRecord(x) in result
      ensures forall i, j :: 0 <= i < j < |result| ==> result[i].timestamp >= result[j].timestamp
      ensures result == ToRecords(HistoryRows(rows, groupId, limit))
    {
      HistoryRecords(rows, groupId, limit);
      ToRecords(HistoryRows(rows, groupId, limit))
    }
  }

  // ---------------------------------------------------------------------------
  // Properties of the latest-per-group query.
  // ---------------------------------------------------------------------------

  /**
   * A row is returned iff it is in the table and has its group's largest
   * timestamp: every row of a tie is returned, and no other row.
   */
  lemma LatestRowsAreGroupMaxima(rows: seq<Row>)
    ensures forall x :: x in LatestRows(rows) <==> x in rows && IsGroupMax(rows, x)
    ensures multiset(LatestRows(rows)) <= multiset(rows)
    ensures |LatestRows(rows)| <= |rows|
  {
    SubMultisetLength(LatestRows(rows), rows);
  }

  /** `rec` is the record of a row holding its group's largest timestamp. */
  predicate IsMaxRecord(rows: seq<Row>, rec: Record)
  {
    exists x :: x in rows && IsGroupMax(rows, x) && rec == ToRecord(x)
  }

  /**
   * The records of a sequence of rows that holds exactly the rows with their
   * group's largest timestamp, a row of every group, in group_id order.
   */
  lemma MaximaRecords(rows: seq<Row>, latest: seq<Row>)
    requires forall x :: x in latest <==> x in rows && IsGroupMax(rows, x)
    requires forall x :: x in rows ==> exists k :: 0 <= k < |latest| && latest[k].groupId == x.groupId
    requires Sorted(latest, ByGroup)
    ensures var result := ToRecords(latest);
      && (forall i :: 0 <= i < |result| ==> IsMaxRecord(rows, result[i]))
      && (forall x :: x in rows && IsGroupMax(rows, x) ==> ToRecord(x) in result)
      && (forall x :: x in rows ==> exists i :: 0 <= i < |result| && result[i].groupId == x.groupId)
      && (forall i, j :: 0 <= i < j < |result| ==> TextLe(result[i].groupId, result[j].groupId))
  {
    var result := ToRecords(latest);
    forall i | 0 <= i < |result|
      ensures IsMaxRecord(rows, result[i])
    {
      var x := latest[i];
      assert x in latest;
      assert x in rows && IsGroupMax(rows, x) && result[i] == ToRecord(x);
    }
    forall x | x in rows && IsGroupMax(rows, x)
      ensures ToRecord(x) in result
    {
      var k :| 0 <= k < |latest| && latest[k] == x;
      assert result[k] == ToRecord(x);
    }
    forall x | x in rows
      ensures exists i :: 0 <= i < |result| && result[i].groupId == x.groupId
    {
      var k :| 0 <= k < |latest| && latest[k].groupId == x.groupId;
      assert result[k].groupId == x.groupId;
    }
    forall i, j | 0 <= i < j < |result|
      ensures TextLe(result[i].groupId, result[j].groupId)
    {
      assert ByGroup(latest[i], latest[j]);
    }
  }

  /**
   * What get_latest_data_all_groups hands back: the records of exactly the
   * rows holding their group's largest timestamp, at least one for every
   * group with rows, in group_id order.
   */
  lemma LatestRecords(rows: seq<Row>)
    ensures var result := ToRecords(LatestRows(rows));
      && |result| <= |rows|
      && (forall i :: 0 <= i < |result| ==> IsMaxRecord(rows, result[i]))
      && (forall x :: x in rows && IsGroupMax(rows, x) ==> ToRecord(x) in result)
      && (forall x :: x in rows ==> exists i :: 0 <= i < |result| && result[i].groupId == x.groupId)
      && (forall i, j :: 0 <= i < j < |result| ==> TextLe(result[i].groupId, result[j].groupId))
  {
    var latest := LatestRows(rows);
    LatestRowsAreGroupMaxima(rows);
    LatestOrderedByGroup(rows);
    forall x | x in rows
      ensures exists k :: 0 <= k < |latest| && latest[k].groupId == x.groupId
    {
      var p :| 0 <= p < |rows| && rows[p] == x;
      LatestCoversEveryGroup(rows, x.groupId);
    }
    MaximaRecords(rows, latest);
  }

  /** With distinct timestamps within each group, the dashboard has one record per group. */
  lemma LatestRecordsOnePerGroup(rows: seq<Row>)
    requires DistinctTimestampsPerGroup(rows)
    ensures var result := ToRecords(LatestRows(rows));
      forall i, j :: 0 <= i < j < |result| ==> result[i].groupId != result[j].groupId
  {
    LatestOnePerGroup(rows);
    DistinctGroupRecords(LatestRows(rows));
  }

  /** Rows of pairwise different groups give records of pairwise different groups. */
  lemma DistinctGroupRecords(s: seq<Row>)
    requires forall i, j :: 0 <= i < j < |s| ==> s[i].groupId != s[j].groupId
    ensures forall i, j :: 0 <= i < j < |ToRecords(s)| ==> ToRecords(s)[i].groupId != ToRecords(s)[j].groupId
  {
  }

  /** The result is ordered by group_id. */
  lemma LatestOrderedByGroup(rows: seq<Row>)
    ensures Sorted(LatestRows(rows), ByGroup)
  {
    ByGroupIsTotalPreorder();
    SortBySorted(JoinMax(rows, rows), ByGroup);
  }

  /** Every group that has a row has a row with its largest timestamp. */
  lemma {:induction false} GroupHasMax(rows: seq<Row>, g: string)
    requires exists i :: 0 <= i < |rows| && rows[i].groupId == g
    ensures exists m :: m in rows && m.groupId == g && IsGroupMax(rows, m)
  {
    var init, last := rows[..|rows| - 1], rows[|rows| - 1];
    assert rows == init + [last];
    if exists i :: 0 <= i < |init| && init[i].groupId == g {
      GroupHasMax(init, g);
      var m :| m in init && m.groupId == g && IsGroupMax(init, m);
      if last.groupId == g && last.timestamp > m.timestamp {
        assert IsGroupMax(rows, last) by {
          forall i | 0 <= i < |rows| && rows[i].groupId == last.groupId
            ensures rows[i].timestamp <= last.timestamp
          {
            if i < |init| {
              assert rows[i] == init[i];
            }
          }
        }
      } else {
        assert IsGroupMax(rows, m) by {
          forall i | 0 <= i < |rows| && rows[i].groupId == m.groupId
            ensures rows[i].timestamp <= m.timestamp
          {
            if i < |init| {
              assert rows[i] == init[i];
            }
          }
        }
      }
    } else {
      assert last.groupId == g;
      assert IsGroupMax(rows, last);
    }
  }

  /**
   * A group appears in the result iff it has a row in the table; in
   * particular an empty table gives an empty result.
   */
  lemma LatestCoversEveryGroup(rows: seq<Row>, g: string)
    ensures (exists i :: 0 <= i < |rows| && rows[i].groupId == g)
        <==> (exists j :: 0 <= j < |LatestRows(rows)| && LatestRows(rows)[j].groupId == g)
    ensures rows == [] ==> LatestRows(rows) == []
  {
    var latest := LatestRows(rows);
    LatestRowsAreGroupMaxima(rows);
    if exists i :: 0 <= i < |rows| && rows[i].groupId == g {
      GroupHasMax(rows, g);
      var m :| m in rows && m.groupId == g && IsGroupMax(rows, m);
      assert m in latest;
      var j :| 0 <= j < |latest| && latest[j] == m;
    }
    if exists j :: 0 <= j < |latest| && latest[j].groupId == g {
      var j :| 0 <= j < |latest| && latest[j].groupId == g;
      assert latest[j] in rows;
    }
  }

  /** Within each group no two rows share a timestamp. */
  predicate DistinctTimestampsPerGroup(rows: seq<Row>)
  {
    forall i, j :: 0 <= i < j < |rows| && rows[i].groupId == rows[j].groupId ==>
      rows[i].timestamp != rows[j].timestamp
  }

  /**
   * When timestamps are distinct within each group, group ids in the result
   * strictly increase, so no group appears twice; with LatestCoversEveryGroup,
   * each group with rows appears exactly once.
   */
  lemma LatestOnePerGroup(rows: seq<Row>)
    requires DistinctTimestampsPerGroup(rows)
    ensures forall i, j :: 0 <= i < j < |LatestRows(rows)| ==>
      TextLe(LatestRows(rows)[i].groupId, LatestRows(rows)[j].groupId)
      && LatestRows(rows)[i].groupId != LatestRows(rows)[j].groupId
  {
    var latest := LatestRows(rows);
    LatestRowsAreGroupMaxima(rows);
    LatestOrderedByGroup(rows);
    assert Distinct(rows);
    SubMultisetDistinct(latest, rows);
    forall i, j | 0 <= i < j < |latest|
      ensures latest[i].groupId != latest[j].groupId
    {
      assert latest[i] in latest && latest[j] in latest;
      GroupMaxIsUnique(rows, latest[i], latest[j]);
    }
  }

  /** With distinct timestamps within each group, a group has one row attaining its maximum. */
  lemma GroupMaxIsUnique(rows: seq<Row>, a: Row, b: Row)
    requires DistinctTimestampsPerGroup(rows)
    requires a in rows && IsGroupMax(rows, a)
    requires b in rows && IsGroupMax(rows, b)
    ensures a.groupId == b.groupId ==> a == b
  {
    var p :| 0 <= p < |rows| && rows[p] == a;
    var q :| 0 <= q < |rows| && rows[q] == b;
    if a.groupId == b.groupId {
      assert a.timestamp == b.timestamp;
      assert !(p < q) && !(q < p);
    }
  }

  /**
   * Inserting a reading older than one already stored for its group leaves
   * the latest-per-group result unchanged: timestamps, not arrival order,
   * decide which row is latest.
   */
  lemma StaleReadingKeepsLatest(rows: seq<Row>, x: Row)
    requires exists i :: 0 <= i < |rows| && rows[i].groupId == x.groupId && x.timestamp < rows[i].timestamp
    ensures LatestRows(rows + [x]) == LatestRows(rows)
  {
    var rows' := rows + [x];
    assert !IsGroupMax(rows', x) by {
      var i :| 0 <= i < |rows| && rows[i].groupId == x.groupId && x.timestamp < rows[i].timestamp;
      assert rows'[i] == rows[i];
    }
    JoinMaxSnoc(rows', rows, x);
    JoinMaxStable(rows, x, rows);
    assert JoinMax(rows', rows') == JoinMax(rows, rows);
  }

  lemma JoinMaxSnoc(table: seq<Row>, s: seq<Row>, y: Row)
    ensures JoinMax(table, s + [y]) == JoinMax(table, s) + (if IsGroupMax(table, y) then [y] else [])
  {
    assert (s + [y])[..|s|] == s;
  }

  /** A row of the table stays a group maximum, or not one, when an older row of a group joins. */
  lemma GroupMaxStable(rows: seq<Row>, x: Row, y: Row)
    requires exists i :: 0 <= i < |rows| && rows[i].groupId == x.groupId && x.timestamp < rows[i].timestamp
    requires y in rows
    ensures IsGroupMax(rows + [x], y) == IsGroupMax(rows, y)
  {
    var rows' := rows + [x];
    if IsGroupMax(rows, y) && y.groupId == x.groupId {
      var i :| 0 <= i < |rows| && rows[i].groupId == x.groupId && x.timestamp < rows[i].timestamp;
      assert x.timestamp <= y.timestamp;
    }
    if IsGroupMax(rows', y) {
      forall i | 0 <= i < |rows| && rows[i].groupId == y.groupId
        ensures rows[i].timestamp <= y.timestamp
      {
        assert rows'[i] == rows[i];
      }
    }
  }

  /** The join keeps the same rows of `s` after an older row of a group joins the table. */
  lemma {:induction false} JoinMaxStable(rows: seq<Row>, x: Row, s: seq<Row>)
    requires exists i :: 0 <= i < |rows| && rows[i].groupId == x.groupId && x.timestamp < rows[i].timestamp
    requires forall y :: y in s ==> y in rows
    ensures JoinMax(rows + [x], s) == JoinMax(rows, s)
  {
    if s != [] {
      var init, last := s[..|s| - 1], s[|s| - 1];
      assert s == init + [last];
      JoinMaxStable(rows, x, init);
      GroupMaxStable(rows, x, last);
    }
  }

  /**
   * Inserting a reading newer than every row of its group makes it the
   * group's only row in the latest-per-group result.
   */
  lemma NewestReadingBecomesLatest(rows: seq<Row>, x: Row)
    requires forall i :: 0 <= i < |rows| && rows[i].groupId == x.groupId ==> rows[i].timestamp < x.timestamp
    ensures x in LatestRows(rows + [x])
    ensures forall y :: y in LatestRows(rows + [x]) && y.groupId == x.groupId ==> y == x
  {
    var rows' := rows + [x];
    LatestRowsAreGroupMaxima(rows');
    assert IsGroupMax(rows', x) by {
      forall i | 0 <= i < |rows'| && rows'[i].groupId == x.groupId
        ensures rows'[i].timestamp <= x.timestamp
      {
        if i < |rows| {
          assert rows'[i] == rows[i];
        }
      }
    }
    forall y | y in LatestRows(rows') && y.groupId == x.groupId
      ensures y == x
    {
      assert y in rows' && IsGroupMax(rows', y);
      assert rows'[|rows|] == x;
      assert x.timestamp <= y.timestamp;
    }
  }

  // ---------------------------------------------------------------------------
  // Properties of the history query.
  // ---------------------------------------------------------------------------

  /**
   * Every returned row is a row of the table of the requested group; no row
   * is returned more often than the table holds it; at most `limit` rows
   * are returned when `limit` is not negative, and fewer only when the group
   * has no more rows.
   */
  lemma HistoryRowsOfGroup(rows: seq<Row>, g: string, limit: int)
    ensures forall x :: x in HistoryRows(rows, g, limit) ==> x in rows && x.groupId == g
    ensures multiset(HistoryRows(rows, g, limit)) <= multiset(rows)
    ensures 0 <= limit ==> |HistoryRows(rows, g, limit)| <= limit
    ensures limit < 0 || |HistoryRows(rows, g, limit)| < limit ==>
      |HistoryRows(rows, g, limit)| == |WhereGroup(rows, g)|
  {
    var sorted := SortBy(WhereGroup(rows, g), NewerFirst);
    var h := HistoryRows(rows, g, limit);
    assert sorted == h + sorted[|h|..];
    assert multiset(sorted) == multiset(h) + multiset(sorted[|h|..]);
    forall x | x in h
      ensures x in rows && x.groupId == g
    {
      assert x in multiset(sorted);
    }
    assert |multiset(sorted)| == |multiset(WhereGroup(rows, g))|;
  }

  /** `rec` is the record of a row of group `g`. */
  predicate IsGroupRecord(rows: seq<Row>, g: string, rec: Record)
  {
    exists x :: x in rows && x.groupId == g && rec == ToRecord(x)
  }

  /**
   * The records of a newest-first selection of group `g`'s rows that leaves
   * out no row newer than one it keeps.
   */
  lemma TopRecords(rows: seq<Row>, g: string, history: seq<Row>)
    requires forall x :: x in history ==> x in rows && x.groupId == g
    requires forall x, y :: x in rows && x.groupId == g && x !in history && y in history ==> x.timestamp <= y.timestamp
    requires forall i, j :: 0 <= i < j < |history| ==> history[i].timestamp >= history[j].timestamp
    ensures var result := ToRecords(history);
      && (forall i :: 0 <= i < |result| ==> IsGroupRecord(rows, g, result[i]))
      && (forall x, i :: (x in rows && x.groupId == g && 0 <= i < |result|
                          && x.timestamp > result[i].timestamp) ==> ToRecord(x) in result)
      && (forall i, j :: 0 <= i < j < |result| ==> result[i].timestamp >= result[j].timestamp)
  {
    var result := ToRecords(history);
    forall i | 0 <= i < |result|
      ensures IsGroupRecord(rows, g, result[i])
    {
      var x := history[i];
      assert x in history;
      assert x in rows && x.groupId == g && result[i] == ToRecord(x);
    }
    forall x, i | x in rows && x.groupId == g && 0 <= i < |result| && x.timestamp > result[i].timestamp
      ensures ToRecord(x) in result
    {
      assert history[i] in history;
      var k :| 0 <= k < |history| && history[k] == x;
      assert result[k] == ToRecord(x);
    }
  }

  /**
   * What get_group_history hands back: records of the group's rows, newest
   * first, at most `limit`, all of the group when the limit is negative or
   * not reached, and never skipping a row newer than one it returns.
   */
  lemma HistoryRecords(rows: seq<Row>, g: string, limit: int)
    ensures var result := ToRecords(HistoryRows(rows, g, limit));
      && (0 <= limit ==> |result| <= limit)
      && (limit < 0 || |result| < limit ==> |result| == |WhereGroup(rows, g)|)
      && (forall i :: 0 <= i < |result| ==> IsGroupRecord(rows, g, result[i]))
      && (forall x, i :: (x in rows && x.groupId == g && 0 <= i < |result|
                          && x.timestamp > result[i].timestamp) ==> ToRecord(x) in result)
      && (forall i, j :: 0 <= i < j < |result| ==> result[i].timestamp >= result[j].timestamp)
  {
    HistoryRowsOfGroup(rows, g, limit);
    HistoryNewestFirst(rows, g, limit);
    HistoryIsTopOfGroup(rows, g, limit);
    TopRecords(rows, g, HistoryRows(rows, g, limit));
  }

  /** The rows come newest first. */
  lemma HistoryNewestFirst(rows: seq<Row>, g: string, limit: int)
    ensures forall i, j :: 0 <= i < j < |HistoryRows(rows, g, limit)| ==>
      HistoryRows(rows, g, limit)[i].timestamp >= HistoryRows(rows, g, limit)[j].timestamp
  {
    var sorted := SortBy(WhereGroup(rows, g), NewerFirst);
    NewerFirstIsTotalPreorder();
    SortBySorted(WhereGroup(rows, g), NewerFirst);
    var h := HistoryRows(rows, g, limit);
    forall i, j | 0 <= i < j < |h|
      ensures h[i].timestamp >= h[j].timestamp
    {
      assert h[i] == sorted[i] && h[j] == sorted[j];
      assert NewerFirst(sorted[i], sorted[j]);
    }
  }

  /**
   * The history is the top of the group: a row of the group that is not
   * returned is no newer than any row that is.
   */
  lemma HistoryIsTopOfGroup(rows: seq<Row>, g: string, limit: int)
    ensures forall x, y ::
      (x in rows && x.groupId == g && x !in HistoryRows(rows, g, limit) && y in HistoryRows(rows, g, limit))
      ==> x.timestamp <= y.timestamp
  {
    var sorted := SortBy(WhereGroup(rows, g), NewerFirst);
    NewerFirstIsTotalPreorder();
    SortBySorted(WhereGroup(rows, g), NewerFirst);
    var h := HistoryRows(rows, g, limit);
    assert h == sorted[..|h|];
    forall x, y | x in rows && x.groupId == g && x !in h && y in h
      ensures x.timestamp <= y.timestamp
    {
      assert x in multiset(sorted);
      var p :| 0 <= p < |sorted| && sorted[p] == x;
      var q :| 0 <= q < |h| && h[q] == y;
      assert sorted[q] == y;
      assert NewerFirst(sorted[q], sorted[p]);
    }
  }

  /** A group without rows, valid or not, has an empty history. */
  lemma HistoryOfUnknownGroup(rows: seq<Row>, g: string, limit: int)
    requires forall i :: 0 <= i < |rows| ==> rows[i].groupId != g
    ensures HistoryRows(rows, g, limit) == []
  {
    var w := WhereGroup(rows, g);
    if w != [] {
      assert w[0] in rows;
    }
  }

  /**
   * A saved row is visible at once: its group has a non-empty history for
   * every limit other than 0, and a row in the latest-per-group result.
   */
  lemma SavedRowIsVisible(rows: seq<Row>, x: Row, limit: int)
    requires limit != 0
    ensures HistoryRows(rows + [x], x.groupId, limit) != []
    ensures exists y :: y in LatestRows(rows + [x]) && y.groupId == x.groupId
  {
    var rows' := rows + [x];
    assert rows'[|rows|] == x;
    assert x in WhereGroup(rows', x.groupId);
    var sorted := SortBy(WhereGroup(rows', x.groupId), NewerFirst);
    assert x in multiset(sorted);
    LatestCoversEveryGroup(rows', x.groupId);
    var latest := LatestRows(rows');
    var j :| 0 <= j < |latest| && latest[j].groupId == x.groupId;
    assert latest[j] in latest;
  }

  /** The table's rows are pairwise distinct, since their ids are. */
  lemma ValidRowsDistinct(table: SensorTable)
    requires table.Valid()
    ensures Distinct(table.rows)
  {
  }
}
