/**
 * The message store: the `messages` table, the two statements that change it
 * (insert a record, mark a record synced) and the three read-only queries
 * (look up by id, keyword search, statistics). The table is a sequence of
 * rows in insertion order; SQL NULL is None.
 */
module Database {
  import opened Wrappers
  import opened Types
  import SqlLike

  /** One row of the `messages` table; `synced` is the INTEGER column. */
  datatype Row = Row(
    id: int,
    messageId: int,
    chatId: int,
    fromUserId: Option<int>,
    fromUsername: Option<string>,
    fromFirstName: Option<string>,
    text: Option<string>,
    messageType: string,
    timestamp: int,
    synced: int,
    syncTimestamp: Option<int>)

  /** `value || null` for a number: 0 and an absent value become NULL. */
  function NullIfFalsyNumber(o: Option<int>): (r: Option<int>)
    ensures r.Some? <==> TruthyNumber(o)
    ensures r.Some? ==> r == o
  {
    if TruthyNumber(o) then o else None
  }

  /** `value || null` for a string: "" and an absent value become NULL. */
  function NullIfEmpty(o: Option<string>): (r: Option<string>)
    ensures r.Some? <==> TruthyString(o)
    ensures r.Some? ==> r == o
  {
    if TruthyString(o) then o else None
  }

  /** The row the insert statement stores for `rec` under the id `id`. */
  function NewRow(id: int, rec: MessageRecord): (row: Row)
    ensures row.id == id && (row.synced == 1 <==> rec.synced) && (row.synced == 0 || row.synced == 1)
    ensures StoredForm(row)
  {
    Row(id, rec.messageId, rec.chatId,
        NullIfFalsyNumber(rec.fromUserId), NullIfEmpty(rec.fromUsername), NullIfEmpty(rec.fromFirstName),
        NullIfEmpty(rec.text), rec.messageType, rec.timestamp,
        if rec.synced then 1 else 0, NullIfFalsyNumber(rec.syncTimestamp))
  }

  /** A record whose optional fields are each absent or truthy. */
  predicate NoFalsyOptionals(rec: MessageRecord) {
    && (rec.fromUserId.Some? ==> TruthyNumber(rec.fromUserId))
    && (rec.fromUsername.Some? ==> TruthyString(rec.fromUsername))
    && (rec.fromFirstName.Some? ==> TruthyString(rec.fromFirstName))
    && (rec.text.Some? ==> TruthyString(rec.text))
    && (rec.syncTimestamp.Some? ==> TruthyNumber(rec.syncTimestamp))
  }

  /** What an INSERT through `value || null` can store: a non-NULL optional
      column never holds 0 or the empty string. */
  predicate StoredForm(row: Row) {
    NoFalsyOptionals(ToRecord(row))
  }

  /** A row read back as a record; `synced` is true when the column holds 1. */
  function ToRecord(row: Row): MessageRecord {
    MessageRecord(Some(row.id), row.messageId, row.chatId, row.fromUserId, row.fromUsername,
                  row.fromFirstName, row.text, row.messageType, row.timestamp,
                  row.synced == 1, row.syncTimestamp)
  }

  /** Storing a record and reading it back gives the record with its new id,
      when no optional field is falsy. */
  lemma ToRecordOfNewRow(id: int, rec: MessageRecord)
    requires NoFalsyOptionals(rec)
    ensures ToRecord(NewRow(id, rec)) == rec.(id := Some(id))
  {
  }

  /** Reading a stored row back and storing the record again gives the same
      row. */
  lemma NewRowOfToRecord(row: Row)
    requires StoredForm(row) && (row.synced == 0 || row.synced == 1)
    ensures NewRow(row.id, ToRecord(row)) == row
    ensures NoFalsyOptionals(ToRecord(row))
  {
  }

  /** What the table always satisfies: AUTOINCREMENT has numbered the rows
      1, 2, ... in insertion order (nothing is ever deleted), and `synced` is
      only ever written as 0 or 1. */
  predicate WellFormed(rows: seq<Row>) {
    forall i :: 0 <= i < |rows| ==> rows[i].id == i + 1 && (rows[i].synced == 0 || rows[i].synced == 1)
  }

  // ---------------------------------------------------------------------------
  // markAsSynced: UPDATE messages SET synced = 1, sync_timestamp = ? WHERE id = ?

  function MarkRow(row: Row, now: int): Row {
    row.(synced := 1, syncTimestamp := Some(now))
  }

  /** The table after the update: every row with the id is marked, every
      other row is left exactly as it was. */
  function Marked(rows: seq<Row>, id: int, now: int): (r: seq<Row>)
    ensures |r| == |rows|
    ensures forall i :: 0 <= i < |rows| && rows[i].id == id ==> r[i] == MarkRow(rows[i], now)
    ensures forall i :: 0 <= i < |rows| && rows[i].id != id ==> r[i] == rows[i]
  {
    if rows == [] then []
    else [if rows[0].id == id then MarkRow(rows[0], now) else rows[0]] + Marked(rows[1..], id, now)
  }

  /** An id that no row carries changes nothing. */
  lemma MarkedUnknownId(rows: seq<Row>, id: int, now: int)
    requires forall i :: 0 <= i < |rows| ==> rows[i].id != id
    ensures Marked(rows, id, now) == rows
  {
  }

  /** Marking twice is marking once with the later time: the flag stays 1 and
      the sync time is replaced, not kept from the first call. */
  lemma MarkedTwice(rows: seq<Row>, id: int, first: int, second: int)
    ensures Marked(Marked(rows, id, first), id, second) == Marked(rows, id, second)
  {
    var once := Marked(rows, id, first);
    assert forall i :: 0 <= i < |rows| ==> once[i].id == rows[i].id;
  }

  // ---------------------------------------------------------------------------
  // getMessage: SELECT * FROM messages WHERE id = ?

  /** The first row carrying `id`. */
  function FindRow(rows: seq<Row>, id: int): (r: Option<nat>)
    ensures r.Some? ==> r.value < |rows| && rows[r.value].id == id
    ensures r.Some? ==> forall i :: 0 <= i < r.value ==> rows[i].id != id
    ensures r.None? ==> forall i :: 0 <= i < |rows| ==> rows[i].id != id
  {
    if rows == [] then None
    else if rows[0].id == id then Some(0)
    else match FindRow(rows[1..], id)
      case None => None
      case Some(i) => Some(i + 1)
  }

  function GetMessage(rows: seq<Row>, id: int): (r: Option<MessageRecord>)
    ensures r.None? <==> forall i :: 0 <= i < |rows| ==> rows[i].id != id
    ensures r.Some? ==> r.value.id == Some(id) && exists i :: 0 <= i < |rows| && r.value == ToRecord(rows[i])
  {
    match FindRow(rows, id)
    case None => None
    case Some(i) => Some(ToRecord(rows[i]))
  }

  /** In a well-formed table the record with id `id` is the `id`-th row. */
  lemma GetMessageByPosition(rows: seq<Row>, id: int)
    requires WellFormed(rows)
    ensures GetMessage(rows, id) == if 1 <= id <= |rows| then Some(ToRecord(rows[id - 1])) else None
  {
    if 1 <= id <= |rows| {
      assert rows[id - 1].id == id;
    }
  }

  /** Save then read: the record comes back under the new id with every
      field as given, except that a falsy optional field (0, "", absent) comes
      back absent. */
  lemma SaveThenGet(rows: seq<Row>, rec: MessageRecord)
    requires WellFormed(rows)
    ensures var id := |rows| + 1;
      var got := GetMessage(rows + [NewRow(id, rec)], id);
      && got.Some?
      && got.value.id == Some(id)
      && got.value.messageId == rec.messageId && got.value.chatId == rec.chatId
      && got.value.messageType == rec.messageType && got.value.timestamp == rec.timestamp
      && got.value.synced == rec.synced
      && (got.value.text.Some? <==> TruthyString(rec.text))
      && (got.value.text.Some? ==> got.value.text == rec.text)
      && (got.value.fromUsername.Some? <==> TruthyString(rec.fromUsername))
      && (got.value.fromUsername.Some? ==> got.value.fromUsername == rec.fromUsername)
      && (got.value.fromFirstName.Some? <==> TruthyString(rec.fromFirstName))
      && (got.value.fromFirstName.Some? ==> got.value.fromFirstName == rec.fromFirstName)
      && (got.value.fromUserId.Some? <==> TruthyNumber(rec.fromUserId))
      && (got.value.fromUserId.Some? ==> got.value.fromUserId == rec.fromUserId)
      && (got.value.syncTimestamp.Some? <==> TruthyNumber(rec.syncTimestamp))
      && (got.value.syncTimestamp.Some? ==> got.value.syncTimestamp == rec.syncTimestamp)
  {
    var id := |rows| + 1;
    var after := rows + [NewRow(id, rec)];
    assert after[|rows|].id == id;
    assert FindRow(after, id) == Some(|rows|);
  }

  /** Mark then read: the record reads back synced with the given time, the
      rest of it unchanged. */
  lemma MarkThenGet(rows: seq<Row>, id: int, now: int)
    requires WellFormed(rows) && 1 <= id <= |rows|
    ensures GetMessage(Marked(rows, id, now), id)
         == Some(ToRecord(rows[id - 1]).(synced := true, syncTimestamp := Some(now)))
  {
    var after := Marked(rows, id, now);
    assert WellFormed(after) by {
      forall i | 0 <= i < |after| ensures after[i].id == i + 1 && (after[i].synced == 0 || after[i].synced == 1) {
        assert after[i].id == rows[i].id;
      }
    }
    GetMessageByPosition(after, id);
  }

  // ---------------------------------------------------------------------------
  // queryMessages:
  //   SELECT * FROM messages WHERE text LIKE '%keyword%' AND synced = 1
  //   ORDER BY timestamp DESC LIMIT 20

  const QueryLimit: nat := 20

  /** The WHERE clause: a NULL text never matches `LIKE`. */
  predicate IsHit(row: Row, keyword: string) {
    row.text.Some? && SqlLike.Like("%" + keyword + "%", row.text.value) && row.synced == 1
  }

  /** The rows the WHERE clause keeps, in table order. */
  function Matching(rows: seq<Row>, keyword: string): (r: seq<Row>)
    ensures forall i :: 0 <= i < |r| ==> IsHit(r[i], keyword)
    ensures multiset(r) <= multiset(rows)
    ensures forall i :: 0 <= i < |rows| && IsHit(rows[i], keyword) ==> rows[i] in r
  {
    if rows == [] then []
    else
      var rest := Matching(rows[1..], keyword);
      var r := if IsHit(rows[0], keyword) then [rows[0]] + rest else rest;
      MatchingCons(rows, rest, r, keyword);
      r
  }

  /** One step of `Matching`: keeping or dropping the first row keeps the
      three properties. */
  lemma MatchingCons(rows: seq<Row>, rest: seq<Row>, r: seq<Row>, keyword: string)
    requires rows != []
    requires r == if IsHit(rows[0], keyword) then [rows[0]] + rest else rest
    requires forall i :: 0 <= i < |rest| ==> IsHit(rest[i], keyword)
    requires multiset(rest) <= multiset(rows[1..])
    requires forall i :: 1 <= i < |rows| && IsHit(rows[i], keyword) ==> rows[i] in rest
    ensures forall i :: 0 <= i < |r| ==> IsHit(r[i], keyword)
    ensures multiset(r) <= multiset(rows)
    ensures forall i :: 0 <= i < |rows| && IsHit(rows[i], keyword) ==> rows[i] in r
  {
    assert rows == [rows[0]] + rows[1..];
    assert multiset(rows) == multiset{rows[0]} + multiset(rows[1..]);
  }

  predicate SortedByTimestampDesc(s: seq<Row>) {
    forall i, j :: 0 <= i < j < |s| ==> s[i].timestamp >= s[j].timestamp
  }

  /** Insert `x` into a list sorted newest first, before the rows with the
      same timestamp. */
  function InsertByTimestamp(x: Row, s: seq<Row>): (r: seq<Row>)
    requires SortedByTimestampDesc(s)
    ensures SortedByTimestampDesc(r)
    ensures multiset(r) == multiset(s) + multiset{x}
    ensures |r| == |s| + 1
    ensures r[0] == x || (s != [] && r[0] == s[0])
  {
    if s == [] || x.timestamp >= s[0].timestamp then [x] + s
    else
      assert s == [s[0]] + s[1..];
      [s[0]] + InsertByTimestamp(x, s[1..])
  }

  /** ORDER BY timestamp DESC (an insertion sort; rows with equal timestamps
      keep their table order). */
  function SortByTimestampDesc(s: seq<Row>): (r: seq<Row>)
    ensures SortedByTimestampDesc(r)
    ensures multiset(r) == multiset(s)
    ensures |r| == |s|
  {
    if s == [] then []
    else
      assert s == [s[0]] + s[1..];
      InsertByTimestamp(s[0], SortByTimestampDesc(s[1..]))
  }

  /** The sorted hits, cut at the LIMIT. */
  function TopHits(rows: seq<Row>, keyword: string): (top: seq<Row>)
    ensures |top| == if |Matching(rows, keyword)| <= QueryLimit then |Matching(rows, keyword)| else QueryLimit
    ensures SortedByTimestampDesc(top)
    ensures forall i :: 0 <= i < |top| ==> IsHit(top[i], keyword)
    ensures forall i :: 0 <= i < |top| ==> top[i] in rows
    ensures multiset(top) <= multiset(Matching(rows, keyword))
  {
    var hits := Matching(rows, keyword);
    var sorted := SortByTimestampDesc(hits);
    var n := if |sorted| <= QueryLimit then |sorted| else QueryLimit;
    SortedPrefixOfHits(rows, hits, sorted, n, keyword);
    sorted[..n]
  }

  /** A prefix of the sorted hits is sorted, and holds hits that are rows of
      the table. */
  lemma SortedPrefixOfHits(rows: seq<Row>, hits: seq<Row>, sorted: seq<Row>, n: nat, keyword: string)
    requires n <= |sorted|
    requires SortedByTimestampDesc(sorted) && multiset(sorted) == multiset(hits)
    requires multiset(hits) <= multiset(rows)
    requires forall i :: 0 <= i < |hits| ==> IsHit(hits[i], keyword)
    ensures SortedByTimestampDesc(sorted[..n])
    ensures forall i :: 0 <= i < n ==> IsHit(sorted[i], keyword) && sorted[i] in rows
    ensures multiset(sorted[..n]) <= multiset(hits)
  {
    assert sorted == sorted[..n] + sorted[n..];
    assert multiset(sorted) == multiset(sorted[..n]) + multiset(sorted[n..]);
    forall i | 0 <= i < n ensures IsHit(sorted[i], keyword) && sorted[i] in rows {
      assert sorted[i] in multiset(sorted);
      assert sorted[i] in multiset(hits);
      assert sorted[i] in multiset(rows);
    }
  }

  /** `queryMessages`: at most 20 records, newest first, each read back from
      a row of the table that is synced and whose text matches `%keyword%`. */
  function QueryMessages(rows: seq<Row>, keyword: string): (r: seq<MessageRecord>)
    ensures |r| <= QueryLimit
    ensures forall i, j :: 0 <= i < j < |r| ==> r[i].timestamp >= r[j].timestamp
    ensures forall i :: 0 <= i < |r| ==>
      r[i].synced && r[i].text.Some? && SqlLike.Like("%" + keyword + "%", r[i].text.value)
    ensures forall i :: 0 <= i < |r| ==> exists j :: 0 <= j < |rows| && r[i] == ToRecord(rows[j])
    ensures |r| == |TopHits(rows, keyword)|
    ensures forall i :: 0 <= i < |r| ==> r[i] == ToRecord(TopHits(rows, keyword)[i])
    ensures WellFormed(rows) ==> forall i, j :: 0 <= i < j < |r| ==> r[i].id != r[j].id
  {
    var top := TopHits(rows, keyword);
    var r := seq(|top|, i requires 0 <= i < |top| => ToRecord(top[i]));
    RecordsOfTopHits(rows, keyword, top, r);
    r
  }

  /** The records read back from the kept rows have the properties the
      search promises. */
  lemma RecordsOfTopHits(rows: seq<Row>, keyword: string, top: seq<Row>, r: seq<MessageRecord>)
    requires top == TopHits(rows, keyword)
    requires |r| == |top| && forall i :: 0 <= i < |r| ==> r[i] == ToRecord(top[i])
    ensures |r| <= QueryLimit
    ensures forall i, j :: 0 <= i < j < |r| ==> r[i].timestamp >= r[j].timestamp
    ensures forall i :: 0 <= i < |r| ==>
      r[i].synced && r[i].text.Some? && SqlLike.Like("%" + keyword + "%", r[i].text.value)
    ensures forall i :: 0 <= i < |r| ==> exists j :: 0 <= j < |rows| && r[i] == ToRecord(rows[j])
    ensures WellFormed(rows) ==> forall i, j :: 0 <= i < j < |r| ==> r[i].id != r[j].id
  {
    TopHitsDistinct(rows, keyword);
    forall i | 0 <= i < |r| ensures exists j :: 0 <= j < |rows| && r[i] == ToRecord(rows[j]) {
      var j :| 0 <= j < |rows| && rows[j] == top[i];
    }
  }

  /** In a well-formed table the LIMIT keeps distinct rows: no two kept rows
      share an id. */
  lemma TopHitsDistinct(rows: seq<Row>, keyword: string)
    ensures WellFormed(rows) ==>
      var top := TopHits(rows, keyword);
      forall i, j :: 0 <= i < j < |top| ==> top[i].id != top[j].id
  {
    if WellFormed(rows) {
      var top := TopHits(rows, keyword);
      forall i, j | 0 <= i < j < |top| ensures top[i].id != top[j].id {
        if top[i].id == top[j].id {
          var a :| 0 <= a < |rows| && rows[a] == top[i];
          var b :| 0 <= b < |rows| && rows[b] == top[j];
          assert a == b;
          DuplicateCountsTwice(top, i, j);
          RowsOccurOnce(rows, top[i]);
          assert false;
        }
      }
    }
  }

  /** An element at two positions is counted at least twice. */
  lemma DuplicateCountsTwice(s: seq<Row>, i: nat, j: nat)
    requires i < j < |s| && s[i] == s[j]
    ensures multiset(s)[s[i]] >= 2
  {
    assert s == s[..j] + s[j..];
    assert s[i] in s[..j];
    assert s[j..][0] == s[i];
    assert multiset(s) == multiset(s[..j]) + multiset(s[j..]);
  }

  /** Rows of a well-formed table carry distinct ids, so each row occurs at
      most once. */
  lemma {:induction false} RowsOccurOnce(rows: seq<Row>, x: Row)
    requires WellFormed(rows)
    ensures multiset(rows)[x] <= 1
    decreases |rows|
  {
    if rows != [] {
      var init := rows[..|rows| - 1];
      var last := rows[|rows| - 1];
      assert rows == init + [last];
      assert WellFormed(init);
      RowsOccurOnce(init, x);
      if x == last {
        assert x !in init by {
          forall k | 0 <= k < |init| ensures init[k] != x {
            assert init[k].id == k + 1;
          }
        }
      }
    }
  }

  /** The search returns at most 20 records, newest first, and as many as
      there are hits up to 20. */
  lemma QueryOrderAndLimit(rows: seq<Row>, keyword: string)
    ensures var r := QueryMessages(rows, keyword);
      && |r| <= QueryLimit
      && |r| == (if |Matching(rows, keyword)| <= QueryLimit then |Matching(rows, keyword)| else QueryLimit)
      && (forall i, j :: 0 <= i < j < |r| ==> r[i].timestamp >= r[j].timestamp)
  {
  }

  /** A hit sits somewhere in the sorted hits. */
  lemma HitIsSorted(rows: seq<Row>, keyword: string, j: int) returns (k: nat)
    requires 0 <= j < |rows| && IsHit(rows[j], keyword)
    ensures k < |SortByTimestampDesc(Matching(rows, keyword))|
    ensures SortByTimestampDesc(Matching(rows, keyword))[k] == rows[j]
  {
    var hits := Matching(rows, keyword);
    var sorted := SortByTimestampDesc(hits);
    assert rows[j] in hits;
    assert rows[j] in multiset(hits);
    assert rows[j] in multiset(sorted);
    k :| 0 <= k < |sorted| && sorted[k] == rows[j];
  }

  /** No hit left out by the LIMIT is newer than a record returned: a hit
      newer than any returned record is itself returned. */
  lemma QueryKeepsNewest(rows: seq<Row>, keyword: string)
    ensures var r := QueryMessages(rows, keyword);
      forall j, i ::
        (0 <= j < |rows| && IsHit(rows[j], keyword) && 0 <= i < |r| && r[i].timestamp < rows[j].timestamp)
        ==> ToRecord(rows[j]) in r
  {
    var sorted := SortByTimestampDesc(Matching(rows, keyword));
    var top := TopHits(rows, keyword);
    var r := QueryMessages(rows, keyword);
    assert top == sorted[..|top|];
    forall j, i | 0 <= j < |rows| && IsHit(rows[j], keyword) && 0 <= i < |r|
        && r[i].timestamp < rows[j].timestamp
      ensures ToRecord(rows[j]) in r
    {
      var k := HitIsSorted(rows, keyword, j);
      assert r[i].timestamp == sorted[i].timestamp;
      if k < |top| {
        assert r[k] == ToRecord(rows[j]);
      }
    }
  }

  /** When there are at most 20 hits, every synced row whose text matches is
      found. */
  lemma QueryFindsAllFewHits(rows: seq<Row>, keyword: string, j: int)
    requires |Matching(rows, keyword)| <= QueryLimit
    requires 0 <= j < |rows| && IsHit(rows[j], keyword)
    ensures ToRecord(rows[j]) in QueryMessages(rows, keyword)
  {
    var sorted := SortByTimestampDesc(Matching(rows, keyword));
    var k := HitIsSorted(rows, keyword, j);
    assert TopHits(rows, keyword) == sorted;
    assert QueryMessages(rows, keyword)[k] == ToRecord(rows[j]);
  }

  /** For a keyword without `%` or `_` the search is an ASCII-case-insensitive
      substring search over the texts of synced rows. */
  lemma QuerySubstring(rows: seq<Row>, keyword: string)
    requires SqlLike.NoWildcards(keyword)
    ensures forall r :: r in QueryMessages(rows, keyword) ==>
      r.synced && r.text.Some? && SqlLike.ContainsIgnoringCase(r.text.value, keyword)
  {
    forall r | r in QueryMessages(rows, keyword)
      ensures r.synced && r.text.Some? && SqlLike.ContainsIgnoringCase(r.text.value, keyword)
    {
      SqlLike.LikeSubstring(keyword, r.text.value);
    }
  }

  // ---------------------------------------------------------------------------
  // getStats:
  //   SELECT COUNT(*), SUM(CASE WHEN timestamp >= ? THEN 1 ELSE 0 END),
  //          MAX(sync_timestamp) FROM messages WHERE synced = 1

  /** The row the aggregate query returns: SUM over no row is NULL and MAX
      ignores NULLs. */
  datatype StatsRow = StatsRow(total: int, today: Option<int>, maxSync: Option<int>)

  function MaxIgnoringNull(a: Option<int>, b: Option<int>): Option<int> {
    match (a, b)
    case (None, _) => b
    case (_, None) => a
    case (Some(x), Some(y)) => Some(if x >= y then x else y)
  }

  function StatsQuery(rows: seq<Row>, todayTimestamp: int): (q: StatsRow)
    ensures q.total >= 0
    ensures q.today.Some? <==> q.total > 0
    ensures 0 <= q.today.GetOr(0) <= q.total
    ensures q.maxSync.Some? ==> q.total > 0
  {
    if rows == [] then StatsRow(0, None, None)
    else
      var rest := StatsQuery(rows[1..], todayTimestamp);
      var row := rows[0];
      if row.synced != 1 then rest
      else StatsRow(rest.total + 1,
                    Some(rest.today.GetOr(0) + if row.timestamp >= todayTimestamp then 1 else 0),
                    MaxIgnoringNull(row.syncTimestamp, rest.maxSync))
  }

  /** `getStats`: the aggregate row with `|| 0` on the counts and
      `|| undefined` on the last sync time, so a maximum of 0 reads as absent.
      `todayTimestamp` is the start of the current local day in milliseconds. */
  function GetStats(rows: seq<Row>, todayTimestamp: int): (st: SyncStats)
    ensures 0 <= st.todayMessages <= st.totalMessages
    ensures st.lastSyncTime != Some(0)
    ensures st.lastSyncTime.Some? ==> st.totalMessages > 0
  {
    var q := StatsQuery(rows, todayTimestamp);
    SyncStats(q.total, q.today.GetOr(0),
              if q.maxSync.None? || q.maxSync == Some(0) then None else q.maxSync)
  }

  /** The synced rows, in table order. */
  function SyncedRows(rows: seq<Row>): seq<Row> {
    if rows == [] then []
    else (if rows[0].synced == 1 then [rows[0]] else []) + SyncedRows(rows[1..])
  }

  /** The synced rows with a timestamp at or after `since`, in table order. */
  function SyncedRowsSince(rows: seq<Row>, since: int): seq<Row> {
    if rows == [] then []
    else (if rows[0].synced == 1 && rows[0].timestamp >= since then [rows[0]] else [])
         + SyncedRowsSince(rows[1..], since)
  }

  /** `totalMessages` counts the synced rows, `todayMessages` the synced rows
      of today, so the second never exceeds the first. */
  lemma {:induction false} StatsCounts(rows: seq<Row>, todayTimestamp: int)
    ensures GetStats(rows, todayTimestamp).totalMessages == |SyncedRows(rows)|
    ensures GetStats(rows, todayTimestamp).todayMessages == |SyncedRowsSince(rows, todayTimestamp)|
    ensures |SyncedRowsSince(rows, todayTimestamp)| <= |SyncedRows(rows)|
  {
    if rows != [] {
      StatsCounts(rows[1..], todayTimestamp);
    }
  }

  /** Without a synced row the statistics are zero, zero and no sync time. */
  lemma {:induction false} StatsWithoutSyncedRows(rows: seq<Row>, todayTimestamp: int)
    requires forall i :: 0 <= i < |rows| ==> rows[i].synced != 1
    ensures GetStats(rows, todayTimestamp) == SyncStats(0, 0, None)
  {
    if rows != [] {
      StatsWithoutSyncedRows(rows[1..], todayTimestamp);
    }
  }

  lemma {:induction false} MaxSyncIsMaximum(rows: seq<Row>, todayTimestamp: int)
    ensures var m := StatsQuery(rows, todayTimestamp).maxSync;
      && (m.Some? ==> exists i :: 0 <= i < |rows| && rows[i].synced == 1 && rows[i].syncTimestamp == m)
      && (forall i :: 0 <= i < |rows| && rows[i].synced == 1 && rows[i].syncTimestamp.Some? ==>
            m.Some? && rows[i].syncTimestamp.value <= m.value)
  {
    if rows != [] {
      MaxSyncIsMaximum(rows[1..], todayTimestamp);
      var m := StatsQuery(rows, todayTimestamp).maxSync;
      var rest := StatsQuery(rows[1..], todayTimestamp).maxSync;
      if m.Some? && rows[0].synced == 1 && rows[0].syncTimestamp != m {
        var i :| 0 <= i < |rows[1..]| && rows[1..][i].synced == 1 && rows[1..][i].syncTimestamp == rest;
        assert rows[i + 1] == rows[1..][i];
      }
      if rows[0].synced != 1 && m.Some? {
        var i :| 0 <= i < |rows[1..]| && rows[1..][i].synced == 1 && rows[1..][i].syncTimestamp == rest;
        assert rows[i + 1] == rows[1..][i];
      }
      forall i | 0 <= i < |rows| && rows[i].synced == 1 && rows[i].syncTimestamp.Some?
        ensures m.Some? && rows[i].syncTimestamp.value <= m.value
      {
        if i > 0 {
          assert rows[i] == rows[1..][i - 1];
        }
      }
    }
  }

  /** `lastSyncTime` is the largest sync time among the synced rows; it is
      absent exactly when no synced row has one or when that largest time is
      0, in which case some synced row has the time 0. */
  lemma LastSyncTimeIsMaximum(rows: seq<Row>, todayTimestamp: int)
    ensures var t := GetStats(rows, todayTimestamp).lastSyncTime;
      && (t.Some? ==> t.value != 0 && exists i :: 0 <= i < |rows| && rows[i].synced == 1 && rows[i].syncTimestamp == t)
      && (forall i :: 0 <= i < |rows| && rows[i].synced == 1 && rows[i].syncTimestamp.Some? ==>
            if t.Some? then rows[i].syncTimestamp.value <= t.value else rows[i].syncTimestamp.value <= 0)
      && (t.None? ==>
            || (forall i :: 0 <= i < |rows| && rows[i].synced == 1 ==> rows[i].syncTimestamp.None?)
            || (exists j :: 0 <= j < |rows| && rows[j].synced == 1 && rows[j].syncTimestamp == Some(0)))
  {
    MaxSyncIsMaximum(rows, todayTimestamp);
  }

  // ---------------------------------------------------------------------------
  // The sync-state invariant of the whole system.

  /** A row has a sync time exactly when it is synced. */
  predicate SyncConsistent(rows: seq<Row>) {
    forall i :: 0 <= i < |rows| ==> (rows[i].syncTimestamp.Some? <==> rows[i].synced == 1)
  }

  /** `after` is `before` with rows appended and, in the old rows, at most the
      sync columns changed, never from synced back to unsynced. */
  predicate SyncProgress(before: seq<Row>, after: seq<Row>) {
    && |before| <= |after|
    && forall i :: 0 <= i < |before| ==>
         && after[i].(synced := before[i].synced, syncTimestamp := before[i].syncTimestamp) == before[i]
         && (before[i].synced == 1 ==> after[i].synced == 1)
  }

  lemma SyncProgressTransitive(a: seq<Row>, b: seq<Row>, c: seq<Row>)
    requires SyncProgress(a, b) && SyncProgress(b, c)
    ensures SyncProgress(a, c)
  {
    forall i | 0 <= i < |a|
      ensures c[i].(synced := a[i].synced, syncTimestamp := a[i].syncTimestamp) == a[i]
    {
      assert c[i].(synced := b[i].synced, syncTimestamp := b[i].syncTimestamp) == b[i];
    }
  }

  /** Saving a record that is unsynced and has no sync time (the only kind the
      bot saves) keeps the invariant and only appends. */
  lemma SaveKeepsSyncInvariant(rows: seq<Row>, id: int, rec: MessageRecord)
    requires SyncConsistent(rows)
    requires !rec.synced && !TruthyNumber(rec.syncTimestamp)
    ensures SyncConsistent(rows + [NewRow(id, rec)])
    ensures SyncProgress(rows, rows + [NewRow(id, rec)])
    ensures (rows + [NewRow(id, rec)])[|rows|].synced == 0
  {
    var after := rows + [NewRow(id, rec)];
    assert forall i :: 0 <= i < |rows| ==> after[i] == rows[i];
  }

  /** The invariant is the caller's doing: the store itself accepts a record
      saved as synced without a sync time, and the row it stores breaks it. */
  lemma SaveSyncedWithoutTimeBreaksInvariant(rows: seq<Row>, id: int, rec: MessageRecord)
    requires rec.synced && !TruthyNumber(rec.syncTimestamp)
    ensures !SyncConsistent(rows + [NewRow(id, rec)])
  {
    assert (rows + [NewRow(id, rec)])[|rows|] == NewRow(id, rec);
  }

  /** Marking keeps the invariant, only touches the sync columns, and never
      clears a flag. */
  lemma MarkKeepsSyncInvariant(rows: seq<Row>, id: int, now: int)
    requires SyncConsistent(rows)
    ensures SyncConsistent(Marked(rows, id, now))
    ensures SyncProgress(rows, Marked(rows, id, now))
  {
  }

  // ---------------------------------------------------------------------------
  // The table as the program holds it.

  class MessageStore {
    /** The rows of `messages`, in insertion order. */
    var rows: seq<Row>
    /** The AUTOINCREMENT counter: the id the next insert receives. */
    var nextId: int

    ghost predicate Valid()
      reads this
    {
      WellFormed(rows) && nextId == |rows| + 1
    }

    /** An empty table. */
    constructor ()
      ensures Valid() && rows == []
    {
      rows := [];
      nextId := 1;
    }

    /** `saveMessage`: appends exactly one row and returns its id, which is
        larger than every id already in the table; nothing makes a
        (chatId, messageId) pair unique, so saving twice stores two rows. */
    method SaveMessage(rec: MessageRecord) returns (id: int)
      requires Valid()
      modifies this
      ensures Valid()
      ensures id == old(nextId) && id >= 1
      ensures forall i :: 0 <= i < |old(rows)| ==> old(rows)[i].id < id
      ensures rows == old(rows) + [NewRow(id, rec)]
    {
      id := nextId;
      rows := rows + [NewRow(id, rec)];
      nextId := nextId + 1;
    }

    /** `markAsSynced`: the row with that id gets `synced = 1` and the given
        sync time; every other row, and an unknown id, leaves the table as it
        was. */
    method MarkAsSynced(recordId: int, now: int)
      requires Valid()
      modifies this
      ensures Valid() && nextId == old(nextId)
      ensures rows == Marked(old(rows), recordId, now)
    {
      if 1 <= recordId <= |rows| {
        assert rows[recordId - 1].id == recordId;
        rows := rows[recordId - 1 := MarkRow(rows[recordId - 1], now)];
      }
    }
  }
}
