/**
 The durable channel-log queue: enqueue, flush_channel and flush_queued of
 channel_log.c over the queue table of chanserv_db_logging.c. Rows are inserted
 with ever increasing ids, fetched in batches, written to the log files and then
 deleted; any write or delete may fail in between.
 */
module LogQueue {
  import opened Text

  const FETCH_ROWS: nat := 128

  datatype Row = Row(id: nat, channel: CString, time: int, body: CString)

  /** Channel names compare under the IRCNOCASE collation. */
  predicate SameChannel(a: CString, b: CString) { Folded(a) == Folded(b) }

  /** The two queries: one channel by id, or everything due by time and id. */
  datatype Query = OfChannel(name: CString) | DueBy(cutoff: int)

  predicate Matches(q: Query, r: Row) {
    match q
    case OfChannel(name) => SameChannel(r.channel, name)
    case DueBy(cutoff) => r.time <= cutoff
  }

  /** The ORDER BY of a query. */
  predicate Before(q: Query, a: Row, b: Row) {
    if q.DueBy? && a.time != b.time then a.time < b.time else a.id < b.id
  }

  /** The WHERE of the delete that follows a batch ending in `last`. */
  predicate DeletedBy(q: Query, last: Row, r: Row) {
    match q
    case OfChannel(name) => SameChannel(r.channel, name) && r.id <= last.id
    case DueBy(_) => r.time < last.time || (r.time == last.time && r.id <= last.id)
  }

  /** The id column is a key. */
  ghost predicate Keyed(table: set<Row>) {
    forall a, b :: a in table && b in table && a.id == b.id ==> a == b
  }

  ghost function Selected(q: Query, table: set<Row>): set<Row> {
    set r | r in table && Matches(q, r)
  }

  ghost function Elements(rows: seq<Row>): set<Row> {
    set r | r in rows
  }

  /** The result of SELECT ... ORDER BY ... LIMIT: the first rows in order, all of them if they fit. */
  ghost predicate Fetched(q: Query, table: set<Row>, limit: nat, rows: seq<Row>) {
    && |rows| <= limit
    && (forall k :: 0 <= k < |rows| ==> rows[k] in table && Matches(q, rows[k]))
    && (forall i, j :: 0 <= i < j < |rows| ==> Before(q, rows[i], rows[j]))
    && (forall r :: r in table && Matches(q, r) && r !in rows ==>
          |rows| == limit && forall k :: 0 <= k < |rows| ==> Before(q, rows[k], r))
  }

  lemma {:induction false} LeastExists(q: Query, s: set<Row>) returns (least: Row)
    requires Keyed(s) && s != {}
    ensures least in s && forall r :: r in s && r != least ==> Before(q, least, r)
    decreases |s|
  {
    var x :| x in s;
    var rest := s - {x};
    if rest == {} {
      assert s == {x};
      least := x;
    } else {
      var y := LeastExists(q, rest);
      least := if Before(q, x, y) then x else y;
      forall r | r in s && r != least ensures Before(q, least, r) {
        assert r == x || r in rest;
        assert r in rest && r != y ==> Before(q, y, r);
      }
    }
  }

  /** Rows in strict order are distinct, so as a set and as a bag they are the same. */
  lemma {:induction false} OrderedRowsDistinct(q: Query, rows: seq<Row>)
    requires forall i, j :: 0 <= i < j < |rows| ==> Before(q, rows[i], rows[j])
    ensures multiset(rows) == multiset(Elements(rows)) && |Elements(rows)| == |rows|
  {
    if rows != [] {
      var front, last := rows[..|rows| - 1], rows[|rows| - 1];
      OrderedRowsDistinct(q, front);
      assert rows == front + [last];
      assert last !in front;
      assert Elements(rows) == Elements(front) + {last};
    } else {
      assert Elements(rows) == {};
    }
  }

  /** The delete behind a batch removes exactly the rows of the batch. */
  lemma DeleteExact(q: Query, table: set<Row>, limit: nat, rows: seq<Row>)
    requires Keyed(table) && Fetched(q, table, limit, rows) && rows != []
    ensures (set r | r in table && DeletedBy(q, rows[|rows| - 1], r)) == Elements(rows)
  {
    var last := rows[|rows| - 1];
    forall r | r in table
      ensures DeletedBy(q, last, r) <==> r in rows
    {
      if r in rows {
        var k :| 0 <= k < |rows| && rows[k] == r;
        assert k == |rows| - 1 || Before(q, rows[k], last);
      } else if Matches(q, r) {
        assert Before(q, last, r);
      } else {
        assert Matches(q, last);
      }
    }
  }

  /** Two batches in a row, each as long as its limit, are the one batch of both limits. */
  lemma FetchedAppend(q: Query, table: set<Row>, rows: seq<Row>, limit: nat, more: seq<Row>)
    requires Fetched(q, table, |rows|, rows) && Fetched(q, table - Elements(rows), limit, more)
    ensures Fetched(q, table, |rows| + |more|, rows + more)
    ensures Elements(rows + more) == Elements(rows) + Elements(more)
  {
    hide Matches, Before;
    var all := rows + more;
    forall i, j | 0 <= i < j < |all| ensures Before(q, all[i], all[j]) {
      if i < |rows| <= j {
        assert more[j - |rows|] in table - Elements(rows);
      }
    }
    forall r, k | r in table && Matches(q, r) && r !in all && 0 <= k < |all| ensures Before(q, all[k], r) {
      assert r in table - Elements(rows) && r !in more;
    }
  }

  /** When nothing is left a batch is the batch of any larger limit. */
  lemma FetchedAll(q: Query, table: set<Row>, rows: seq<Row>, limit: nat)
    requires Fetched(q, table, |rows|, rows) && |rows| <= limit && Selected(q, table - Elements(rows)) == {}
    ensures Fetched(q, table, limit, rows)
  {
    hide Before;
    forall r | r in table && Matches(q, r) ensures r in rows {
      assert r !in Selected(q, table - Elements(rows));
    }
  }

  lemma {:induction false} FetchedAgree(q: Query, table: set<Row>, limit: nat, a: seq<Row>, b: seq<Row>, n: nat)
    requires Fetched(q, table, limit, a) && Fetched(q, table, limit, b) && n <= |a| && n <= |b|
    ensures a[..n] == b[..n]
  {
    hide Matches, Before;
    if n > 0 {
      FetchedAgree(q, table, limit, a, b, n - 1);
      NextSame(q, table, limit, a, b, n - 1);
      assert a[..n] == a[..n - 1] + [a[n - 1]] && b[..n] == b[..n - 1] + [b[n - 1]];
    }
  }

  /** A batch is determined by its query: two answers to it are the same rows in the same order. */
  lemma FetchedUnique(q: Query, table: set<Row>, limit: nat, a: seq<Row>, b: seq<Row>)
    requires Fetched(q, table, limit, a) && Fetched(q, table, limit, b)
    ensures a == b
  {
    hide Fetched;
    NotLonger(q, table, limit, a, b);
    NotLonger(q, table, limit, b, a);
    FetchedAgree(q, table, limit, a, b, |a|);
    assert a == a[..|a|] && b == b[..|b|];
  }

  lemma NotLonger(q: Query, table: set<Row>, limit: nat, a: seq<Row>, b: seq<Row>)
    requires Fetched(q, table, limit, a) && Fetched(q, table, limit, b)
    ensures |b| <= |a|
  {
    hide Matches, Before;
    if |a| < |b| {
      FetchedAgree(q, table, limit, a, b, |a|);
      NoRepeat(q, b, |a|);
      assert false;
    }
  }

  lemma NoRepeat(q: Query, rows: seq<Row>, n: nat)
    requires n < |rows| && forall i, j :: 0 <= i < j < |rows| ==> Before(q, rows[i], rows[j])
    ensures rows[n] !in rows[..n]
  {
  }

  lemma NextSame(q: Query, table: set<Row>, limit: nat, a: seq<Row>, b: seq<Row>, n: nat)
    requires Fetched(q, table, limit, a) && Fetched(q, table, limit, b) && n < |a| && n < |b| && a[..n] == b[..n]
    ensures a[n] == b[n]
  {
    hide Matches;
    NoRepeat(q, a, n);
    NoRepeat(q, b, n);
    assert a[n] in b ==> exists k :: n <= k < |b| && b[k] == a[n];
    assert b[n] in a ==> exists k :: n <= k < |a| && a[k] == b[n];
    assert a[n] == b[n] || Before(q, b[n], a[n]);
    assert a[n] == b[n] || Before(q, a[n], b[n]);
  }

  // ---------------------------------------------------------------- what the store answers

  /** What the calls in between have used up of the answers to come, all of them good or the last one not. */
  ghost predicate Drawn(before: seq<bool>, after: seq<bool>, good: bool) {
    && |after| <= |before| && after == before[|before| - |after|..]
    && (good <==> forall k :: 0 <= k < |before| - |after| ==> before[k])
  }

  lemma DrawnMore(a: seq<bool>, b: seq<bool>, c: seq<bool>, good: bool)
    requires Drawn(a, b, true) && Drawn(b, c, good)
    ensures Drawn(a, c, good)
  {
    assert forall k :: 0 <= k < |b| ==> b[k] == a[|a| - |b| + k];
    if forall k :: 0 <= k < |a| - |c| ==> a[k] {
      forall k | 0 <= k < |b| - |c| ensures b[k] {
        assert a[|a| - |b| + k];
      }
    }
  }

  // ---------------------------------------------------------------- order of the log

  /** Within a channel, rows queued later do not carry an earlier time. */
  ghost predicate ClockKept(rows: set<Row>) {
    forall a, b :: a in rows && b in rows && SameChannel(a.channel, b.channel) && a.id < b.id ==> a.time <= b.time
  }

  /** Every row stands behind all earlier rows of its channel from the given set. */
  ghost predicate InOrder(written: seq<Row>, rows: set<Row>) {
    forall k, r :: 0 <= k < |written| && r in rows && SameChannel(r.channel, written[k].channel) && r.id < written[k].id
                   ==> r in written[..k]
  }

  /**
   Batches respect the order within every channel exactly when the clock did: a
   channel query always does, and a due query does for all cutoffs and limits if and
   only if no queued row of a channel is older than one queued before it.
   */
  lemma BatchesInOrder(q: Query, table: set<Row>, limit: nat, rows: seq<Row>)
    requires Fetched(q, table, limit, rows) && (q.OfChannel? || ClockKept(table))
    ensures InOrder(rows, table)
  {
    forall k, r | 0 <= k < |rows| && r in table && SameChannel(r.channel, rows[k].channel) && r.id < rows[k].id
      ensures r in rows[..k]
    {
      assert Matches(q, rows[k]) && Matches(q, r) && Before(q, r, rows[k]);
      assert r in rows;
      var n :| 0 <= n < |rows| && rows[n] == r;
      assert n < k || Before(q, rows[k], rows[n]) || n == k;
      assert rows[..k][n] == r;
    }
  }

  ghost predicate AllDueBatchesInOrder(table: set<Row>) {
    forall cutoff: int, limit: nat, rows: seq<Row> :: Fetched(DueBy(cutoff), table, limit, rows) ==>
        InOrder(rows, table)
  }

  lemma DueOrderExact(table: set<Row>)
    requires Keyed(table)
    ensures AllDueBatchesInOrder(table) <==> ClockKept(table)
  {
    if ClockKept(table) {
      forall cutoff: int, limit: nat, rows: seq<Row> | Fetched(DueBy(cutoff), table, limit, rows)
        ensures InOrder(rows, table)
      {
        BatchesInOrder(DueBy(cutoff), table, limit, rows);
      }
    } else {
      var a, b :| a in table && b in table && SameChannel(a.channel, b.channel) && a.id < b.id && a.time > b.time;
      OutOfOrderBatch(table, a, b);
    }
  }

  /** A later row with an earlier time is fetched while the earlier row is not due. */
  lemma OutOfOrderBatch(table: set<Row>, a: Row, b: Row)
    requires Keyed(table) && a in table && b in table && SameChannel(a.channel, b.channel) && a.id < b.id &&
              a.time > b.time
    ensures !AllDueBatchesInOrder(table)
  {
    var q := DueBy(b.time);
    var due := Selected(q, table);
    var rows := SortAll(q, due);
    forall r ensures r in rows <==> r in table && Matches(q, r) {
      assert r in Elements(rows) <==> r in due;
    }
    assert Fetched(q, table, |rows|, rows);
    assert b in due && a !in due;
    var k :| 0 <= k < |rows| && rows[k] == b;
    assert a !in rows;
    assert a !in rows[..k];
    assert !InOrder(rows, table);
  }

  /** Any finite set of rows can be listed in the order of a query. */
  lemma {:induction false} SortAll(q: Query, s: set<Row>) returns (rows: seq<Row>)
    requires Keyed(s)
    ensures Elements(rows) == s
    ensures forall i, j :: 0 <= i < j < |rows| ==> Before(q, rows[i], rows[j])
    decreases |s|
  {
    if s == {} {
      rows := [];
    } else {
      var least := LeastExists(q, s);
      var rest := SortAll(q, s - {least});
      rows := [least] + rest;
      forall i, j | 0 <= i < j < |rows| ensures Before(q, rows[i], rows[j]) {
        if i == 0 {
          assert rows[j] in Elements(rest);
        }
      }
      forall r ensures r in rows <==> r in s {
        assert r in rest <==> r in Elements(rest);
      }
    }
  }

  // ---------------------------------------------------------------- durability

  /**
   No accepted row is lost: it is still queued or has been written. Only accepted
   rows are written, and as long as the clock kept its order no row is written
   ahead of an earlier one of its channel.
   */
  ghost predicate Durable(accepted: set<Row>, table: set<Row>, written: seq<Row>) {
    && Keyed(accepted) && table <= accepted
    && (forall r :: r in written ==> r in accepted)
    && (forall r :: r in accepted ==> r in table || r in written)
    && (ClockKept(accepted) ==> InOrder(written, accepted))
  }

  /** Queued and written together hold every accepted row once. */
  ghost predicate ExactlyOnce(accepted: set<Row>, table: set<Row>, written: seq<Row>) {
    multiset(written) + multiset(table) == multiset(accepted)
  }

  lemma DurableEnqueue(accepted: set<Row>, table: set<Row>, written: seq<Row>, r: Row)
    requires Durable(accepted, table, written) && forall a :: a in accepted ==> a.id < r.id
    ensures Durable(accepted + {r}, table + {r}, written)
    ensures ExactlyOnce(accepted, table, written) ==> ExactlyOnce(accepted + {r}, table + {r}, written)
  {
    assert r !in accepted && r !in table;
    assert multiset(table + {r}) == multiset(table) + multiset{r};
    assert multiset(accepted + {r}) == multiset(accepted) + multiset{r};
  }

  /** Writing the next row of a batch, all earlier rows of the batch being written. */
  lemma DurableWrite(accepted: set<Row>, table: set<Row>, written: seq<Row>,
                     q: Query, limit: nat, rows: seq<Row>, n: nat)
    requires Durable(accepted, table, written) && Fetched(q, table, limit, rows) && n < |rows|
    requires forall k :: 0 <= k < n ==> rows[k] in written
    ensures Durable(accepted, table, written + [rows[n]])
  {
    var written' := written + [rows[n]];
    if ClockKept(accepted) {
      BatchesInOrder(q, table, limit, rows);
      forall k, r | 0 <= k < |written'| && r in accepted && SameChannel(r.channel, written'[k].channel) &&
          r.id < written'[k].id
        ensures r in written'[..k]
      {
        if k < |written| {
          assert written'[k] == written[k] && written'[..k] == written[..k];
        } else {
          assert written'[..k] == written;
          assert r in table ==> r in rows[..n];
        }
      }
    }
  }

  lemma DurableDelete(accepted: set<Row>, table: set<Row>, written: seq<Row>, rows: seq<Row>)
    requires Durable(accepted, table, written) && forall r :: r in rows ==> r in written
    ensures Durable(accepted, table - Elements(rows), written)
  {
  }

  /** A batch that is written and deleted moves its rows from the queue to the log. */
  lemma ExactlyOnceBatch(accepted: set<Row>, table: set<Row>, written: seq<Row>, q: Query, limit: nat, rows: seq<Row>)
    requires ExactlyOnce(accepted, table, written) && Fetched(q, table, limit, rows)
    ensures ExactlyOnce(accepted, table - Elements(rows), written + rows)
    ensures |table - Elements(rows)| == |table| - |rows| && |rows| <= |table|
  {
    OrderedRowsDistinct(q, rows);
    TakeAway(table, Elements(rows));
  }

  lemma TakeAway(table: set<Row>, part: set<Row>)
    requires part <= table
    ensures multiset(table) == multiset(table - part) + multiset(part)
    ensures |table - part| == |table| - |part|
  {
    assert table == (table - part) + part;
  }

  lemma KeyedPart(table: set<Row>, part: set<Row>)
    requires Keyed(table) && part <= table
    ensures Keyed(part)
  {
  }

  // ---------------------------------------------------------------- the code

  datatype Batch = Broken | Nothing | Flushed(count: nat)

  class Store {
    const maxRows: nat
    var table: set<Row>
    var nextId: nat
    var count: nat  // log_queue_count
    var answers: seq<bool>  // whether the database calls and file writes to come succeed; they do when this runs out

    ghost var accepted: set<Row>
    ghost var written: seq<Row>
    ghost var troubled: bool  // some write or delete has failed

    ghost predicate Valid()
      reads this`table, this`nextId, this`count, this`accepted, this`written, this`troubled
    {
      && Durable(accepted, table, written)
      && count == |table|
      && (forall r :: r in accepted ==> 0 < r.id < nextId)
      && (!troubled ==> ExactlyOnce(accepted, table, written))
      && nextId > 0
    }

    constructor (maxRows: nat, answers: seq<bool>)
      ensures Valid() && table == {} && written == [] && !troubled
      ensures this.maxRows == maxRows && this.answers == answers
    {
      this.maxRows := maxRows;
      this.answers := answers;
      table, nextId, count := {}, 1, 0;
      accepted, written, troubled := {}, [], false;
    }

    /**
     In every reachable state an accepted row is still queued or already written, in
     the order of its channel; short of any failure it is in exactly one place, once.
     */
    lemma NothingLost(r: Row)
      requires Valid() && r in accepted
      ensures r in table || r in written
      ensures !troubled ==> multiset(written)[r] == if r in table then 0 else 1
      ensures ClockKept(accepted) ==> InOrder(written, accepted)
    {
      if !troubled {
        assert (multiset(written) + multiset(table))[r] == multiset(accepted)[r];
      }
    }

    /** Whether the next database call or file write succeeds. */
    method Ask() returns (ok: bool)
      modifies this`answers
      ensures Drawn(old(answers), answers, ok)
      ensures |answers| == if old(answers) == [] then 0 else |old(answers)| - 1
    {
      if answers == [] {
        return true;
      }
      ok := answers[0];
      answers := answers[1..];
    }

    /**
     enqueue: nothing to do where logging is off, refused when the queue is full or
     the database fails, durable otherwise.
     */
    method Enqueue(enabled: bool, channel: CString, when: int, body: CString) returns (rc: int)
      requires Valid()
      modifies this`table, this`nextId, this`count, this`accepted, this`answers
      ensures Valid()
      ensures rc == 0 || rc == -1
      ensures !enabled ==> rc == 0 && answers == old(answers)
      ensures enabled && old(count) < maxRows ==> Drawn(old(answers), answers, rc == 0)
      ensures enabled && old(count) >= maxRows ==> rc == -1
      ensures !enabled || rc == -1 ==> table == old(table) && accepted == old(accepted)
      ensures enabled && rc == 0 ==>
                var row := Row(old(nextId), channel, when, body);
                accepted == old(accepted) + {row} && table == old(table) + {row} && count == old(count) + 1
    {
      hide Valid, Drawn;
      if !enabled {
        return 0;
      }
      var ready := Ask();
      if !ready {
        return -1;
      }
      if count >= maxRows {
        return -1;
      }
      ghost var between := answers;
      var inserted := Ask();
      DrawnMore(old(answers), between, answers, inserted);
      if !inserted {
        return -1;
      }
      AddRow(channel, when, body);
      rc := 0;
    }

    /** chanserv_db_logging_queue_add as it succeeds. */
    method AddRow(channel: CString, when: int, body: CString)
      requires Valid()
      modifies this`table, this`nextId, this`count, this`accepted
      ensures Valid() && count == old(count) + 1
      ensures var row := Row(old(nextId), channel, when, body);
              accepted == old(accepted) + {row} && table == old(table) + {row}
    {
      hide Durable, ExactlyOnce;
      var row := Row(nextId, channel, when, body);
      IdsBelow(nextId);
      DurableEnqueue(accepted, table, written, row);
      table, accepted := table + {row}, accepted + {row};
      nextId := nextId + 1;
      count := count + 1;
    }

    lemma IdsBelow(id: nat)
      requires Valid() && id >= nextId
      ensures forall r :: r in table ==> r.id < id
    {
    }

    /** The select of a query with its limit. */
    method Fetch(q: Query, limit: nat) returns (rows: seq<Row>)
      requires Keyed(table)
      ensures Fetched(q, table, limit, rows)
    {
      hide Matches, Before, Keyed;
      rows := [];
      var remaining := set r | r in table && Matches(q, r);
      while |rows| < limit && remaining != {}
        invariant |rows| <= limit && remaining <= table
        invariant forall r :: r in table && Matches(q, r) <==> r in remaining || r in rows
        invariant forall k :: 0 <= k < |rows| ==> rows[k] in table && Matches(q, rows[k])
        invariant forall k, r :: 0 <= k < |rows| && r in remaining ==> Before(q, rows[k], r)
        invariant forall i, j :: 0 <= i < j < |rows| ==> Before(q, rows[i], rows[j])
        decreases |remaining|
      {
        KeyedPart(table, remaining);
        ghost var first := LeastExists(q, remaining);
        var least :| least in remaining && forall r :: r in remaining && r != least ==> Before(q, least, r);
        rows := rows + [least];
        remaining := remaining - {least};
      }
    }

    /** write_queue_record: the line may reach the file even though closing it then fails. */
    method WriteRow(row: Row) returns (ok: bool)
      modifies this`written, this`troubled, this`answers
      ensures Drawn(old(answers), answers, ok)
      ensures written == old(written) + [row] || (!ok && written == old(written))
      ensures troubled == (old(troubled) || !ok)
    {
      hide Drawn;
      ok := Ask();
      if ok {
        written := written + [row];
        ghost var between := answers;
        ok := Ask();
        DrawnMore(old(answers), between, answers, ok);
      }
      if !ok {
        troubled := true;
      }
    }

    /** The write loop of a batch: appends the rows to the log until one fails. */
    method WriteRows(q: Query, limit: nat, rows: seq<Row>) returns (ok: bool)
      requires Valid() && Fetched(q, table, limit, rows)
      modifies this`written, this`troubled, this`answers
      ensures Durable(accepted, table, written)
      ensures Drawn(old(answers), answers, ok)
      ensures ok ==> written == old(written) + rows && troubled == old(troubled)
      ensures !ok ==> troubled && exists n :: 0 <= n <= |rows| && written == old(written) + rows[..n]
    {
      hide Durable, ExactlyOnce, Fetched, Drawn;
      assert old(written) + rows[..0] == written;
      NoneDrawn(answers);
      for i := 0 to |rows|
        invariant Durable(accepted, table, written)
        invariant written == old(written) + rows[..i] && troubled == old(troubled)
        invariant Drawn(old(answers), answers, true)
      {
        assert old(written) + rows[..i] + [rows[i]] == old(written) + rows[..i + 1];
        assert forall k :: 0 <= k < i ==> rows[..i][k] in written;
        DurableWrite(accepted, table, written, q, limit, rows, i);
        ghost var between := answers;
        var wrote := WriteRow(rows[i]);
        DrawnMore(old(answers), between, answers, wrote);
        if !wrote {
          return false;
        }
      }
      assert rows[..|rows|] == rows;
      ok := true;
    }

    /**
     One round of either flush: fetch, write, delete, count. When it succeeds it has
     moved exactly the fetched rows from the table to the log; otherwise it has at most
     written some of them.
     */
    method FlushBatch(q: Query, capacity: nat) returns (result: Batch, ghost rows: seq<Row>)
      requires Valid() && capacity > 0
      modifies this`table, this`count, this`written, this`troubled, this`answers
      ensures Valid()
      ensures Drawn(old(answers), answers, !result.Broken?)
      ensures result.Flushed? ==> Fetched(q, old(table), capacity, rows) && 0 < result.count == |rows|
                                  && written == old(written) + rows && table == old(table) - Elements(rows)
                                  && troubled == old(troubled)
      ensures result.Nothing? ==> table == old(table) && written == old(written) && Selected(q, table) == {}
                                  && troubled == old(troubled)
      ensures result.Broken? ==> table == old(table) && old(written) <= written
                                 && |written| <= |old(written)| + capacity
    {
      hide Durable, ExactlyOnce, Keyed, Drawn, Matches, Before;
      rows := [];
      var fetched := Ask();
      if !fetched {
        return Broken, [];
      }
      KeyedTable();
      var batch := Fetch(q, capacity);
      rows := batch;
      if |batch| == 0 {
        return Nothing, rows;
      }
      ghost var between := answers;
      var wrote := WriteRows(q, capacity, batch);
      DrawnMore(old(answers), between, answers, wrote);
      if !wrote {
        return Broken, rows;
      }
      between := answers;
      var deleted := DeleteBatch(q, capacity, batch, old(written));
      DrawnMore(old(answers), between, answers, deleted);
      result := if deleted then Flushed(|batch|) else Broken;
    }

    /** The delete behind a written batch and the counter update. */
    method DeleteBatch(q: Query, limit: nat, rows: seq<Row>, ghost before: seq<Row>) returns (ok: bool)
      requires Durable(accepted, table, written) && count == |table| && nextId > 0
      requires forall r :: r in accepted ==> 0 < r.id < nextId
      requires Keyed(table) && Fetched(q, table, limit, rows) && rows != [] && written == before + rows
      requires !troubled ==> ExactlyOnce(accepted, table, before)
      modifies this`table, this`count, this`troubled, this`answers
      ensures Valid()
      ensures Drawn(old(answers), answers, ok)
      ensures ok ==> table == old(table) - Elements(rows) && troubled == old(troubled)
      ensures !ok ==> table == old(table) && troubled
    {
      hide Durable, ExactlyOnce, Keyed, Fetched, Elements, Drawn;
      var deleted := Ask();
      if !deleted {
        troubled := true;
        return false;
      }
      var last := rows[|rows| - 1];
      DeleteExact(q, table, limit, rows);
      BatchSize(q, limit, rows);
      DurableDelete(accepted, table, written, rows);
      if !troubled {
        ExactlyOnceBatch(accepted, table, before, q, limit, rows);
      }
      ghost var gone := set r | r in table && DeletedBy(q, last, r);
      table := set r | r in table && !DeletedBy(q, last, r);
      assert table == old(table) - gone;
      assert count >= |rows|;  // so the branch that would saturate at zero is never taken
      count := count - |rows|;
      ok := true;
    }

    lemma KeyedTable()
      requires Valid()
      ensures Keyed(table)
    {
    }

    /** A batch is part of the table, so the saturating branch of the counter is never taken. */
    lemma BatchSize(q: Query, limit: nat, rows: seq<Row>)
      requires Fetched(q, table, limit, rows)
      ensures |rows| <= |table| && |table - Elements(rows)| == |table| - |rows|
    {
      OrderedRowsDistinct(q, rows);
      TakeAway(table, Elements(rows));
    }

    /**
     flush_channel: the first rows of one channel, as many as the budget allows, in
     rounds of bounded size. It fails exactly when the budget is zero or some call does.
     */
    method FlushChannel(name: CString, budget: nat) returns (rc: int, flushed: nat, ghost rows: seq<Row>)
      requires Valid()
      modifies this`table, this`count, this`written, this`troubled, this`answers
      ensures Valid() && (rc == 0 || rc == -1)
      ensures budget == 0 ==> rc == -1 && answers == old(answers)
      ensures budget > 0 ==> Drawn(old(answers), answers, rc == 0)
      ensures flushed == if rc == 0 then |rows| else 0
      ensures Moved(OfChannel(name), budget, rc == 0, rows)
    {
      rc, flushed, rows := FlushQuery(OfChannel(name), budget);
    }

    /** flush_queued: the oldest due rows of all channels, within the row budget. */
    method FlushQueued(cutoff: int, budget: nat) returns (rc: int, ghost rows: seq<Row>)
      requires Valid()
      modifies this`table, this`count, this`written, this`troubled, this`answers
      ensures Valid() && (rc == 0 || rc == -1)
      ensures budget == 0 ==> rc == -1 && answers == old(answers)
      ensures budget > 0 ==> Drawn(old(answers), answers, rc == 0)
      ensures Moved(DueBy(cutoff), budget, rc == 0, rows)
    {
      var flushed;
      rc, flushed, rows := FlushQuery(DueBy(cutoff), budget);
    }

    /**
     What a flush has moved from the table to the log: the rows of the one query with
     the whole budget as its limit if it succeeds, and otherwise the first of them,
     with at most one round more written.
     */
    twostate predicate Moved(q: Query, budget: nat, good: bool, rows: seq<Row>)
      reads this`table, this`written, this`troubled
    {
      && Fetched(q, old(table), if good then budget else |rows|, rows) && |rows| <= budget
      && table == old(table) - Elements(rows)
      && (good ==> written == old(written) + rows && troubled == old(troubled))
      && (!good ==> old(written) + rows <= written && |written| <= |old(written)| + budget
                    && |written| <= |old(written)| + |rows| + FETCH_ROWS)
    }

    /** The opening both flushes share. */
    method FlushQuery(q: Query, budget: nat) returns (rc: int, flushed: nat, ghost rows: seq<Row>)
      requires Valid()
      modifies this`table, this`count, this`written, this`troubled, this`answers
      ensures Valid() && (rc == 0 || rc == -1)
      ensures budget == 0 ==> rc == -1 && answers == old(answers)
      ensures budget > 0 ==> Drawn(old(answers), answers, rc == 0)
      ensures flushed == if rc == 0 then |rows| else 0
      ensures Moved(q, budget, rc == 0, rows)
    {
      hide Durable, ExactlyOnce, Drawn, Matches, Before;
      rows := [];
      assert table == old(table) - Elements(rows) && old(written) + rows == written;
      if budget == 0 {
        return -1, 0, rows;
      }
      var ready := Ask();
      if !ready {
        return -1, 0, rows;
      }
      ghost var between := answers;
      var total: nat;
      rc, total, rows := Drain(q, budget);
      DrawnMore(old(answers), between, answers, rc == 0);
      flushed := if rc == 0 then total else 0;
    }

    /** The loop both flushes share. */
    method Drain(q: Query, budget: nat) returns (rc: int, total: nat, ghost rows: seq<Row>)
      requires Valid()
      modifies this`table, this`count, this`written, this`troubled, this`answers
      ensures Valid() && (rc == 0 || rc == -1)
      ensures Drawn(old(answers), answers, rc == 0)
      ensures total == |rows|
      ensures Moved(q, budget, rc == 0, rows)
    {
      hide Valid, Fetched, Elements, Drawn, Selected;
      total, rows := 0, [];
      NothingYet(q, table);
      NoneDrawn(answers);
      while total < budget
        invariant Valid() && total == |rows| <= budget
        invariant Fetched(q, old(table), |rows|, rows) && table == old(table) - Elements(rows)
        invariant written == old(written) + rows && troubled == old(troubled)
        invariant Drawn(old(answers), answers, true)
        decreases budget - total
      {
        var capacity := if budget - total < FETCH_ROWS then budget - total else FETCH_ROWS;
        ghost var between := answers;
        var batch;
        ghost var more;
        batch, more := FlushBatch(q, capacity);
        DrawnMore(old(answers), between, answers, !batch.Broken?);
        if batch.Broken? {
          return -1, total, rows;
        }
        if batch.Nothing? {
          FetchedAll(q, old(table), rows, budget);
          return 0, total, rows;
        }
        FetchedAppend(q, old(table), rows, capacity, more);
        assert |more| <= capacity by { BatchFits(q, old(table) - Elements(rows), capacity, more); }
        assert old(written) + rows + more == old(written) + (rows + more);
        rows := rows + more;
        total := total + batch.count;
      }
      rc := 0;
    }
  }

  lemma NoneDrawn(answers: seq<bool>)
    ensures Drawn(answers, answers, true)
  {
  }

  lemma NothingYet(q: Query, table: set<Row>)
    ensures Fetched(q, table, 0, []) && table - Elements([]) == table
  {
  }

  lemma BatchFits(q: Query, table: set<Row>, limit: nat, rows: seq<Row>)
    requires Fetched(q, table, limit, rows)
    ensures |rows| <= limit
  {
  }
}
