/**
 The daemon's side of log streaming: the reader's queries over the stored log and
 the `LogsStream` handler. Every query opens its own connection, so two queries of
 one request may see the log at two moments; a query that fails to open or to run
 sees it empty.
 */
module LogServer {
  import opened Wrappers

  datatype LogEntry = LogEntry(id: int, service: string, line: string)

  type Log = seq<LogEntry>

  /** The services, hook, text and time filters of a request, taken together. */
  type Query = LogEntry -> bool

  const STREAM_CHUNK_SIZE: nat := 5000

  /** Row ids are positive and grow with every insertion. */
  ghost predicate Stored(log: Log) {
    && (forall i :: 0 <= i < |log| ==> log[i].id > 0)
    && (forall i, j :: 0 <= i < j < |log| ==> log[i].id < log[j].id)
  }

  /** The matching entries above a cursor, oldest first. */
  function After(log: Log, q: Query, cursor: int): Log {
    if log == [] then []
    else
      var last := log[|log| - 1];
      After(log[..|log| - 1], q, cursor) + if last.id > cursor && q(last) then [last] else []
  }

  function Take(log: Log, n: nat): Log {
    if |log| <= n then log else log[..n]
  }

  // ----- reader queries

  function ReadAfter(log: Log, q: Query, cursor: int, limit: nat): (Log, bool) {
    var fetched := Take(After(log, q, cursor), limit + 1);
    (Take(fetched, limit), |fetched| > limit)
  }

  function TailStartId(log: Log, q: Query, count: nat): Option<int> {
    var matching := After(log, q, 0);
    if count == 0 || |matching| < count then None else Some(matching[|matching| - count].id)
  }

  function MaxId(log: Log): int {
    if log == [] then 0 else log[|log| - 1].id
  }

  // ----- the handler

  datatype StreamRequest = StreamRequest(afterId: Option<int>, fromEnd: bool, limit: nat, tail: bool)

  /** What the handler saw: the log at its anchor query and at its read, and the writer's backlog flag. */
  datatype View = View(first: Log, second: Log, hasPending: bool)

  datatype LogStreamData = LogStreamData(entries: Log, lastId: int, hasMore: bool)

  function EffectiveAfterId(q: Query, req: StreamRequest, log: Log): int {
    if req.tail then
      match TailStartId(log, q, req.limit)
      case Some(start) => start - 1
      case None => 0
    else if req.afterId.Some? then req.afterId.value
    else if req.fromEnd then MaxId(log)
    else 0
  }

  function HandleLogsStream(q: Query, req: StreamRequest, view: View): LogStreamData {
    var chunk := if req.limit < STREAM_CHUNK_SIZE then req.limit else STREAM_CHUNK_SIZE;
    var cursor := EffectiveAfterId(q, req, view.first);
    var (entries, more) := ReadAfter(view.second, q, cursor, chunk);
    LogStreamData(entries, if entries == [] then cursor else entries[|entries| - 1].id, more || view.hasPending)
  }

  // ----- facts about reading forward

  lemma StoredAppend(log: Log, e: LogEntry)
    requires Stored(log) && e.id > 0 && (log != [] ==> log[|log| - 1].id < e.id)
    ensures Stored(log + [e])
  {
    forall i | 0 <= i < |log| ensures log[i].id < e.id {
      assert log[i].id <= log[|log| - 1].id;
    }
  }

  lemma StoredInit(log: Log)
    requires Stored(log) && log != []
    ensures var init, last := log[..|log| - 1], log[|log| - 1];
            Stored(init) && last.id > 0 && (init != [] ==> init[|init| - 1].id < last.id)
  {
  }

  lemma {:induction false} AfterStored(log: Log, q: Query, cursor: int)
    requires Stored(log)
    ensures var due := After(log, q, cursor);
            && Stored(due)
            && (forall i :: 0 <= i < |due| ==> due[i].id > cursor)
            && (due != [] ==> log != [] && due[|due| - 1].id <= log[|log| - 1].id)
  {
    if log != [] {
      var init, last := log[..|log| - 1], log[|log| - 1];
      StoredInit(log);
      AfterStored(init, q, cursor);
      StoredAppend(After(init, q, cursor), last);
    }
  }

  lemma {:induction false} AfterMembers(log: Log, q: Query, cursor: int, e: LogEntry)
    ensures e in After(log, q, cursor) <==> e in log && e.id > cursor && q(e)
  {
    if log != [] {
      var init, last := log[..|log| - 1], log[|log| - 1];
      AfterMembers(init, q, cursor, e);
      assert log == init + [last];
    }
  }

  lemma AfterSound(log: Log, q: Query, cursor: int)
    requires Stored(log)
    ensures Stored(After(log, q, cursor))
    ensures forall e :: e in After(log, q, cursor) <==> e in log && e.id > cursor && q(e)
  {
    AfterStored(log, q, cursor);
    forall e ensures e in After(log, q, cursor) <==> e in log && e.id > cursor && q(e) {
      AfterMembers(log, q, cursor, e);
    }
  }

  lemma {:induction false} AfterOfPrefix(view: Log, log: Log, q: Query, cursor: int)
    requires view <= log
    ensures After(view, q, cursor) <= After(log, q, cursor)
  {
    if |view| < |log| {
      AfterOfPrefix(view, log[..|log| - 1], q, cursor);
    } else {
      assert view == log;
    }
  }

  /** Raising the cursor to a point between two entries that were due drops the ones below it. */
  lemma {:induction false} RaiseCursor(log: Log, q: Query, cursor: int, higher: int, k: nat)
    requires cursor <= higher && k <= |After(log, q, cursor)|
    requires forall i :: 0 <= i < k ==> After(log, q, cursor)[i].id <= higher
    requires forall i :: k <= i < |After(log, q, cursor)| ==> After(log, q, cursor)[i].id > higher
    ensures After(log, q, higher) == After(log, q, cursor)[k..]
  {
    if log != [] {
      var init, last := log[..|log| - 1], log[|log| - 1];
      var all, some := After(log, q, cursor), After(init, q, cursor);
      if last.id > cursor && q(last) {
        assert all == some + [last] && all[|some|] == last;
        assert forall i :: 0 <= i < |some| ==> all[i] == some[i];
        if k <= |some| {
          RaiseCursor(init, q, cursor, higher, k);
          assert all[k..] == some[k..] + if last.id > higher then [last] else [];
        } else {
          RaiseCursor(init, q, cursor, higher, |some|);
        }
      } else {
        assert all == some;
        RaiseCursor(init, q, cursor, higher, k);
      }
    }
  }

  /** Reading on from an entry that was read leaves exactly the entries behind it. */
  lemma AdvanceCursor(log: Log, q: Query, cursor: int, k: nat)
    requires Stored(log) && k < |After(log, q, cursor)|
    ensures After(log, q, After(log, q, cursor)[k].id) == After(log, q, cursor)[k + 1..]
  {
    var id := After(log, q, cursor)[k].id;
    AfterStored(log, q, cursor);
    RaiseCursor(log, q, cursor, id, k + 1);
  }

  /** Reading from just before it leaves that entry too. */
  lemma StepBackCursor(log: Log, q: Query, cursor: int, k: nat)
    requires Stored(log) && k < |After(log, q, cursor)|
    ensures After(log, q, After(log, q, cursor)[k].id - 1) == After(log, q, cursor)[k..]
  {
    var id := After(log, q, cursor)[k].id;
    AfterStored(log, q, cursor);
    RaiseCursor(log, q, cursor, id - 1, k);
  }

  lemma {:induction false} AfterBounded(log: Log, q: Query, cursor: int)
    ensures |After(log, q, cursor)| <= |log|
  {
    if log != [] {
      AfterBounded(log[..|log| - 1], q, cursor);
    }
  }

  // ----- one response

  /**
   A response carries the next matching entries after its cursor, without a gap, up to
   the chunk; its `lastId` continues exactly behind them, whatever was appended since.
   */
  lemma ResponseContinues(q: Query, req: StreamRequest, view: View, log: Log)
    requires Stored(log) && view.first <= log && view.second <= log
    ensures var data := HandleLogsStream(q, req, view);
            && |data.entries| <= req.limit && |data.entries| <= STREAM_CHUNK_SIZE
            && data.entries + After(log, q, data.lastId) == After(log, q, EffectiveAfterId(q, req, view.first))
            && data.lastId >= EffectiveAfterId(q, req, view.first)
  {
    var cursor := EffectiveAfterId(q, req, view.first);
    AfterOfPrefix(view.second, log, q, cursor);
    ReadForward(view.second, log, q, cursor, if req.limit < STREAM_CHUNK_SIZE then req.limit else STREAM_CHUNK_SIZE);
  }

  lemma ReadForward(view: Log, log: Log, q: Query, cursor: int, limit: nat)
    requires Stored(log) && After(view, q, cursor) <= After(log, q, cursor)
    ensures var entries := ReadAfter(view, q, cursor, limit).0;
            && |entries| <= limit
            && entries + After(log, q, if entries == [] then cursor else entries[|entries| - 1].id) == After(log, q, cursor)
            && (entries != [] ==> entries[|entries| - 1].id > cursor)
  {
    var entries := ReadAfter(view, q, cursor, limit).0;
    if entries != [] {
      BehindPrefix(log, q, cursor, entries);
    }
  }

  lemma BehindPrefix(log: Log, q: Query, cursor: int, entries: Log)
    requires Stored(log) && entries != [] && entries <= After(log, q, cursor)
    ensures entries + After(log, q, entries[|entries| - 1].id) == After(log, q, cursor)
    ensures entries[|entries| - 1].id > cursor
  {
    AfterStored(log, q, cursor);
    AdvanceCursor(log, q, cursor, |entries| - 1);
  }

  /** Without `hasMore`, or with nothing read, the response exhausted what its read saw. */
  lemma ResponseExhausts(q: Query, req: StreamRequest, view: View, log: Log)
    requires Stored(log) && view.first <= log && view.second <= log && req.limit > 0
    ensures var data := HandleLogsStream(q, req, view);
            !data.hasMore || data.entries == [] ==>
              data.entries == After(view.second, q, EffectiveAfterId(q, req, view.first))
  {
  }

  /** A response is full: it stops short of the limit and of the chunk only where its read saw no more. */
  lemma ResponseFills(q: Query, req: StreamRequest, view: View)
    ensures var data, due := HandleLogsStream(q, req, view), After(view.second, q, EffectiveAfterId(q, req, view.first));
            && data.entries <= due
            && (data.entries == due || |data.entries| == req.limit || |data.entries| == STREAM_CHUNK_SIZE)
            && (data.hasMore <==> view.hasPending || |data.entries| < |due|)
  {
  }

  /** A tail request for more than there is starts at the beginning: every matching entry is due. */
  lemma ShortTailIsWhole(q: Query, req: StreamRequest, view: Log, log: Log)
    requires Stored(log) && req.tail && |After(view, q, 0)| < req.limit
    ensures forall e :: e in After(log, q, EffectiveAfterId(q, req, view)) <==> e in log && q(e)
  {
    AfterSound(log, q, 0);
  }

  /** The tail window: from its start on, the log reads as the last `count` entries, then newer ones. */
  lemma TailWindow(log: Log, view: Log, q: Query, count: nat)
    requires Stored(log) && view <= log && 0 < count <= |After(view, q, 0)|
    ensures var m := After(view, q, 0);
            && TailStartId(view, q, count).Some?
            && m[|m| - count..] <= After(log, q, TailStartId(view, q, count).value - 1)
  {
    var m := After(view, q, 0);
    var k := |m| - count;
    assert TailStartId(view, q, count) == Some(m[k].id);
    assert m[k..] <= After(log, q, m[k].id - 1) by {
      AfterOfPrefix(view, log, q, 0);
      FromEntryOn(log, q, m, k);
    }
  }

  lemma FromEntryOn(log: Log, q: Query, m: Log, k: nat)
    requires Stored(log) && m <= After(log, q, 0) && k < |m|
    ensures m[k..] <= After(log, q, m[k].id - 1)
  {
    StepBackCursor(log, q, 0, k);
    RestOfPrefix(m, After(log, q, 0), k);
  }

  lemma RestOfPrefix(some: Log, all: Log, k: nat)
    requires some <= all && k <= |some|
    ensures some[k..] <= all[k..]
  {
    assert some[k..] == all[k..][..|some| - k];
  }
}
