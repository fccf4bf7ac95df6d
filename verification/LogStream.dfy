/**
 The CLI's log streaming loop (`stream_logs`) against the daemon.

 A run is the list of turns the environment deals to the loop: how each request
 ended (answered, timed out, refused, ...) and what ended the wait after it. Nothing
 is assumed about how often requests time out or how the log grows between and
 during requests.
 */
module LogStream {
  import opened Wrappers
  import opened LogServer

  const MAX_FLUSH_WAITS: nat := 80

  datatype StreamMode = All | Follow | UntilQuiescent

  datatype StreamExitReason = Done | ShutdownRequested | ServerError | PermissionDenied

  datatype StreamParams = StreamParams(
    mode: StreamMode, limit: nat, tail: bool, maxTotal: Option<nat>, startAfterId: Option<int>)

  /** How a request ended. */
  datatype Rpc =
    | Interrupted            // the shutdown signal came first
    | TimedOut
    | Answered(view: View)   // the handler ran and saw `view`
    | OtherOk                // a success that carries no log data
    | Denied
    | NotLoaded              // the error "Config not loaded"
    | Failed                 // any other error
    | Disconnected

  /** What ended the wait at the end of an iteration. */
  datatype Wait = Shutdown | Quiescence | Elapsed

  datatype Turn = Turn(rpc: Rpc, wait: Wait)

  datatype Client = Client(
    lastId: Option<int>, remaining: Option<nat>, flushWaits: nat, quiescent: bool,
    printed: Log, exit: Option<StreamExitReason>)

  function Start(params: StreamParams): Client {
    Client(params.startAfterId, params.maxTotal, 0, false, [], None)
  }

  function NextRequest(params: StreamParams, c: Client): StreamRequest {
    var tailRequest := params.tail && c.lastId.None?;
    var limit := if c.remaining.Some? && !tailRequest && c.remaining.value < params.limit
                 then c.remaining.value else params.limit;
    StreamRequest(c.lastId, params.mode == Follow && c.lastId.None?, limit, tailRequest)
  }

  /** Printing a batch, cut to what the total still allows. */
  function Print(c: Client, data: LogStreamData): Client {
    var entries := if c.remaining.Some? then Take(data.entries, c.remaining.value) else data.entries;
    c.(lastId := Some(data.lastId),
       remaining := if c.remaining.Some? then Some(c.remaining.value - |entries|) else None,
       printed := c.printed + entries)
  }

  function Leave(c: Client, reason: StreamExitReason): Client {
    c.(exit := Some(reason))
  }

  /** The end of an iteration: go on at once, wait, or stop. */
  function Proceed(params: StreamParams, c: Client, hasMoreData: bool, pendingFlush: bool, wait: Wait): Client {
    if params.mode == All then
      if hasMoreData then c.(flushWaits := 0)
      else if pendingFlush && c.flushWaits < MAX_FLUSH_WAITS then
        var waited := c.(flushWaits := c.flushWaits + 1);
        if wait == Shutdown then Leave(waited, ShutdownRequested) else waited
      else Leave(c, Done)
    else if c.quiescent && !hasMoreData then Leave(c, Done)
    else if wait == Shutdown then Leave(c, ShutdownRequested)
    else if !hasMoreData && wait == Quiescence then c.(quiescent := true)
    else c
  }

  function Receive(params: StreamParams, c: Client, data: LogStreamData, wait: Wait): Client {
    var c' := Print(c, data);
    var nonempty := |c'.printed| > |c.printed|;
    if c.remaining.Some? && c'.remaining == Some(0) then Leave(c', Done)
    else Proceed(params, c', data.hasMore && nonempty, data.hasMore && !nonempty, wait)
  }

  function Step(params: StreamParams, q: Query, c: Client, turn: Turn): Client {
    match turn.rpc
    case Interrupted => Leave(c, ShutdownRequested)
    case TimedOut => c
    case Answered(view) => Receive(params, c, HandleLogsStream(q, NextRequest(params, c), view), turn.wait)
    case OtherOk => Proceed(params, c, false, false, turn.wait)
    case Denied => Leave(c, PermissionDenied)
    case NotLoaded =>
      if params.mode != UntilQuiescent || c.quiescent then Leave(c, Done)
      else if turn.wait == Shutdown then Leave(c, ShutdownRequested)
      else if turn.wait == Quiescence then c.(quiescent := true)
      else c
    case Failed => Leave(c, ServerError)
    case Disconnected => Leave(c, Done)
  }

  /** The client after the turns dealt so far; turns after its exit change nothing. */
  function Run(params: StreamParams, q: Query, turns: seq<Turn>): Client {
    if turns == [] then Start(params)
    else
      var c := Run(params, q, turns[..|turns| - 1]);
      if c.exit.Some? then c else Step(params, q, c, turns[|turns| - 1])
  }

  /** The part of the loop body behind the request. */
  method EndIteration(params: StreamParams, c: Client, hasMoreData: bool, pendingFlush: bool, wait: Wait)
    returns (flushWaits: nat, quiescentReceived: bool, exit: Option<StreamExitReason>)
    requires c.exit.None?
    ensures Proceed(params, c, hasMoreData, pendingFlush, wait)
              == c.(flushWaits := flushWaits, quiescent := quiescentReceived, exit := exit)
  {
    flushWaits, quiescentReceived, exit := c.flushWaits, c.quiescent, None;
    if params.mode == All {
      if !hasMoreData {
        if pendingFlush && flushWaits < MAX_FLUSH_WAITS {
          flushWaits := flushWaits + 1;
          if wait == Shutdown {
            exit := Some(ShutdownRequested);
          }
        } else {
          exit := Some(Done);
        }
      } else {
        flushWaits := 0;
      }
    } else {
      if quiescentReceived && !hasMoreData {
        exit := Some(Done);
      } else if wait == Shutdown {
        exit := Some(ShutdownRequested);
      } else if !hasMoreData && wait == Quiescence && !quiescentReceived {
        quiescentReceived := true;
      }
    }
  }

  /** A batch can overshoot the total: keep what is still owed. */
  method CutToTotal(batch: Log, remaining0: Option<nat>) returns (entries: Log, remaining: Option<nat>, exhausted: bool)
    ensures entries == if remaining0.Some? then Take(batch, remaining0.value) else batch
    ensures remaining == if remaining0.Some? then Some(remaining0.value - |entries|) else None
    ensures exhausted <==> remaining == Some(0)
  {
    entries, remaining, exhausted := batch, remaining0, false;
    if remaining.Some? {
      var n := remaining.value;
      entries := Take(entries, n);
      remaining := Some(n - |entries|);
      exhausted := |entries| == n;
    }
  }

  /** The request of one pass, answered: print the batch and say how to go on. */
  method TakeAnswer(params: StreamParams, q: Query, c: Client, view: View)
    returns (c': Client, hasMoreData: bool, pendingFlush: bool, exhausted: bool)
    ensures var data := HandleLogsStream(q, NextRequest(params, c), view);
            && c' == Print(c, data)
            && (hasMoreData <==> data.hasMore && |c'.printed| > |c.printed|)
            && (pendingFlush <==> data.hasMore && |c'.printed| == |c.printed|)
            && (exhausted <==> c.remaining.Some? && c'.remaining == Some(0))
  {
    var tailRequest := params.tail && c.lastId.None?;
    var requestLimit := params.limit;
    if c.remaining.Some? && !tailRequest && c.remaining.value < params.limit {
      requestLimit := c.remaining.value;
    }
    var fromEnd := params.mode == Follow && c.lastId.None?;
    var data := HandleLogsStream(q, StreamRequest(c.lastId, fromEnd, requestLimit, tailRequest), view);
    var entries, remaining;
    entries, remaining, exhausted := CutToTotal(data.entries, c.remaining);
    hasMoreData := data.hasMore && entries != [];
    pendingFlush := data.hasMore && entries == [];
    c' := c.(lastId := Some(data.lastId), remaining := remaining, printed := c.printed + entries);
  }

  /** One pass of the loop body, on the loop's variables. */
  method Iterate(params: StreamParams, q: Query, c: Client, turn: Turn) returns (c': Client)
    requires c.exit.None?
    ensures c' == Step(params, q, c, turn)
  {
    c' := c;
    var hasMoreData, pendingFlush := false, false;
    match turn.rpc {
      case Interrupted =>
        return Leave(c', ShutdownRequested);
      case TimedOut =>
        return c';
      case Answered(view) =>
        var exhausted;
        c', hasMoreData, pendingFlush, exhausted := TakeAnswer(params, q, c, view);
        if exhausted {
          return Leave(c', Done);
        }
      case OtherOk =>
      case Denied =>
        return Leave(c', PermissionDenied);
      case NotLoaded =>
        if params.mode == UntilQuiescent && !c'.quiescent {
          if turn.wait == Shutdown {
            return Leave(c', ShutdownRequested);
          }
          if turn.wait == Quiescence {
            c' := c'.(quiescent := true);
          }
          return c';
        }
        return Leave(c', Done);
      case Failed =>
        return Leave(c', ServerError);
      case Disconnected =>
        return Leave(c', Done);
    }
    var flushWaits, quiescent, exit := EndIteration(params, c', hasMoreData, pendingFlush, turn.wait);
    c' := c'.(flushWaits := flushWaits, quiescent := quiescent, exit := exit);
  }

  /** `stream_logs`, with `turns` as its environment; no exit reason if it would still be running. */
  method StreamLogs(params: StreamParams, q: Query, turns: seq<Turn>) returns (c: Client)
    ensures c == Run(params, q, turns)
  {
    c := Start(params);
    var i := 0;
    while i < |turns| && c.exit.None?
      invariant 0 <= i <= |turns|
      invariant c == Run(params, q, turns[..i])
      decreases |turns| - i
    {
      RunOneMore(params, q, turns, i);
      c := Iterate(params, q, c, turns[i]);
      i := i + 1;
    }
    RunStopsAtExit(params, q, turns, i);
  }

  lemma RunOneMore(params: StreamParams, q: Query, turns: seq<Turn>, i: nat)
    requires i < |turns| && Run(params, q, turns[..i]).exit.None?
    ensures Run(params, q, turns[..i + 1]) == Step(params, q, Run(params, q, turns[..i]), turns[i])
  {
    assert turns[..i + 1][..i] == turns[..i];
  }

  lemma {:induction false} RunStopsAtExit(params: StreamParams, q: Query, turns: seq<Turn>, i: nat)
    requires i <= |turns| && (i == |turns| || Run(params, q, turns[..i]).exit.Some?)
    ensures Run(params, q, turns) == Run(params, q, turns[..i])
  {
    if i == |turns| {
      assert turns[..i] == turns;
    } else {
      assert turns[..|turns| - 1][..i] == turns[..i];
      RunStopsAtExit(params, q, turns[..|turns| - 1], i);
    }
  }

  // ----- safety of every run

  /** Every log the daemon's queries saw is a prefix of `log`, to which entries are only appended. */
  ghost predicate ViewsOf(turns: seq<Turn>, log: Log) {
    forall i :: 0 <= i < |turns| && turns[i].rpc.Answered? ==>
      turns[i].rpc.view.first <= log && turns[i].rpc.view.second <= log
  }

  function FirstAnswer(turns: seq<Turn>): Option<View> {
    if turns == [] then None
    else if turns[0].rpc.Answered? then Some(turns[0].rpc.view)
    else FirstAnswer(turns[1..])
  }

  /** The id the stream starts behind: given by the caller, or resolved by the first answer. */
  function Anchor(params: StreamParams, q: Query, turns: seq<Turn>): int {
    match FirstAnswer(turns)
    case None => if params.startAfterId.Some? then params.startAfterId.value else 0
    case Some(view) => EffectiveAfterId(q, NextRequest(params, Start(params)), view.first)
  }

  lemma {:induction false} FirstAnswerAppend(turns: seq<Turn>, turn: Turn)
    ensures FirstAnswer(turns + [turn]) ==
              if FirstAnswer(turns).Some? then FirstAnswer(turns)
              else if turn.rpc.Answered? then Some(turn.rpc.view) else None
  {
    if turns == [] {
      assert [turn][1..] == [];
    } else {
      assert (turns + [turn])[1..] == turns[1..] + [turn];
      FirstAnswerAppend(turns[1..], turn);
    }
  }

  /** While running, what is printed and what the cursor still has ahead are together all there is. */
  ghost predicate OnCourse(params: StreamParams, q: Query, log: Log, turns: seq<Turn>, c: Client) {
    var due := After(log, q, Anchor(params, q, turns));
    && c.printed <= due
    && (c.lastId.None? ==> c.printed == [])
    && (c.lastId.Some? ==> Anchor(params, q, turns) <= c.lastId.value)
    && (FirstAnswer(turns).None? ==> c.lastId == params.startAfterId && c.printed == [] && c.remaining == params.maxTotal)
    && (c.exit.None? && c.lastId.Some? ==> c.printed + After(log, q, c.lastId.value) == due)
    && (c.exit.None? && FirstAnswer(turns).Some? ==> c.lastId.Some?)
    && (match params.maxTotal
        case None => c.remaining == None
        case Some(n) => c.remaining.Some? && |c.printed| + c.remaining.value == n)
  }

  /** Printing a batch moves along `due`; only a batch cut by the total leaves the cursor ahead. */
  lemma PrintMovesAlong(c: Client, data: LogStreamData, rest: Log, due: Log)
    requires c.printed + (data.entries + rest) == due
    ensures var c' := Print(c, data);
            && c'.printed <= due
            && (c.remaining.Some? ==> c'.remaining.Some? && |c'.printed| + c'.remaining.value == |c.printed| + c.remaining.value)
            && (c.remaining.None? ==> c'.remaining.None?)
            && (c'.remaining == Some(0) || c'.printed + rest == due)
  {
    assert c.printed + (data.entries + rest) == c.printed + data.entries + rest;
  }

  lemma ReceiveKeepsPrint(params: StreamParams, c: Client, data: LogStreamData, wait: Wait)
    requires c.exit.None?
    ensures var c', printed := Receive(params, c, data, wait), Print(c, data);
            && c'.printed == printed.printed && c'.lastId == printed.lastId && c'.remaining == printed.remaining
            && (c'.remaining == Some(0) ==> c'.exit == Some(Done))
  {
  }

  lemma AnswerKeepsCourse(params: StreamParams, q: Query, log: Log, turns: seq<Turn>, c: Client, turn: Turn)
    requires Stored(log) && OnCourse(params, q, log, turns, c) && c.exit.None?
    requires turn.rpc.Answered? && turn.rpc.view.first <= log && turn.rpc.view.second <= log
    ensures OnCourse(params, q, log, turns + [turn], Step(params, q, c, turn))
  {
    var req := NextRequest(params, c);
    var data := HandleLogsStream(q, req, turn.rpc.view);
    var due := After(log, q, Anchor(params, q, turns + [turn]));
    FirstAnswerAppend(turns, turn);
    ResponseContinues(q, req, turn.rpc.view, log);
    CursorAtAnchor(params, q, log, turns, c, turn);
    PrintMovesAlong(c, data, After(log, q, data.lastId), due);
    ReceiveKeepsPrint(params, c, data, turn.wait);
  }

  /** The handler reads on from where the client stopped, or from the anchor it resolves now. */
  lemma CursorAtAnchor(params: StreamParams, q: Query, log: Log, turns: seq<Turn>, c: Client, turn: Turn)
    requires OnCourse(params, q, log, turns, c) && c.exit.None? && turn.rpc.Answered?
    ensures c.printed + After(log, q, EffectiveAfterId(q, NextRequest(params, c), turn.rpc.view.first))
              == After(log, q, Anchor(params, q, turns + [turn]))
  {
    FirstAnswerAppend(turns, turn);
    if FirstAnswer(turns).None? {
      assert EffectiveAfterId(q, NextRequest(params, c), turn.rpc.view.first) == Anchor(params, q, turns + [turn]);
      assert c.printed == [];
    }
  }

  lemma OtherTurnPrintsNothing(params: StreamParams, q: Query, c: Client, turn: Turn)
    requires !turn.rpc.Answered?
    ensures var c' := Step(params, q, c, turn);
            c'.printed == c.printed && c'.lastId == c.lastId && c'.remaining == c.remaining
  {
  }

  lemma {:induction false} EveryRunOnCourse(params: StreamParams, q: Query, log: Log, turns: seq<Turn>)
    requires Stored(log) && ViewsOf(turns, log)
    ensures OnCourse(params, q, log, turns, Run(params, q, turns))
  {
    if turns == [] {
      assert [] + After(log, q, Anchor(params, q, [])) == After(log, q, Anchor(params, q, []));
    } else {
      var init, turn := turns[..|turns| - 1], turns[|turns| - 1];
      EveryRunOnCourse(params, q, log, init);
      assert turns == init + [turn];
      FirstAnswerAppend(init, turn);
      var c := Run(params, q, init);
      if c.exit.None? {
        if turn.rpc.Answered? {
          AnswerKeepsCourse(params, q, log, init, c, turn);
        } else {
          OtherTurnPrintsNothing(params, q, c, turn);
        }
      }
    }
  }

  /**
   Whatever times out, is retried, or is appended meanwhile, the output is an unbroken
   run of the matching entries behind the anchor: in order, no gap, no repeat.
   */
  lemma NoGapNoRepeat(params: StreamParams, q: Query, log: Log, turns: seq<Turn>)
    requires Stored(log) && ViewsOf(turns, log)
    ensures var printed := Run(params, q, turns).printed;
            printed <= After(log, q, Anchor(params, q, turns)) && Stored(printed)
  {
    EveryRunOnCourse(params, q, log, turns);
    AfterSound(log, q, Anchor(params, q, turns));
  }

  /** `--head N` and `--tail N` print at most N entries. */
  lemma NeverMoreThanTotal(params: StreamParams, q: Query, log: Log, turns: seq<Turn>)
    requires Stored(log) && ViewsOf(turns, log) && params.maxTotal.Some?
    ensures |Run(params, q, turns).printed| <= params.maxTotal.value
  {
    EveryRunOnCourse(params, q, log, turns);
  }

  // ----- what an exit means

  /** The run ended with this turn, on an answer, and not because the total was reached. */
  ghost predicate Drained(params: StreamParams, q: Query, turns: seq<Turn>, turn: Turn) {
    && turn.rpc.Answered?
    && Run(params, q, turns).exit.None?
    && Run(params, q, turns + [turn]).exit == Some(Done)
    && Run(params, q, turns + [turn]).remaining != Some(0)
  }

  /** The cursor lies between what is printed and what is ahead. */
  lemma CursorSplitsDue(log: Log, q: Query, anchor: int, cursor: int, printed: Log)
    requires Stored(log) && printed + After(log, q, cursor) == After(log, q, anchor)
    ensures forall i :: 0 <= i < |printed| ==> After(log, q, anchor)[i].id <= cursor
    ensures forall i :: |printed| <= i < |After(log, q, anchor)| ==> After(log, q, anchor)[i].id > cursor
  {
    var due, ahead := After(log, q, anchor), After(log, q, cursor);
    AfterSound(log, q, anchor);
    AfterSound(log, q, cursor);
    forall i | |printed| <= i < |due| ensures due[i].id > cursor {
      assert due[i] == ahead[i - |printed|] && due[i] in ahead;
    }
    forall i | 0 <= i < |printed| ensures due[i].id <= cursor {
      assert due[i] in due;
      forall j | 0 <= j < |ahead| ensures ahead[j] != due[i] {
        assert due[|printed| + j] == ahead[j];
      }
      assert due[i] !in ahead;
    }
  }

  /** Two cuts of one stretch of log agree on what lies between the anchor and the cursor. */
  lemma CaughtUp(log: Log, view: Log, q: Query, anchor: int, cursor: int, printed: Log)
    requires Stored(log) && view <= log && anchor <= cursor
    requires printed + After(log, q, cursor) == After(log, q, anchor)
    ensures After(view, q, anchor) <= printed + After(view, q, cursor)
  {
    var due, seen := After(log, q, anchor), After(view, q, anchor);
    AfterOfPrefix(view, log, q, anchor);
    CursorSplitsDue(log, q, anchor, cursor, printed);
    if |printed| < |seen| {
      assert forall i :: 0 <= i < |seen| ==> seen[i] == due[i];
      RaiseCursor(view, q, anchor, cursor, |printed|);
      assert printed == due[..|printed|] == seen[..|printed|];
      assert seen == printed + seen[|printed|..];
    }
  }

  lemma DrainedBatch(params: StreamParams, c: Client, data: LogStreamData, wait: Wait)
    requires c.exit.None?
    requires var c' := Receive(params, c, data, wait); c'.exit == Some(Done) && c'.remaining != Some(0)
    ensures !data.hasMore || data.entries == []
    ensures Receive(params, c, data, wait).printed == c.printed + data.entries
  {
  }

  lemma AnswerDrains(params: StreamParams, q: Query, log: Log, turns: seq<Turn>, c: Client, turn: Turn)
    requires Stored(log) && OnCourse(params, q, log, turns, c) && c.exit.None? && params.limit > 0
    requires turn.rpc.Answered? && turn.rpc.view.first <= log && turn.rpc.view.second <= log
    requires var c' := Step(params, q, c, turn); c'.exit == Some(Done) && c'.remaining != Some(0)
    ensures After(turn.rpc.view.second, q, Anchor(params, q, turns + [turn])) <= Step(params, q, c, turn).printed
  {
    var req, view := NextRequest(params, c), turn.rpc.view;
    var data := HandleLogsStream(q, req, view);
    var cursor := EffectiveAfterId(q, req, view.first);
    DrainedBatch(params, c, data, turn.wait);
    ResponseExhausts(q, req, view, log);
    CursorAtAnchor(params, q, log, turns, c, turn);
    FirstAnswerAppend(turns, turn);
    CaughtUp(log, view.second, q, Anchor(params, q, turns + [turn]), cursor, c.printed);
  }

  lemma RunAppend(params: StreamParams, q: Query, turns: seq<Turn>, turn: Turn)
    ensures Run(params, q, turns + [turn]) ==
              if Run(params, q, turns).exit.Some? then Run(params, q, turns)
              else Step(params, q, Run(params, q, turns), turn)
  {
    assert (turns + [turn])[..|turns|] == turns;
  }

  lemma ViewsSplit(turns: seq<Turn>, turn: Turn, log: Log)
    ensures ViewsOf(turns + [turn], log) <==>
              ViewsOf(turns, log) && (turn.rpc.Answered? ==> turn.rpc.view.first <= log && turn.rpc.view.second <= log)
  {
    var all := turns + [turn];
    assert all[|turns|] == turn && forall i :: 0 <= i < |turns| ==> all[i] == turns[i];
  }

  /**
   A run that ends on an answer, short of a total, has printed everything that answer
   could read. It needs a limit above zero: see `ZeroLimitPrintsNothing`.
   */
  lemma DrainedPrintedAll(params: StreamParams, q: Query, log: Log, turns: seq<Turn>, turn: Turn)
    requires Stored(log) && ViewsOf(turns + [turn], log) && params.limit > 0
    requires Drained(params, q, turns, turn)
    ensures After(turn.rpc.view.second, q, Anchor(params, q, turns + [turn])) <= Run(params, q, turns + [turn]).printed
  {
    ViewsSplit(turns, turn, log);
    EveryRunOnCourse(params, q, log, turns);
    RunAppend(params, q, turns, turn);
    AnswerDrains(params, q, log, turns, Run(params, q, turns), turn);
  }
}
