/** When and why the log streaming loop ends, told by the turn that ends it and the signals before. */
module LogStreamExits {
  import opened Wrappers
  import opened LogServer
  import opened LogStream

  // ----- one turn

  ghost function Answer(params: StreamParams, q: Query, c: Client, turn: Turn): LogStreamData
    requires turn.rpc.Answered?
  {
    HandleLogsStream(q, NextRequest(params, c), turn.rpc.view)
  }

  /** The turn brought entries, and the daemon reports more. */
  ghost predicate ReadsOn(params: StreamParams, q: Query, c: Client, turn: Turn) {
    turn.rpc.Answered? && Answer(params, q, c, turn).hasMore && Answer(params, q, c, turn).entries != [] && c.remaining != Some(0)
  }

  /** The turn brought nothing, though the daemon reports more. */
  ghost predicate Stalls(params: StreamParams, q: Query, c: Client, turn: Turn) {
    turn.rpc.Answered? && Answer(params, q, c, turn).hasMore && !ReadsOn(params, q, c, turn)
  }

  /** With this turn, as many entries as were still owed have come. */
  ghost predicate ReachesTotal(params: StreamParams, q: Query, c: Client, turn: Turn) {
    turn.rpc.Answered? && c.remaining.Some? && |Answer(params, q, c, turn).entries| >= c.remaining.value
  }

  ghost predicate Succeeds(turn: Turn) {
    turn.rpc.Answered? || turn.rpc.OtherOk?
  }

  // ----- quiescence

  /** At turn `i` the loop waited, and the services went quiescent. */
  ghost predicate SignalAt(params: StreamParams, q: Query, turns: seq<Turn>, i: nat) {
    && i < |turns| && turns[i].wait == Quiescence
    && (turns[i].rpc.NotLoaded? || (Succeeds(turns[i]) && !ReadsOn(params, q, Run(params, q, turns[..i]), turns[i])))
  }

  ghost predicate Signalled(params: StreamParams, q: Query, turns: seq<Turn>) {
    exists i: nat :: SignalAt(params, q, turns, i)
  }

  lemma SignalledAppend(params: StreamParams, q: Query, turns: seq<Turn>, turn: Turn)
    ensures Signalled(params, q, turns + [turn]) <==>
              Signalled(params, q, turns) || SignalAt(params, q, turns + [turn], |turns|)
  {
    var all := turns + [turn];
    forall i: nat | i < |turns| ensures SignalAt(params, q, all, i) == SignalAt(params, q, turns, i) {
      assert all[..i] == turns[..i];
    }
    if Signalled(params, q, all) {
      var i: nat :| SignalAt(params, q, all, i);
      assert i < |turns| ==> SignalAt(params, q, turns, i);
    }
    if Signalled(params, q, turns) {
      var i: nat :| SignalAt(params, q, turns, i);
      assert SignalAt(params, q, all, i);
    }
  }

  lemma QuiescenceStep(params: StreamParams, q: Query, c: Client, turn: Turn)
    requires params.mode != All && c.exit.None? && Step(params, q, c, turn).exit.None?
    ensures Step(params, q, c, turn).quiescent <==>
              || c.quiescent
              || (turn.wait == Quiescence && (turn.rpc.NotLoaded? || (Succeeds(turn) && !ReadsOn(params, q, c, turn))))
  {
  }

  /** While a following stream runs, it knows of quiescence exactly when it was signalled in a wait. */
  lemma {:induction false} QuiescentIffSignalled(params: StreamParams, q: Query, turns: seq<Turn>)
    requires params.mode != All && Run(params, q, turns).exit.None?
    ensures Run(params, q, turns).quiescent <==> Signalled(params, q, turns)
  {
    if turns != [] {
      var init, turn := turns[..|turns| - 1], turns[|turns| - 1];
      assert turns == init + [turn];
      RunAppend(params, q, init, turn);
      QuiescentIffSignalled(params, q, init);
      QuiescenceStep(params, q, Run(params, q, init), turn);
      SignalledAppend(params, q, init, turn);
    }
  }

  // ----- exits

  /** There is nothing more to wait for: the flush budget is spent, or the services are all done. */
  ghost predicate Finished(params: StreamParams, q: Query, c: Client, turn: Turn, quiescent: bool) {
    if params.mode == All then !(Stalls(params, q, c, turn) && c.flushWaits < MAX_FLUSH_WAITS) else quiescent
  }

  /** The loop comes to a point where it looks for a shutdown. */
  ghost predicate Pauses(params: StreamParams, q: Query, c: Client, turn: Turn, quiescent: bool) {
    || (turn.rpc.NotLoaded? && params.mode == UntilQuiescent && !quiescent)
    || (Succeeds(turn) && !ReachesTotal(params, q, c, turn)
        && if ReadsOn(params, q, c, turn) then params.mode != All else !Finished(params, q, c, turn, quiescent))
  }

  /** Natural ends: a lost daemon, no configuration to wait for, the total, or everything read and finished. */
  ghost predicate EndsNaturally(params: StreamParams, q: Query, c: Client, turn: Turn, quiescent: bool) {
    || turn.rpc.Disconnected?
    || (turn.rpc.NotLoaded? && (params.mode != UntilQuiescent || quiescent))
    || ReachesTotal(params, q, c, turn)
    || (Succeeds(turn) && !ReadsOn(params, q, c, turn) && Finished(params, q, c, turn, quiescent))
  }

  lemma AnswerExits(params: StreamParams, q: Query, c: Client, turn: Turn)
    requires c.exit.None? && turn.rpc.Answered?
    ensures var exit := Step(params, q, c, turn).exit;
            && (exit == Some(ShutdownRequested) <==> turn.wait == Shutdown && Pauses(params, q, c, turn, c.quiescent))
            && (exit == Some(Done) <==> EndsNaturally(params, q, c, turn, c.quiescent))
            && exit != Some(ServerError) && exit != Some(PermissionDenied)
  {
    var c' := Print(c, Answer(params, q, c, turn));
    assert ReachesTotal(params, q, c, turn) <==> c.remaining.Some? && c'.remaining == Some(0);
    assert Answer(params, q, c, turn).entries != [] && c.remaining != Some(0) <==> |c'.printed| > |c.printed|;
  }

  lemma OtherExits(params: StreamParams, q: Query, c: Client, turn: Turn)
    requires c.exit.None? && !turn.rpc.Answered?
    ensures var exit := Step(params, q, c, turn).exit;
            && (exit == Some(ServerError) <==> turn.rpc.Failed?)
            && (exit == Some(PermissionDenied) <==> turn.rpc.Denied?)
            && (exit == Some(ShutdownRequested) <==>
                  turn.rpc.Interrupted? || (turn.wait == Shutdown && Pauses(params, q, c, turn, c.quiescent)))
            && (exit == Some(Done) <==> EndsNaturally(params, q, c, turn, c.quiescent))
  {
  }

  lemma {:induction false} OneShotKnowsNoQuiescence(params: StreamParams, q: Query, turns: seq<Turn>)
    requires params.mode == All
    ensures !Run(params, q, turns).quiescent
  {
    if turns != [] {
      OneShotKnowsNoQuiescence(params, q, turns[..|turns| - 1]);
    }
  }

  /** Each way out of the loop, by the turn that takes it and the signals before: in all other cases it goes on. */
  lemma ExitsExactly(params: StreamParams, q: Query, turns: seq<Turn>, turn: Turn)
    requires Run(params, q, turns).exit.None?
    ensures var c, exit := Run(params, q, turns), Run(params, q, turns + [turn]).exit;
            var quiescent := params.mode != All && Signalled(params, q, turns);
            && (exit == Some(ServerError) <==> turn.rpc.Failed?)
            && (exit == Some(PermissionDenied) <==> turn.rpc.Denied?)
            && (exit == Some(ShutdownRequested) <==>
                  turn.rpc.Interrupted? || (turn.wait == Shutdown && Pauses(params, q, c, turn, quiescent)))
            && (exit == Some(Done) <==> EndsNaturally(params, q, c, turn, quiescent))
  {
    RunAppend(params, q, turns, turn);
    if params.mode == All {
      OneShotKnowsNoQuiescence(params, q, turns);
    } else {
      QuiescentIffSignalled(params, q, turns);
    }
    if turn.rpc.Answered? {
      AnswerExits(params, q, Run(params, q, turns), turn);
    } else {
      OtherExits(params, q, Run(params, q, turns), turn);
    }
  }

  /** Nothing ends or signals in these turns: answers and timeouts, each followed by a wait that ran its time. */
  ghost predicate Uneventful(turns: seq<Turn>) {
    forall i :: 0 <= i < |turns| ==> (Succeeds(turns[i]) || turns[i].rpc.TimedOut?) && turns[i].wait == Elapsed
  }

  /** A following stream without a total goes on as long as nothing happens but answers and timeouts. */
  lemma {:induction false} FollowGoesOn(params: StreamParams, q: Query, turns: seq<Turn>)
    requires params.mode != All && params.maxTotal.None? && Uneventful(turns)
    ensures var c := Run(params, q, turns); c.exit.None? && !c.quiescent && c.remaining.None?
  {
    if turns != [] {
      FollowGoesOn(params, q, turns[..|turns| - 1]);
    }
  }
}
